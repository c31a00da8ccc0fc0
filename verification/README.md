# marty_rcfs resource filesystem — a Dafny model

marty_rcfs is a header-only C++ library. It keeps an in-memory tree of named
resources: directories, and files whose bytes live in buffers the program
already has. It offers path normalisation, directory and file creation,
descriptor-based opening, and reads. Optionally, a pluggable decoder decodes
a file's bytes on first open (for example a XOR cipher). This project models
the core of the library and proves properties of the model:

- `path_names.dfy` (module `PathNames`) covers the path helpers of
  `ResourceFileSystem`:
  - `toLower` and `normalizeNameSymbols`, where backslashes become slashes
    and the ASCII letters A–Z are lowered unless the filesystem is
    case-sensitive (no other character is folded);
  - `splitPath`, where empty segments and `.` are dropped and `..` removes
    the previous segment;
  - `mergePath`.

  The proofs cover idempotence, the canonical form of split paths, and the
  round trip `split(merge(ws)) == ws`.
- `file_decoder.dfy` (module `FileDecoder`) covers the decoder contract
  `IFileDecoder`, the `NoDecodeFileDecoder`, and the decision logic that the
  `MARTY_RCFS_IMPLEMENT_XOR_DECRYPT_FILE_DECODER` macro generates.
- `directory_entry.dfy` (module `DirectoryTree`) covers `DirectoryEntry`:
  - locking;
  - the effective data (decoded bytes when present, otherwise the raw
    buffer);
  - data assignment and reset, which are refused while the entry is open;
  - child lookup and creation, and recursive lookup and creation along a
    path.

  The whole tree is one value: a map from each entry's canonical path (its
  list of segment names from the root) to the entry. The library never
  removes or renames entries, so a path identifies a `DirectoryEntry*` for
  the whole life of the tree.
- `resource_fs.dfy` (module `ResourceFs`) models `ResourceFileSystem`:
  - a class that owns the tree, the descriptor counter and the table of open
    descriptors;
  - methods for `createDirectory`, `createFile`, `setFileData`, lookup,
    `openFile` (with decode on demand), `closeFile`, `getFileSize` and the
    `readFile` family.

  Each tree-changing method is proved equal to a function over the tree.
  Lemmas about that function state when the call succeeds and what it
  changes. The class invariant states that every entry's lock count equals
  the number of open descriptors that refer to it, and the methods preserve
  it.
- `auto_file_handle.dfy` (module `FileHandle`) models `AutoFileHandle`, the
  holder of at most one descriptor.

C++ exceptions become the `Outcome` value `Thrown(error)`. Raw buffers, which
the library holds as a pointer plus a size, become `Option<Bytes>`: `None` is
the null pointer, and `Some(bytes)` holds the first `size` bytes.

Behaviours of the code that the model keeps on purpose:

- The read position of a descriptor is always 0. No read advances it, so
  every read starts at the beginning of the file (`ReadFromStart`).
- The empty path resolves to the root directory.
  - `openFile("")` succeeds.
  - `setFileData("")` attaches data to the root.
  - `createFile("")` and `createDirectory("")` answer false.
- A file whose buffer is empty or null has no readable data. Its size is 0
  and every read fails.
- A decoder that turns a non-null empty buffer into empty output is called
  again on every open, because the cache is empty again
  (`XorEmptyRawDecodedEveryOpen`).
- When the decoder throws inside `openFile`, the descriptor has already been
  allocated and the entry locked. The exception escapes and both stay in
  place. The lock count still equals the number of descriptors.
- `getFileSize(name)` uses up a descriptor number, and the decoded data it
  caused to be cached stays cached.
- The `createFile` exception "something goes wrong" would need an empty file
  name, and `splitPath` never produces one. So it is unreachable:
  `CreateFileIn` yields a value whenever the lock counts are non-negative.

## Model

| member | source | states |
|---|---|---|
| PathNames.ToLower | rcfs.h:177-183 | 'A'..'Z' map to 'a'..'z' (code plus 32); every other character is returned unchanged |
| PathNames.NormalizeSpec | rcfs.h:177-202 | normalisation keeps the length; each backslash becomes '/', each A–Z becomes a–z when case-insensitive, every other character is kept |
| PathNames.NormalizeIsNormalized | rcfs.h:185-202 | a normalised name contains no backslash and, when case-insensitive, no upper-case letter |
| PathNames.NormalizeFixedPoint | rcfs.h:185-202 | normalising twice equals normalising once; a name is left unchanged exactly when it is already normalised |
| PathNames.NormalizeCharIdempotent | rcfs.h:177-183 | normalising one character twice equals normalising it once |
| PathNames.NormalizeNameSymbols | rcfs.h:185-202 | the in-place character loop yields the normalised name |
| PathNames.SplitPath | rcfs.h:204-246 | the character loop with its push-buffer step yields `Split`: normalise, cut at '/', drop empty and "." pieces, let ".." pop the previous segment |
| PathNames.SplitIsCanonical | rcfs.h:204-246 | every segment of a split path is non-empty, is not "." or "..", contains no '/', and is normalised |
| PathNames.PushSegment | rcfs.h:211-232 | an empty or "." buffer leaves the segments alone; ".." drops the last segment, or nothing when there is none; any other buffer is appended |
| ResourceFs.SplitNamesNonEmpty | rcfs.h:211-232 | no segment of a split path is empty |
| PathNames.ResolveValid | rcfs.h:211-232 | pushing ordinary segments appends them unchanged |
| PathNames.SplitDotAndParent | rcfs.h:204-246 | "a/./b/../c" splits into [a, c] |
| PathNames.SplitLeadingParent | rcfs.h:222-228 | a ".." with nothing before it is dropped: "../x" splits into [x] |
| PathNames.MergePath | rcfs.h:248-266 | the loop yields `Join`, the segments separated by single '/' |
| PathNames.JoinShape | rcfs.h:248-266 | merging no parts gives "", one part gives itself, and one more part appends "/" and the part |
| PathNames.PiecesOfJoin | rcfs.h:235-243 | cutting a merged path at '/' gives back the slash-free segments |
| PathNames.SplitOfJoin | rcfs.h:204-266 | splitting the merge of canonical segments gives back the same segments |
| PathNames.SplitIdempotent | rcfs.h:204-266 | merging a split path and splitting it again changes nothing |
| FileDecoder.NoDecode | i_file_decoder.h:47-67 | the no-op decoder never produces data and never fails |
| FileDecoder.NoDecodeFileDecoder | i_file_decoder.h:47-67 | the installed no-op decoder answers `NoDecode` for every buffer and key |
| FileDecoder.XorDecryptDecode | i_file_decoder.h:113-123 | key size 0 means no transform; a key size other than 0, 1, 2 or 4 throws; otherwise the result is the XOR of the raw bytes, as long as the raw input when the XOR routine keeps lengths |
| FileDecoder.XorDecryptFileDecoder | i_file_decoder.h:100-125 | the generated decoder answers `XorDecryptDecode` for every buffer and key |
| FileDecoder.XorDecodedEmptyIff | i_file_decoder.h:116-123 | with a valid key size the decoder produces data, and that data is empty exactly when the raw buffer is empty |
| DirectoryTree.NewDirectory | directory_entry.h:76-80 | a new directory entry is unlocked, has no key and no readable data |
| DirectoryTree.NewFile | directory_entry.h:82-99 | `DirectoryEntry(0, 0)` is an unlocked file with no key, no readable data and size 0 |
| DirectoryTree.AncestorsAreDirectories | directory_entry.h:347-391 | in a well-formed tree every proper prefix of an entry's path is a directory, and no segment is empty |
| DirectoryTree.Lock | directory_entry.h:104 | raises the lock count by one and changes nothing else |
| DirectoryTree.Unlock | directory_entry.h:105 | lowers the lock count by one and changes nothing else |
| DirectoryTree.Locked | directory_entry.h:106 | throws the lock/unlock mismatch exactly when the count is negative, otherwise answers whether it is positive |
| DirectoryTree.UnlockLock | directory_entry.h:104-106 | unlock undoes lock and lock undoes unlock; an unlocked entry reads as unlocked and, after one lock, as locked |
| DirectoryTree.EffectiveData | directory_entry.h:275-286 | data exists exactly when the raw buffer is non-null and non-empty; it is the decoded bytes when those are non-empty, the raw bytes otherwise |
| DirectoryTree.FileDataSize | directory_entry.h:290-301 | the size is 0 exactly when there is no effective data, otherwise it is the length of the effective data |
| DirectoryTree.AssignFileEntryData | directory_entry.h:414-436 | refused while the entry is locked, throws on a negative lock count, otherwise sets the buffer and key and clears the decoded cache |
| DirectoryTree.ResetFileEntryData | directory_entry.h:395-410 | like assignment, with a null buffer and a zero key |
| DirectoryTree.AssignedDataIsRaw | directory_entry.h:414-436 | after assignment the effective data is the new raw buffer (none if it is null or empty); after reset the size is 0 |
| DirectoryTree.FindAnyChildEntry | directory_entry.h:315-324 | finds the child exactly when the name is non-empty and the child exists |
| DirectoryTree.FindExactChildEntry | directory_entry.h:329-342 | finds the child exactly when it exists under a non-empty name and is a directory iff a directory was asked for |
| DirectoryTree.FindSubDirectory | directory_entry.h:140-154 | a directory found along a chain of names sits at the starting path followed by those names |
| DirectoryTree.FindSubDirectoryExact | directory_entry.h:140-154 | in a well-formed tree the chain is found exactly when the path it names exists and is a directory |
| DirectoryTree.FindDirectoryEntryAsWritten | directory_entry.h:226-234 | dereferences null exactly when the directory chain is missing; otherwise it agrees with the corrected lookup |
| DirectoryTree.MissingDirectoryDereferencesNull | directory_entry.h:226-234 | looking up "a/name" when "a" does not exist dereferences null |
| DirectoryTree.FindDirectoryEntry | directory_entry.h:226-234 | corrected lookup: a found entry sits at the directory path plus the name and has the requested kind |
| DirectoryTree.FindDirectoryEntryExact | directory_entry.h:226-234 | in a well-formed tree the corrected lookup succeeds exactly when the entry exists under a non-empty name with the requested kind |
| DirectoryTree.AddChildKeepsValid | directory_entry.h:347-391 | adding a child with a non-empty new name below a directory keeps the tree well formed |
| DirectoryTree.CreateDirectoryChildEntry | directory_entry.h:347-372 | succeeds exactly for a non-empty name that is absent, or that is an existing directory when failOnExist is off; adds only the new empty directory; keeps the tree well formed |
| DirectoryTree.CreateFileChildEntry | directory_entry.h:377-391 | succeeds exactly for a non-empty absent name; adds only the new empty file; keeps the tree well formed |
| DirectoryTree.CreateSubDirectoryChain | directory_entry.h:157-189 | adds only empty directories; a returned entry is new at the start path plus the chain plus the name; nothing changes when a non-forced walk fails; keeps the tree well formed (the forced outcome is stated by `CreateSubDirectoryForcedTree`) |
| DirectoryTree.CreateSubDirectory | directory_entry.h:157-189 | the loop that walks or creates the chain yields `CreateSubDirectoryChain` |
| DirectoryTree.CreateSubDirectoryNoForce | directory_entry.h:157-189 | without forcing, the call succeeds exactly when the chain exists as directories and the final name is new; it then adds just that directory |
| DirectoryTree.CreateSubDirectoryForced | directory_entry.h:157-189 | with forcing, the call succeeds exactly when no file blocks the chain and the final name is new |
| DirectoryTree.NoFileAlongExtend | directory_entry.h:162-186 | a chain free of files stays free when extended by a name that is absent or a directory |
| DirectoryTree.ChainTreeAdds | directory_entry.h:166-175 | the chain tree (`ChainTree`, every missing prefix of a path made an empty directory) is the old tree plus exactly those prefixes, each an empty directory |
| DirectoryTree.ForcedChainBlocked | directory_entry.h:177-181 | with forcing, a file on the chain stops the walk before anything is created: the tree is unchanged |
| DirectoryTree.ForcedChainStep | directory_entry.h:162-184 | one forced step goes through an existing directory child, or creates a missing child first and continues below it |
| DirectoryTree.ForcedChainTree | directory_entry.h:157-189 | with forcing and no file on the chain, the resulting tree is the chain tree of the full path (on success) or of the chain (on failure) |
| DirectoryTree.CreateSubDirectoryForcedTree | directory_entry.h:157-189 | with forcing and non-empty names: on success the tree gains exactly the missing directories along the chain plus the new directory, all empty; on failure it is unchanged |
| ResourceFs.Locate | rcfs.h:338-354 | the empty path locates the root; a located entry sits at the split path |
| ResourceFs.LocateExact | rcfs.h:338-380 | a path is located exactly when it is empty, or names an entry of the requested kind |
| ResourceFs.LocateSameShape | rcfs.h:338-354 | lookups do not depend on lock counts or file data |
| ResourceFs.CreateDirectoryIn | rcfs.h:269-287 | adds only empty directories and keeps the tree well formed and the lock counts; a created directory is new at the split path; the empty path creates nothing (the exact new tree is stated by `CreateDirectoryOutcome`) |
| ResourceFs.CreateDirectoryOutcome | rcfs.h:269-287 | succeeds exactly when the path is non-empty and new, and its parent chain exists (not forced) or is not blocked by a file (forced); not forced, only that directory is added; forced (the default), a success adds exactly the missing prefixes of the path as empty directories and a failure changes nothing |
| ResourceFs.PrepareParent | rcfs.h:304-310 | creating the missing parent directories adds only empty directories and keeps the lock counts (exactly which ones is stated by `PrepareParentTree`) |
| ResourceFs.PrepareParentTree | rcfs.h:304-310 | without `createPath` or for a file at the root the tree is unchanged; otherwise it gains exactly the missing prefixes of the parent path as empty directories when no file blocks that path, and is unchanged when one does |
| ResourceFs.PrepareParentMakesDirectory | rcfs.h:304-312 | when no file blocks the parent chain, the parent directory exists after that step |
| ResourceFs.CreateFileIn | rcfs.h:289-332 | keeps the tree well formed and the lock counts; the empty path answers false; no exception is thrown while lock counts are non-negative and no segment name is empty |
| ResourceFs.CreateFileSteps | rcfs.h:293-331 | the sequence of steps after splitting (parent creation, parent lookup, child creation, reset of a reusable file) yields `CreateFileIn` |
| ResourceFs.CreateFileOutcome | rcfs.h:289-332 | answers true exactly when the parent directory exists and the name is new, or names an unlocked file and failOnExist is off; the entry is then exactly `NewFile()` (null buffer, no key, empty decode cache, unlocked), whether new or reset, and nothing else changes; the tree after the parent step is the one `PrepareParentTree` pins |
| ResourceFs.SetFileDataIn | rcfs.h:385-405 | keeps the tree well formed and the lock counts; never throws while lock counts are non-negative |
| ResourceFs.SetFileDataOutcome | rcfs.h:385-405 | answers true exactly when the path names an unlocked file (or is the root); the entry then carries exactly the new raw buffer (null, empty or not) and key, its decode cache is cleared, it reads as the raw bytes when they are non-empty, and nothing else changes |
| ResourceFs.NeedsDecode | rcfs.h:423 | decoding is due only with a decoder and a non-null buffer, while the entry still reads its raw bytes (the decoded cache is empty) |
| ResourceFs.OpenEntry | rcfs.h:418-441 | opening locks the entry; it fails exactly when decoding is due and the decoder throws; the decoded cache changes only to the decoder's output |
| ResourceFs.CloseUndoesLock | rcfs.h:482-493 | closing right after opening gives back the entry with only its decode cache changed |
| ResourceFs.DecodeAtMostOnce | rcfs.h:423-441 | after a decode with non-empty output, a second open does not decode again and only locks |
| ResourceFs.NoDecoderOnlyLocks | rcfs.h:418-441 | without a decoder, or with the no-op decoder, opening only locks and the effective data is unchanged |
| ResourceFs.XorOpen | rcfs.h:408-445 | with the XOR decoder the first open yields the raw data for key size 0, or XOR-decoded data of the raw length for sizes 1, 2 or 4; it fails exactly for other sizes |
| ResourceFs.XorEmptyRawDecodedEveryOpen | rcfs.h:423-441 | an empty non-null buffer stays due for decoding after every open, and its size is 0 |
| ResourceFs.ReadSpan | rcfs.h:531-555 | a successful read returns between 1 and n bytes of the data, starting at the read position; when position plus count does not wrap, the read succeeds exactly on data, a positive count and a position inside the data, and returns the bytes from the position up to the smaller of position plus count and the size; when it wraps, the read fails |
| ResourceFs.ReadFromStart | rcfs.h:531-555 | from position 0 a read succeeds exactly when there is data and n > 0, and returns the first min(n, size) bytes |
| ResourceFs.ResourceFileSystem.LocksNonNegative | rcfs.h:447-459 | in a valid filesystem no lock count is negative, so the lock/unlock mismatch exception cannot occur |
| ResourceFs.ResourceFileSystem.constructor | rcfs.h:126-137 | a filesystem with an empty root directory, no open files and descriptor counter 1 |
| ResourceFs.ResourceFileSystem.CreateDirectory | rcfs.h:269-287 | the new tree and the answer are those of `CreateDirectoryIn`; descriptors untouched; the invariant is kept |
| ResourceFs.ResourceFileSystem.CreateFile | rcfs.h:289-332 | the new tree and the answer are those of `CreateFileIn`; descriptors untouched; the invariant is kept |
| ResourceFs.ResourceFileSystem.FindEntry | rcfs.h:338-354 | the entry found is the one `Locate` gives; found exactly when the path is empty or names an entry of the requested kind |
| ResourceFs.ResourceFileSystem.FindDirectoryEntry | rcfs.h:358-361 | a found entry is the root or a directory |
| ResourceFs.ResourceFileSystem.FindFileEntry | rcfs.h:363-366 | a found entry is the root or a file |
| ResourceFs.ResourceFileSystem.SetFileData | rcfs.h:385-405 | the new tree and the answer are those of `SetFileDataIn`; the invariant is kept |
| ResourceFs.ResourceFileSystem.GenerateFileDescriptor | rcfs.h:113-116 | returns the counter value and advances the counter; the number is positive and not in use |
| ResourceFs.ResourceFileSystem.OpenFile | rcfs.h:408-445 | a missing file answers -1 and changes nothing; otherwise a fresh descriptor at position 0 is recorded, the entry is opened by `OpenEntry`, and a decoder failure throws |
| ResourceFs.ResourceFileSystem.CloseFile | rcfs.h:447-459 | answers true exactly for an open descriptor, which is then removed and its entry unlocked; otherwise nothing changes |
| ResourceFs.ResourceFileSystem.GetFileSize | rcfs.h:461-480 | the maximum size_t for an unknown descriptor, otherwise the entry's data size |
| ResourceFs.ResourceFileSystem.GetFileSizeByName | rcfs.h:482-493 | the maximum size_t for a missing file; otherwise the size after opening, with one descriptor number used up and only the decoded cache changed; a decoder failure throws and leaves the descriptor open |
| ResourceFs.ResourceFileSystem.GetOpenedFileReadParams | rcfs.h:498-529 | the effective data, its size and the read position of an open descriptor; nothing for an unknown one |
| ResourceFs.ResourceFileSystem.ReadFile | rcfs.h:531-555 | succeeds exactly when the descriptor is open, has data and n > 0; the buffer then holds the first min(n, size) bytes and is untouched otherwise |
| ResourceFs.ResourceFileSystem.ReadFileInto | rcfs.h:560-582 | on success the caller's array starts with the bytes read, the count is returned and the rest of the array is untouched; on failure the array is untouched |
| ResourceFs.ResourceFileSystem.ReadWholeFile | rcfs.h:603-616 | succeeds exactly when the descriptor is open and has data; the buffer then holds the whole data |
| FileHandle.AutoFileHandle.constructor | rcfs.h:52-59 | a handle on the given filesystem holding no descriptor |
| FileHandle.AutoFileHandle.Close | rcfs.h:647-663 | true with no change when nothing is held; otherwise closes the held descriptor and forgets it, or answers false and keeps it when the filesystem does not know it |
| FileHandle.AutoFileHandle.Open | rcfs.h:628-643 | releases the held descriptor first (its entry unlocked, its record removed); a missing file then answers false and changes nothing more; otherwise the next descriptor is recorded at position 0 on the file, the entry is opened by `OpenEntry` (locked, decoded when due), the handle holds the descriptor, and a decoder failure throws |
| FileHandle.AutoFileHandle.Read | rcfs.h:667-693 | reads through the held descriptor: succeeds exactly when it is open, has data and n > 0, giving the first min(n, size) bytes |
| FileHandle.AutoFileHandle.ReadAll | rcfs.h:697-723 | reads the whole file through the held descriptor |

## Left out

- Input/output, threads and the unprotected `m_openedFiles` table. The model
  is sequential.
- Pointer lifetime and `memcpy`. Raw buffers are byte sequences owned by the
  entry, and `ReadFileInto` writes into a Dafny array that the caller sizes.
  The optional `pBytesReaded` out-pointer is always written.
- The three container overloads of `readFile` and `AutoFileHandle::read`
  (`std::vector<std::uint8_t>`, `std::vector<char>`, `std::string`) behave
  the same, so each family is one method over `seq<byte>`.
- Copy and move construction of `ResourceFileSystem`, `setRootDirectory`,
  `setFileDecoder`, the static default root and decoder, and `checkRoot`'s
  null-root exception.
  - The model's filesystem always starts with a fresh root and keeps the
    decoder it was built with.
  - An externally supplied root tree is not modelled.
- `AutoFileHandle`'s destructor, which calls `close`. Dafny has no
  destructors.
- ResourceFs.ResourceFileSystem.GenerateFileDescriptor: does not model the
  overflow of the C++ `int` counter after 2^31 - 1 descriptors.
- The XOR routine `_2c::xorDecrypt` lives outside the core. It is a parameter
  of the XOR decoder, and only the fact that it keeps lengths is assumed where
  a lemma needs it.
- `DirectoryEntry` nodes are not separate heap objects. The tree is one map
  value that the filesystem reassigns, so the model does not capture aliasing
  of entry pointers.
- rcfs_enumerate.h (enumeration) and rcfs_init.h (static initialisation) are
  not part of this model.
- The template `DirectoryEntry::createFile` (directory_entry.h:192-224)
  calls a `findAnyEntry` that does not exist, and nothing instantiates it.
  Separately, the `DirectoryEntry` wrappers `findDirectory` and `findFile`
  (directory_entry.h:236-264) only forward to the member template
  `findDirectoryEntry`, and nothing calls them. That lookup is modelled by
  `FindDirectoryEntry` and its as-written twin.
- The iteration order of the `std::unordered_map` children is not modelled.
  The core never observes it.
- File attributes other than directory and file are not modelled.
- FileHandle.AutoFileHandle.Read: the source asserts `fileId >= 0`
  (`MARTY_RCFS_ASSERT`). The model makes that a precondition.

## Findings

| source | as written | input that shows it | evidently intended | confidence | as-written member | corrected member |
|---|---|---|---|---|---|---|
| directory_entry.h:226-234 | `findDirectoryEntry` calls `findExactChildEntry` on the result of `findSubDirectory` without a null check | `openFile("a/b")` on a filesystem without a directory `a`: `findSubDirectory` returns null and it is dereferenced | answer "not found" (null), as every other lookup does | high; not executed | DirectoryTree.FindDirectoryEntryAsWritten, DirectoryTree.MissingDirectoryDereferencesNull | DirectoryTree.FindDirectoryEntry, DirectoryTree.FindDirectoryEntryExact |
