/**
  The `ResourceFileSystem` facade of rcfs.h.

  The facade owns the tree (see `DirectoryTree`), a case-sensitivity flag
  fixed at construction, an optional decoder, the descriptor counter and the
  table of open descriptors.  Every operation that takes a name first splits
  it with `splitPath`; the tree work each operation does is given by a
  function over the tree value, and the methods of the class run the
  source's steps and are proved to produce that function's result.
*/
module ResourceFs {
  import opened Common
  import opened PathNames
  import opened DirectoryTree
  import opened FileDecoder

  /** `OpenedFileInfo`: the entry a descriptor refers to and its read position. */
  datatype OpenedFileInfo = OpenedFileInfo(entry: Path, readPos: size_t)

  /** Registering a fresh descriptor and removing it again leaves the table
      as it was. */
  lemma AddThenRemove(files: map<int, OpenedFileInfo>, d: int, info: OpenedFileInfo)
    requires d !in files
    ensures files[d := info] - {d} == files
  {
  }

  /** How many open descriptors refer to the entry at `p`. */
  ghost function OpenCount(files: map<int, OpenedFileInfo>, p: Path): nat
  {
    |set d | d in files && files[d].entry == p|
  }

  /** Registering a new descriptor adds one reference to its entry only. */
  lemma OpenCountAdd(files: map<int, OpenedFileInfo>, d: int, info: OpenedFileInfo)
    requires d !in files
    ensures forall p :: OpenCount(files[d := info], p) == OpenCount(files, p) + (if p == info.entry then 1 else 0)
  {
    var files' := files[d := info];
    forall p
      ensures OpenCount(files', p) == OpenCount(files, p) + (if p == info.entry then 1 else 0)
    {
      var before := set d' | d' in files && files[d'].entry == p;
      var after := set d' | d' in files' && files'[d'].entry == p;
      if p == info.entry {
        assert after == before + {d};
      } else {
        assert after == before;
      }
    }
  }

  /** Removing a descriptor drops one reference to its entry only. */
  lemma OpenCountRemove(files: map<int, OpenedFileInfo>, d: int)
    requires d in files
    ensures forall p :: OpenCount(files - {d}, p) == OpenCount(files, p) - (if p == files[d].entry then 1 else 0)
  {
    var files' := files - {d};
    forall p
      ensures OpenCount(files', p) == OpenCount(files, p) - (if p == files[d].entry then 1 else 0)
    {
      var before := set d' | d' in files && files[d'].entry == p;
      var after := set d' | d' in files' && files'[d'].entry == p;
      if p == files[d].entry {
        assert after == before - {d};
      } else {
        assert after == before;
      }
    }
  }

  /** An entry no descriptor refers to has no references. */
  lemma OpenCountZero(files: map<int, OpenedFileInfo>, p: Path)
    requires forall d :: d in files ==> files[d].entry != p
    ensures OpenCount(files, p) == 0
  {
    var refs := set d | d in files && files[d].entry == p;
    assert forall d :: d !in refs;
    assert refs == {};
  }

  /** Entries that were there keep their lock counts; new entries are unlocked. */
  ghost predicate SameLocks(t: Tree, u: Tree)
  {
    (forall p :: p in t ==> p in u && u[p].lockCount == t[p].lockCount) &&
    (forall p :: p in u && p !in t ==> u[p].lockCount == 0)
  }

  /** Adding only unlocked entries keeps every lock count. */
  lemma AddsUnlockedKeepsLocks(t: Tree, u: Tree, added: Entry)
    requires AddsOnly(t, u, added) && added.lockCount == 0
    ensures SameLocks(t, u)
  {
  }

  /** Changing one entry's lock count together with its references keeps
      every lock count equal to the reference count. */
  lemma RecountOne(t: Tree, files: map<int, OpenedFileInfo>, files': map<int, OpenedFileInfo>, p: Path, e: Entry, delta: int)
    requires p in t && e.lockCount == t[p].lockCount + delta
    requires forall q :: q in t ==> t[q].lockCount == OpenCount(files, q)
    requires forall q :: OpenCount(files', q) == OpenCount(files, q) + (if q == p then delta else 0)
    ensures forall q :: q in t[p := e] ==> t[p := e][q].lockCount == OpenCount(files', q)
  {
  }

  /** No lock count is negative (so `locked()` never throws). */
  ghost predicate NonNegativeLocks(t: Tree)
  {
    forall p :: p in t ==> t[p].lockCount >= 0
  }

  /** Names as `splitPath` produces them are never empty. */
  ghost predicate NonEmptyNames(segs: seq<string>)
  {
    forall k :: 0 <= k < |segs| ==> segs[k] != ""
  }

  lemma SplitNamesNonEmpty(path: string, caseSens: bool)
    ensures NonEmptyNames(Split(path, caseSens))
  {
    SplitIsCanonical(path, caseSens);
  }

  /** A tree that keeps its lock counts keeps them equal to the reference
      counts of a descriptor table that only refers to old entries. */
  lemma LocksStayCounted(t: Tree, u: Tree, files: map<int, OpenedFileInfo>)
    requires forall d :: d in files ==> files[d].entry in t
    requires forall p :: p in t ==> t[p].lockCount == OpenCount(files, p)
    requires SameLocks(t, u)
    ensures forall p :: p in u ==> u[p].lockCount == OpenCount(files, p)
  {
    forall p | p in u
      ensures u[p].lockCount == OpenCount(files, p)
    {
      if p !in t {
        OpenCountZero(files, p);
      }
    }
  }

  function Min(a: int, b: int): int
  {
    if a < b then a else b
  }

  //--------------------------------------------------------------------------
  // findDirectoryEntry / findFileEntry (rcfs.h:337-380)

  /** The entry a split name denotes: the root for a name with no segments,
      whatever kind is asked for; otherwise the entry of the requested kind,
      looked up with the null check `DirectoryEntry::findDirectoryEntry`
      lacks. */
  function Locate(t: Tree, segs: seq<string>, findDirectory: bool): (r: Option<Path>)
    requires [] in t
    ensures segs == [] ==> r == Some([])
    ensures r.Some? ==> r.value == segs && r.value in t
  {
    if segs == [] then Some([])
    else FindDirectoryEntry(t, segs[..|segs| - 1], segs[|segs| - 1], findDirectory)
  }

  /** A non-empty name is found exactly when it denotes an entry of the
      requested kind. */
  lemma LocateExact(t: Tree, segs: seq<string>, findDirectory: bool)
    requires Valid(t) && NonEmptyNames(segs)
    ensures Locate(t, segs, findDirectory).Some? <==>
      segs == [] || (segs in t && (t[segs].kind == Directory <==> findDirectory))
  {
    if segs != [] {
      var n := |segs|;
      FindDirectoryEntryExact(t, segs[..n - 1], segs[n - 1], findDirectory);
      assert segs[..n - 1] + [segs[n - 1]] == segs;
    }
  }

  /** Two trees with the same entries of the same kinds. */
  ghost predicate SameShape(t: Tree, u: Tree)
  {
    (forall p :: p in t <==> p in u) && (forall p :: p in t ==> u[p].kind == t[p].kind)
  }

  /** Lookups depend only on which entries exist and their kinds, not on
      lock counts or data. */
  lemma LocateSameShape(t: Tree, u: Tree, segs: seq<string>, findDirectory: bool)
    requires Valid(t) && Valid(u) && SameShape(t, u) && NonEmptyNames(segs)
    ensures Locate(t, segs, findDirectory) == Locate(u, segs, findDirectory)
  {
    LocateExact(t, segs, findDirectory);
    LocateExact(u, segs, findDirectory);
  }

  //--------------------------------------------------------------------------
  // createDirectory (rcfs.h:269-287)

  /** `createDirectory` on split segments: no segments gives false; otherwise
      the last segment is created below the others, with `failOnExist`. */
  function CreateDirectoryIn(t: Tree, segs: seq<string>, forceCreate: bool): (r: Created)
    requires Valid(t)
    ensures AddsOnly(t, r.tree, NewDirectory()) && SameLocks(t, r.tree) && Valid(r.tree)
    ensures r.entry.Some? ==> r.entry.value == segs && segs !in t && segs in r.tree
    ensures segs == [] ==> r == Created(t, None)
  {
    if segs == [] then Created(t, None)
    else
      var n := |segs|;
      var r := CreateSubDirectoryChain(t, [], segs[..n - 1], segs[n - 1], forceCreate);
      assert [] + segs[..n - 1] + [segs[n - 1]] == segs;
      AddsUnlockedKeepsLocks(t, r.tree, NewDirectory());
      r
  }

  /** `createDirectory` succeeds exactly when the name is new and its parent
      chain is an existing directory (without force) or is not blocked by a
      file (with force); without force nothing but that one directory is
      added. */
  lemma CreateDirectoryOutcome(t: Tree, segs: seq<string>, forceCreate: bool)
    requires Valid(t) && NonEmptyNames(segs)
    ensures var r := CreateDirectoryIn(t, segs, forceCreate);
      (r.entry.Some? <==>
        segs != [] && segs !in t &&
        (if forceCreate then NoFileAlong(t, [], segs[..|segs| - 1])
         else FindSubDirectory(t, [], segs[..|segs| - 1]).Some?)) &&
      (!forceCreate ==> r.tree == if r.entry.Some? then t[segs := NewDirectory()] else t) &&
      (forceCreate && r.entry.Some? ==> AddsChain(t, r.tree, segs, 0)) &&
      (forceCreate && r.entry.None? ==> r.tree == t)
  {
    if segs != [] {
      var n := |segs|;
      assert [] + segs[..n - 1] + [segs[n - 1]] == segs;
      if forceCreate {
        CreateSubDirectoryForced(t, [], segs[..n - 1], segs[n - 1]);
        CreateSubDirectoryForcedTree(t, [], segs[..n - 1], segs[n - 1]);
      } else {
        CreateSubDirectoryNoForce(t, [], segs[..n - 1], segs[n - 1]);
      }
    }
  }

  //--------------------------------------------------------------------------
  // createFile (rcfs.h:289-332)

  /** A tree after an operation that answers with a bool or throws. */
  datatype TreeUpdate = TreeUpdate(tree: Tree, result: Outcome<bool>)

  /** The first step of `createFile`: with `createPath`, the parent chain is
      created by force (the result of that creation is ignored). */
  function PrepareParent(t: Tree, segs: seq<string>, createPath: bool): (u: Tree)
    requires Valid(t)
    ensures AddsOnly(t, u, NewDirectory()) && SameLocks(t, u) && Valid(u)
  {
    if createPath && |segs| >= 2 then
      var dirSegs := segs[..|segs| - 1];
      var u := CreateSubDirectoryChain(t, [], dirSegs[..|dirSegs| - 1], dirSegs[|dirSegs| - 1], true).tree;
      AddsUnlockedKeepsLocks(t, u, NewDirectory());
      u
    else t
  }

  /** With `createPath` and a parent below the root, the tree gains exactly
      the missing directories of the parent chain when no file blocks it,
      and is unchanged otherwise; without `createPath` it is unchanged. */
  lemma PrepareParentTree(t: Tree, segs: seq<string>, createPath: bool)
    requires Valid(t) && NonEmptyNames(segs)
    ensures var u := PrepareParent(t, segs, createPath);
      (!createPath || |segs| < 2 ==> u == t) &&
      (createPath && |segs| >= 2 ==>
        if NoFileAlong(t, [], segs[..|segs| - 1]) then AddsChain(t, u, segs[..|segs| - 1], 0)
        else u == t)
  {
    if createPath && |segs| >= 2 {
      var dirSegs := segs[..|segs| - 1];
      var m := |dirSegs|;
      var prefix, last := dirSegs[..m - 1], dirSegs[m - 1];
      var c := CreateSubDirectoryChain(t, [], prefix, last, true);
      assert PrepareParent(t, segs, true) == c.tree;
      assert forall k :: 0 <= k < |prefix| ==> prefix[k] == segs[k];
      assert last == segs[m - 1];
      assert [] + prefix + [last] == dirSegs;
      assert prefix + [last] == dirSegs;
      CreateSubDirectoryForced(t, [], prefix, last);
      CreateSubDirectoryForcedTree(t, [], prefix, last);
      NoFileAlongExtend(t, [], prefix, last);
      if NoFileAlong(t, [], dirSegs) {
        NoFileAlongPrefix(t, [], dirSegs);
        if dirSegs in t {
          AddsChainNothing(t, dirSegs, 0);
        }
      }
    }
  }

  /** With `createPath`, the parent of the file is a directory afterwards
      whenever no file blocks its chain. */
  lemma PrepareParentMakesDirectory(t: Tree, segs: seq<string>)
    requires Valid(t) && |segs| >= 2 && NonEmptyNames(segs)
    requires NoFileAlong(t, [], segs[..|segs| - 1])
    ensures FindSubDirectory(PrepareParent(t, segs, true), [], segs[..|segs| - 1]).Some?
  {
    var dirSegs := segs[..|segs| - 1];
    var m := |dirSegs|;
    var prefix, last := dirSegs[..m - 1], dirSegs[m - 1];
    var c := CreateSubDirectoryChain(t, [], prefix, last, true);
    assert PrepareParent(t, segs, true) == c.tree;
    assert forall k :: 0 <= k < |prefix| ==> prefix[k] == segs[k];
    assert last == segs[m - 1];
    NoFileAlongPrefix(t, [], dirSegs);
    assert [] + dirSegs == dirSegs;
    assert [] + prefix == prefix;
    assert prefix + [last] == dirSegs;
    CreateSubDirectoryForced(t, [], prefix, last);
    if dirSegs in t {
      assert c.tree[dirSegs] == t[dirSegs];
    } else {
      assert c.entry.Some?;
    }
    FindSubDirectoryExact(c.tree, [], dirSegs);
  }

  /** `createFile` on split segments.  The throw when the refused name
      cannot be found again is only reachable with an empty name. */
  function CreateFileIn(t: Tree, segs: seq<string>, createPath: bool, failOnExist: bool): (r: TreeUpdate)
    requires Valid(t)
    ensures SameLocks(t, r.tree) && Valid(r.tree)
    ensures segs == [] ==> r == TreeUpdate(t, Value(false))
    ensures NonNegativeLocks(t) && NonEmptyNames(segs) ==> r.result.Value?
  {
    if segs == [] then TreeUpdate(t, Value(false))
    else
      var dirSegs := segs[..|segs| - 1];
      var name := segs[|segs| - 1];
      var t1 := PrepareParent(t, segs, createPath);
      match FindSubDirectory(t1, [], dirSegs)
      case None => TreeUpdate(t1, Value(false))
      case Some(dir) =>
        var created := CreateFileChildEntry(t1, dir, name);
        if created.entry.Some? then TreeUpdate(created.tree, Value(true))
        else if failOnExist then TreeUpdate(t1, Value(false))
        else
          match FindAnyChildEntry(t1, dir, name)
          case None => TreeUpdate(t1, Thrown(CreateFileLostEntry))
          case Some(child) =>
            if t1[child].kind == Directory then TreeUpdate(t1, Value(false))
            else
              match ResetFileEntryData(t1[child])
              case Assigned(e) =>
                ReplaceKeepsValid(t1, child, e);
                TreeUpdate(t1[child := e], Value(true))
              case RefusedWhileLocked => TreeUpdate(t1, Value(false))
              case LockMismatch => TreeUpdate(t1, Thrown(LockUnlockMismatch))
  }

  /** The steps of `createFile` once the name is split: the optional parent
      creation, the parent lookup, the child creation and, when the child
      exists and may be reused, the reset of its data. */
  method CreateFileSteps(t: Tree, pathParts: seq<string>, createPath: bool, failOnExist: bool)
    returns (tree: Tree, r: bool)
    requires Valid(t) && NonNegativeLocks(t) && NonEmptyNames(pathParts)
    ensures CreateFileIn(t, pathParts, createPath, failOnExist) == TreeUpdate(tree, Value(r))
  {
    tree := t;
    ghost var u := CreateFileIn(t, pathParts, createPath, failOnExist);
    if pathParts == [] {
      return tree, false;
    }
    var n := |pathParts|;
    var dirParts := pathParts[..n - 1];
    var simpleFileName := pathParts[n - 1];
    if createPath && n >= 2 {
      var made := CreateSubDirectory(tree, [], dirParts[..n - 2], dirParts[n - 2], true);
      tree := made.tree;
    }
    assert tree == PrepareParent(t, pathParts, createPath);
    var pDirEntry := FindSubDirectory(tree, [], dirParts);
    if pDirEntry.None? {
      r := false;
    } else {
      var created := CreateFileChildEntry(tree, pDirEntry.value, simpleFileName);
      if created.entry.Some? {
        tree := created.tree;
        r := true;
      } else if failOnExist {
        r := false;
      } else {
        var child := pDirEntry.value + [simpleFileName];
        if tree[child].kind == Directory {
          r := false;
        } else {
          match ResetFileEntryData(tree[child])
          case Assigned(e) =>
            tree := tree[child := e];
            r := true;
          case RefusedWhileLocked =>
            r := false;
        }
      }
    }
    assert u == TreeUpdate(tree, Value(r));
  }

  /** `createFile` answers true exactly when, after the optional parent
      creation, the parent is a directory and the name is either new or an
      unlocked file that may be reset; the file is then present and empty.
      On false nothing beyond the parent creation changes. */
  lemma CreateFileOutcome(t: Tree, segs: seq<string>, createPath: bool, failOnExist: bool)
    requires Valid(t) && NonNegativeLocks(t) && segs != [] && NonEmptyNames(segs)
    ensures var t1 := PrepareParent(t, segs, createPath);
      var r := CreateFileIn(t, segs, createPath, failOnExist);
      (r.result == Value(true) <==>
        FindSubDirectory(t1, [], segs[..|segs| - 1]).Some? &&
        (segs !in t1 || (!failOnExist && t1[segs].kind == File && t1[segs].lockCount == 0))) &&
      (r.result == Value(true) ==>
        segs in r.tree && r.tree[segs] == NewFile() && r.tree == t1[segs := NewFile()]) &&
      (r.result == Value(false) ==> r.tree == t1)
  {
    var n := |segs|;
    assert [] + segs[..n - 1] + [segs[n - 1]] == segs;
    assert segs[..n - 1] + [segs[n - 1]] == segs;
  }

  //--------------------------------------------------------------------------
  // setFileData (rcfs.h:385-405)

  /** `setFileData` on split segments: the file entry (or the root, for a
      name with no segments) takes the buffer and key unless it is locked. */
  function SetFileDataIn(t: Tree, segs: seq<string>, raw: Option<Bytes>, key: KeyParams): (r: TreeUpdate)
    requires Valid(t)
    ensures SameLocks(t, r.tree) && Valid(r.tree)
    ensures NonNegativeLocks(t) ==> r.result.Value?
  {
    match Locate(t, segs, false)
    case None => TreeUpdate(t, Value(false))
    case Some(p) =>
      match AssignFileEntryData(t[p], raw, key)
      case Assigned(e) =>
        ReplaceKeepsValid(t, p, e);
        TreeUpdate(t[p := e], Value(true))
      case RefusedWhileLocked => TreeUpdate(t, Value(false))
      case LockMismatch => TreeUpdate(t, Thrown(LockUnlockMismatch))
  }

  /** `setFileData` succeeds exactly on an unlocked file, or on the root for
      a name with no segments; the entry then reads as the new raw bytes
      and nothing else changes. */
  lemma SetFileDataOutcome(t: Tree, segs: seq<string>, raw: Option<Bytes>, key: KeyParams)
    requires Valid(t) && NonNegativeLocks(t) && NonEmptyNames(segs)
    ensures var r := SetFileDataIn(t, segs, raw, key);
      (r.result == Value(true) <==>
        (segs == [] || (segs in t && t[segs].kind == File)) && t[segs].lockCount == 0) &&
      (r.result == Value(true) ==>
        r.tree == t[segs := r.tree[segs]] && r.tree[segs].key == key &&
        r.tree[segs].raw == raw && r.tree[segs].decoded == [] &&
        EffectiveData(r.tree[segs]) == (if raw.Some? && raw.value != [] then raw else None)) &&
      (r.result == Value(false) ==> r.tree == t)
  {
    LocateExact(t, segs, false);
  }

  //--------------------------------------------------------------------------
  // openFile's lock and lazy decode (rcfs.h:418-441)

  /** `openFile` calls the decoder when one is installed, the raw pointer is
      not null and the decoded cache is empty. */
  predicate NeedsDecode(e: Entry, decoder: Option<DecodeFn>)
    ensures NeedsDecode(e, decoder) ==>
      decoder.Some? && e.raw.Some? && EffectiveData(e) == (if e.raw.value == [] then None else e.raw)
  {
    decoder.Some? && e.raw.Some? && e.decoded == []
  }

  /** An entry after `openFile` locked it and maybe decoded it, and whether
      the decoder threw. */
  datatype OpenStep = OpenStep(entry: Entry, failed: bool)

  /** The entry work of `openFile`: lock, then decode on demand; the cache is
      replaced only when the decoder says it transformed the data. */
  function OpenEntry(e: Entry, decoder: Option<DecodeFn>): (r: OpenStep)
    ensures r.entry == Lock(e).(decoded := r.entry.decoded)
    ensures r.failed <==> NeedsDecode(e, decoder) && decoder.value(e.raw.value, e.key).DecodeFailed?
    ensures r.entry.decoded != e.decoded ==>
      NeedsDecode(e, decoder) && decoder.value(e.raw.value, e.key) == Decoded(r.entry.decoded)
  {
    var locked := Lock(e);
    if !NeedsDecode(e, decoder) then OpenStep(locked, false)
    else
      match decoder.value(e.raw.value, e.key)
      case NoTransform => OpenStep(locked, false)
      case DecodeFailed => OpenStep(locked, true)
      case Decoded(data) => OpenStep(locked.(decoded := data), false)
  }

  /** A second update of the same path overrides the first. */
  lemma UpdateTwice(t: Tree, p: Path, e: Entry, e': Entry)
    ensures t[p := e][p := e'] == t[p := e']
  {
  }

  /** Closing right after opening gives back the entry with only the decode
      cache changed. */
  lemma CloseUndoesLock(e: Entry, decoder: Option<DecodeFn>)
    ensures Unlock(OpenEntry(e, decoder).entry) == e.(decoded := OpenEntry(e, decoder).entry.decoded)
  {
  }

  /** Decoding happens at most once: after a decode into non-empty data the
      next open of the unchanged entry does not call the decoder and keeps
      the cache. */
  lemma DecodeAtMostOnce(e: Entry, decoder: Option<DecodeFn>)
    requires NeedsDecode(e, decoder)
    requires decoder.value(e.raw.value, e.key).Decoded? && decoder.value(e.raw.value, e.key).data != []
    ensures var first := OpenEntry(e, decoder).entry;
      !NeedsDecode(first, decoder) &&
      OpenEntry(first, decoder) == OpenStep(Lock(first), false) &&
      EffectiveData(first) == (if e.raw.value == [] then None else Some(decoder.value(e.raw.value, e.key).data))
  {
  }

  /** Without a decoder, or with `NoDecodeFileDecoder`, opening only locks. */
  lemma NoDecoderOnlyLocks(e: Entry, decoder: Option<DecodeFn>)
    requires decoder == None || decoder == Some(NoDecodeFileDecoder())
    ensures OpenEntry(e, decoder) == OpenStep(Lock(e), false)
    ensures EffectiveData(OpenEntry(e, decoder).entry) == EffectiveData(e)
  {
  }

  /** Opening a non-empty, not yet decoded file under the XOR decoder: key
      size 0 leaves the raw bytes, key size 1, 2 or 4 serves the cipher's
      output (of the raw size) from then on, any other key size throws. */
  lemma XorOpen(xor: XorFn, e: Entry)
    requires LengthPreserving(xor)
    requires e.raw.Some? && e.raw.value != [] && e.decoded == []
    ensures var s := OpenEntry(e, Some(XorDecryptFileDecoder(xor)));
      var k := e.key;
      (k.keySize == 0 ==> !s.failed && EffectiveData(s.entry) == e.raw) &&
      (ValidXorKeySize(k.keySize) ==>
        !s.failed && EffectiveData(s.entry) == Some(xor(e.raw.value, k.keySize, k.keySeed, k.keyInc)) &&
        FileDataSize(s.entry) == |e.raw.value| &&
        !NeedsDecode(s.entry, Some(XorDecryptFileDecoder(xor)))) &&
      (s.failed <==> k.keySize != 0 && !ValidXorKeySize(k.keySize))
  {
    var k := e.key;
    if ValidXorKeySize(k.keySize) {
      XorDecodedEmptyIff(xor, e.raw.value, k);
    }
  }

  /** A file whose raw pointer is set but whose size is 0 is decoded again on
      every open under the XOR decoder, and still has no data to read. */
  lemma XorEmptyRawDecodedEveryOpen(xor: XorFn, e: Entry)
    requires LengthPreserving(xor)
    requires e.raw == Some([]) && e.decoded == [] && ValidXorKeySize(e.key.keySize)
    ensures var s := OpenEntry(e, Some(XorDecryptFileDecoder(xor)));
      !s.failed && NeedsDecode(s.entry, Some(XorDecryptFileDecoder(xor))) &&
      FileDataSize(s.entry) == 0
  {
    XorDecodedEmptyIff(xor, [], e.key);
  }

  //--------------------------------------------------------------------------
  // Reading (rcfs.h:531-582)

  /** The bytes a read of `n` bytes at `readPos` yields: the requested end is
      computed with `std::size_t` wrap-around and clipped to the size, and
      an empty range is a failure. */
  function ReadSpan(data: Option<Bytes>, readPos: size_t, n: size_t): (r: Option<Bytes>)
    ensures r.Some? ==>
      data.Some? && 0 < |r.value| <= n && readPos + |r.value| <= |data.value| &&
      r.value == data.value[readPos..readPos + |r.value|]
    ensures readPos + n < SIZE_T_MODULUS ==>
      (r.Some? <==> data.Some? && n > 0 && readPos < |data.value|)
    ensures readPos + n < SIZE_T_MODULUS && r.Some? ==>
      r.value == data.value[readPos..Min(readPos + n, |data.value|)]
    ensures readPos + n >= SIZE_T_MODULUS ==> r.None?
  {
    if data.None? then None
    else
      var requestedReadEnd := (readPos + n) % SIZE_T_MODULUS;
      var readEnd := Min(requestedReadEnd, |data.value|);
      if readPos >= readEnd then None else Some(data.value[readPos..readEnd])
  }

  /** From position 0, where every read starts, a read yields the first
      `min(n, size)` bytes, and fails exactly on no data or `n == 0`. */
  lemma ReadFromStart(data: Option<Bytes>, n: size_t)
    ensures ReadSpan(data, 0, n).Some? <==> data.Some? && data.value != [] && n > 0
    ensures ReadSpan(data, 0, n).Some? ==> ReadSpan(data, 0, n).value == data.value[..Min(n, |data.value|)]
  {
  }

  //--------------------------------------------------------------------------

  class ResourceFileSystem {
    /** `m_caseSens`: set once at construction. */
    const caseSens: bool
    /** `m_pFileDecoder`; `None` for a null decoder. */
    const decoder: Option<DecodeFn>
    /** Everything reachable from `m_pRootDirectory`. */
    var tree: Tree
    /** `m_nextDescriptor`. */
    var nextDescriptor: int
    /** `m_openedFiles`. */
    var openedFiles: map<int, OpenedFileInfo>

    /** The tree is well formed, every open descriptor is below the counter
        and refers to an entry at position 0, and every entry's lock count
        is the number of descriptors open on it. */
    ghost predicate Valid()
      reads this
    {
      DirectoryTree.Valid(tree) && 1 <= nextDescriptor &&
      (forall d :: d in openedFiles ==>
        1 <= d < nextDescriptor && openedFiles[d].entry in tree && openedFiles[d].readPos == 0) &&
      (forall p :: p in tree ==> tree[p].lockCount == OpenCount(openedFiles, p))
    }

    lemma LocksNonNegative()
      requires Valid()
      ensures NonNegativeLocks(tree)
    {
    }

    /** The constructor, with a fresh empty root directory. */
    constructor (caseSens: bool, decoder: Option<DecodeFn>)
      ensures Valid()
      ensures this.caseSens == caseSens && this.decoder == decoder
      ensures tree == map[[] := NewDirectory()] && nextDescriptor == 1 && openedFiles == map[]
    {
      this.caseSens := caseSens;
      this.decoder := decoder;
      tree := map[[] := NewDirectory()];
      nextDescriptor := 1;
      openedFiles := map[];
      new;
      OpenCountZero(openedFiles, []);
    }

    /** `createDirectory`. */
    method CreateDirectory(pathName: string, forceCreateFullPath: bool) returns (r: bool)
      requires Valid()
      modifies this
      ensures Valid()
      ensures var c := CreateDirectoryIn(old(tree), Split(pathName, caseSens), forceCreateFullPath);
        tree == c.tree && (r <==> c.entry.Some?)
      ensures openedFiles == old(openedFiles) && nextDescriptor == old(nextDescriptor)
    {
      var pathParts := SplitPath(pathName, caseSens);
      if pathParts == [] {
        return false;
      }
      var n := |pathParts|;
      var c := CreateSubDirectory(tree, [], pathParts[..n - 1], pathParts[n - 1], forceCreateFullPath);
      assert c == CreateDirectoryIn(tree, pathParts, forceCreateFullPath);
      LocksStayCounted(tree, c.tree, openedFiles);
      tree := c.tree;
      r := c.entry.Some?;
    }

    /** `createFile`; never throws, since names are never empty and lock
        counts never negative. */
    method CreateFile(fullName: string, createPath: bool, failOnExist: bool) returns (r: bool)
      requires Valid()
      modifies this
      ensures Valid()
      ensures CreateFileIn(old(tree), Split(fullName, caseSens), createPath, failOnExist) ==
        TreeUpdate(tree, Value(r))
      ensures openedFiles == old(openedFiles) && nextDescriptor == old(nextDescriptor)
    {
      var pathParts := SplitPath(fullName, caseSens);
      SplitNamesNonEmpty(fullName, caseSens);
      LocksNonNegative();
      var t', ok := CreateFileSteps(tree, pathParts, createPath, failOnExist);
      LocksStayCounted(tree, t', openedFiles);
      tree, r := t', ok;
    }

    /** The protected `findDirectoryEntry(fullName, findDirectory)`. */
    method FindEntry(fullName: string, findDirectory: bool) returns (r: Option<Path>)
      requires Valid()
      ensures r == Locate(tree, Split(fullName, caseSens), findDirectory)
      ensures var segs := Split(fullName, caseSens);
        r.Some? <==> segs == [] || (segs in tree && (tree[segs].kind == Directory <==> findDirectory))
    {
      var pathParts := SplitPath(fullName, caseSens);
      SplitNamesNonEmpty(fullName, caseSens);
      LocateExact(tree, pathParts, findDirectory);
      if pathParts == [] {
        return Some([]);
      }
      var n := |pathParts|;
      r := DirectoryTree.FindDirectoryEntry(tree, pathParts[..n - 1], pathParts[n - 1], findDirectory);
    }

    /** `findDirectoryEntry(fullName)`. */
    method FindDirectoryEntry(fullName: string) returns (r: Option<Path>)
      requires Valid()
      ensures r == Locate(tree, Split(fullName, caseSens), true)
      ensures r.Some? ==> r.value in tree && (r.value == [] || tree[r.value].kind == Directory)
    {
      r := FindEntry(fullName, true);
    }

    /** `findFileEntry(fullName)`: a file, or the root for a name with no
        segments. */
    method FindFileEntry(fullName: string) returns (r: Option<Path>)
      requires Valid()
      ensures r == Locate(tree, Split(fullName, caseSens), false)
      ensures r.Some? ==> r.value in tree && (r.value == [] || tree[r.value].kind == File)
    {
      r := FindEntry(fullName, false);
    }

    /** `setFileData`; the buffer is `raw` (`None` for a null pointer). */
    method SetFileData(fullName: string, raw: Option<Bytes>, key: KeyParams) returns (r: bool)
      requires Valid()
      modifies this
      ensures Valid()
      ensures SetFileDataIn(old(tree), Split(fullName, caseSens), raw, key) == TreeUpdate(tree, Value(r))
      ensures openedFiles == old(openedFiles) && nextDescriptor == old(nextDescriptor)
    {
      var t := tree;
      LocksNonNegative();
      var pFileEntry := FindFileEntry(fullName);
      if pFileEntry.None? {
        return false;
      }
      var p := pFileEntry.value;
      match AssignFileEntryData(tree[p], raw, key)
      case Assigned(e) =>
        ReplaceKeepsValid(tree, p, e);
        tree := tree[p := e];
        r := true;
      case RefusedWhileLocked =>
        r := false;
      LocksStayCounted(t, tree, openedFiles);
    }

    /** `generateFileDescriptor`: the current counter value, never in use. */
    method GenerateFileDescriptor() returns (d: int)
      requires Valid()
      modifies this
      ensures Valid()
      ensures d == old(nextDescriptor) && nextDescriptor == d + 1
      ensures d >= 1 && d !in openedFiles
      ensures tree == old(tree) && openedFiles == old(openedFiles)
    {
      d := nextDescriptor;
      nextDescriptor := nextDescriptor + 1;
    }

    /** `openFile`: -1 when no file has that name; otherwise a fresh
        descriptor at position 0, the entry locked and decoded on demand.
        A decoder exception escapes with the descriptor still registered and
        the lock still taken. */
    method OpenFile(fullName: string) returns (r: Outcome<int>)
      requires Valid()
      modifies this
      ensures Valid()
      ensures var found := Locate(old(tree), Split(fullName, caseSens), false);
        if found.None? then
          r == Value(-1) && tree == old(tree) && openedFiles == old(openedFiles) &&
          nextDescriptor == old(nextDescriptor)
        else
          var step := OpenEntry(old(tree)[found.value], decoder);
          nextDescriptor == old(nextDescriptor) + 1 &&
          openedFiles == old(openedFiles)[old(nextDescriptor) := OpenedFileInfo(found.value, 0)] &&
          tree == old(tree)[found.value := step.entry] &&
          r == if step.failed then Thrown(DecodeFailure) else Value(old(nextDescriptor))
      ensures r.Value? && r.value != -1 ==> r.value >= 1 && r.value !in old(openedFiles)
    {
      var pFileEntry := FindFileEntry(fullName);
      if pFileEntry.None? {
        return Value(-1);
      }
      var p := pFileEntry.value;
      var fileId := GenerateFileDescriptor();
      var info := OpenedFileInfo(p, 0);
      OpenCountAdd(openedFiles, fileId, info);
      var e := Lock(tree[p]);
      r := Value(fileId);
      if NeedsDecode(e, decoder) {
        match decoder.value(e.raw.value, e.key)
        case NoTransform =>
        case DecodeFailed =>
          r := Thrown(DecodeFailure);
        case Decoded(data) =>
          e := e.(decoded := data);
      }
      assert OpenEntry(tree[p], decoder) == OpenStep(e, r.Thrown?);
      RecountOne(tree, openedFiles, openedFiles[fileId := info], p, e, 1);
      ReplaceKeepsValid(tree, p, e);
      openedFiles := openedFiles[fileId := info];
      tree := tree[p := e];
    }

    /** `closeFile`: false for an unknown descriptor; otherwise the entry is
        unlocked once and exactly that descriptor is removed. */
    method CloseFile(iFile: int) returns (r: bool)
      requires Valid()
      modifies this
      ensures Valid()
      ensures r <==> iFile in old(openedFiles)
      ensures !r ==> tree == old(tree) && openedFiles == old(openedFiles)
      ensures r ==>
        var p := old(openedFiles)[iFile].entry;
        openedFiles == old(openedFiles) - {iFile} && tree == old(tree)[p := Unlock(old(tree)[p])]
      ensures nextDescriptor == old(nextDescriptor)
    {
      if iFile !in openedFiles {
        return false;
      }
      var p := openedFiles[iFile].entry;
      OpenCountRemove(openedFiles, iFile);
      RecountOne(tree, openedFiles, openedFiles - {iFile}, p, Unlock(tree[p]), -1);
      ReplaceKeepsValid(tree, p, Unlock(tree[p]));
      tree := tree[p := Unlock(tree[p])];
      openedFiles := openedFiles - {iFile};
      r := true;
    }

    /** `getFileSize(int)`: `(size_t)-1` for an unknown descriptor, else the
        size of the data a read would see. */
    method GetFileSize(iFile: int) returns (r: size_t)
      requires Valid()
      ensures iFile !in openedFiles ==> r == SIZE_T_MAX
      ensures iFile in openedFiles ==> r == FileDataSize(tree[openedFiles[iFile].entry])
    {
      if iFile !in openedFiles {
        return SIZE_T_MAX;
      }
      r := FileDataSize(tree[openedFiles[iFile].entry]);
    }

    /** `getFileSize(const std::string&)`: opens, asks, closes.  The decode
        cache the open fills stays; the descriptor number is used up. */
    method GetFileSizeByName(fullName: string) returns (r: Outcome<size_t>)
      requires Valid()
      modifies this
      ensures Valid()
      ensures var found := Locate(old(tree), Split(fullName, caseSens), false);
        if found.None? then
          r == Value(SIZE_T_MAX) && tree == old(tree) && openedFiles == old(openedFiles) &&
          nextDescriptor == old(nextDescriptor)
        else
          var step := OpenEntry(old(tree)[found.value], decoder);
          nextDescriptor == old(nextDescriptor) + 1 &&
          if step.failed then
            r == Thrown(DecodeFailure) && tree == old(tree)[found.value := step.entry] &&
            openedFiles == old(openedFiles)[old(nextDescriptor) := OpenedFileInfo(found.value, 0)]
          else
            r == Value(FileDataSize(step.entry)) && openedFiles == old(openedFiles) &&
            tree == old(tree)[found.value := old(tree)[found.value].(decoded := step.entry.decoded)]
    {
      ghost var t0, files0, next0 := tree, openedFiles, nextDescriptor;
      var iFile := OpenFile(fullName);
      if iFile.Thrown? {
        return Thrown(iFile.error);
      }
      if iFile.value < 0 {
        return Value(SIZE_T_MAX);
      }
      ghost var p := Locate(t0, Split(fullName, caseSens), false).value;
      ghost var step := OpenEntry(t0[p], decoder);
      ghost var t1 := tree;
      assert iFile.value == next0 && openedFiles[next0].entry == p && t1 == t0[p := step.entry];
      var fileSize := GetFileSize(iFile.value);
      var _ := CloseFile(iFile.value);
      AddThenRemove(files0, next0, OpenedFileInfo(p, 0));
      CloseUndoesLock(t0[p], decoder);
      assert tree == t1[p := Unlock(step.entry)];
      UpdateTwice(t0, p, step.entry, Unlock(step.entry));
      assert tree == t0[p := t0[p].(decoded := step.entry.decoded)];
      r := Value(fileSize);
    }

    /** The protected `getOpenedFileReadParams`: the data pointer, its size
        and the read position of a descriptor; no data (and zeros) for an
        unknown one. */
    method GetOpenedFileReadParams(iFile: int) returns (data: Option<Bytes>, fileSize: size_t, curPos: size_t)
      requires Valid()
      ensures iFile !in openedFiles ==> data.None? && fileSize == 0 && curPos == 0
      ensures iFile in openedFiles ==>
        data == EffectiveData(tree[openedFiles[iFile].entry]) &&
        fileSize == FileDataSize(tree[openedFiles[iFile].entry]) &&
        curPos == openedFiles[iFile].readPos
      ensures data.Some? ==> fileSize == |data.value| && curPos == 0
    {
      if iFile !in openedFiles {
        return None, 0, 0;
      }
      var info := openedFiles[iFile];
      curPos := info.readPos;
      fileSize := FileDataSize(tree[info.entry]);
      data := EffectiveData(tree[info.entry]);
    }

    /** `readFile` into a container (`readFileToContainerImpl`): the
        container is replaced by the bytes read, or left as it was. */
    method ReadFile(iFile: int, buf: seq<byte>, nBytesToRead: size_t) returns (r: bool, out: seq<byte>)
      requires Valid()
      ensures iFile !in openedFiles ==> !r && out == buf
      ensures iFile in openedFiles ==>
        var span := ReadSpan(EffectiveData(tree[openedFiles[iFile].entry]), openedFiles[iFile].readPos, nBytesToRead);
        (r <==> span.Some?) && out == (if r then span.value else buf)
      ensures iFile in openedFiles ==>
        var data := EffectiveData(tree[openedFiles[iFile].entry]);
        (r <==> data.Some? && nBytesToRead > 0) &&
        (r ==> out == data.value[..Min(nBytesToRead, |data.value|)])
    {
      var pFileData, fileSize, readPos := GetOpenedFileReadParams(iFile);
      if iFile in openedFiles {
        ReadFromStart(EffectiveData(tree[openedFiles[iFile].entry]), nBytesToRead);
      }
      if pFileData.None? {
        return false, buf;
      }
      var requestedReadEnd := (readPos + nBytesToRead) % SIZE_T_MODULUS;
      var readEnd := Min(requestedReadEnd, fileSize);
      if readPos >= readEnd {
        return false, buf;
      }
      r, out := true, pFileData.value[readPos..readEnd];
    }

    /** `readFile` into caller memory: the bytes read are copied to the front
        of `pBuf` (which must hold them) and counted. */
    method ReadFileInto(iFile: int, pBuf: array<byte>, nBytesToRead: size_t) returns (r: bool, bytesRead: size_t)
      requires Valid()
      requires iFile in openedFiles ==>
        Min(nBytesToRead, FileDataSize(tree[openedFiles[iFile].entry])) <= pBuf.Length
      modifies pBuf
      ensures iFile in openedFiles ==>
        var span := ReadSpan(EffectiveData(tree[openedFiles[iFile].entry]), openedFiles[iFile].readPos, nBytesToRead);
        (r <==> span.Some?) && (r ==> bytesRead == |span.value| && pBuf[..bytesRead] == span.value)
      ensures iFile !in openedFiles ==> !r
      ensures !r ==> pBuf[..] == old(pBuf[..])
      ensures r ==> bytesRead <= pBuf.Length && pBuf[bytesRead..] == old(pBuf[bytesRead..])
    {
      var pFileData, fileSize, readPos := GetOpenedFileReadParams(iFile);
      if pFileData.None? {
        return false, 0;
      }
      var requestedReadEnd := (readPos + nBytesToRead) % SIZE_T_MODULUS;
      var readEnd := Min(requestedReadEnd, fileSize);
      if readPos >= readEnd {
        return false, 0;
      }
      var actualBytesToRead := readEnd - readPos;
      var src := pFileData.value;
      forall i | 0 <= i < actualBytesToRead {
        pBuf[i] := src[readPos + i];
      }
      r, bytesRead := true, actualBytesToRead;
    }

    /** `readFile` of the whole file: asks `getFileSize` for the count, so it
        yields exactly the data an open descriptor sees. */
    method ReadWholeFile(iFile: int, buf: seq<byte>) returns (r: bool, out: seq<byte>)
      requires Valid()
      ensures r <==> iFile in openedFiles && EffectiveData(tree[openedFiles[iFile].entry]).Some?
      ensures r ==> out == EffectiveData(tree[openedFiles[iFile].entry]).value
      ensures !r ==> out == buf
    {
      var fileSize := GetFileSize(iFile);
      r, out := ReadFile(iFile, buf, fileSize);
    }
  }
}
