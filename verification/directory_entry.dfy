/**
  The node operations of `DirectoryEntry` (directory_entry.h).

  The source builds a tree of `DirectoryEntry` objects, each directory owning
  a map from child name to child entry.  Entries are only ever added: the
  filesystem never deletes or renames anything, so an entry is identified by
  the chain of names leading to it from the root.  The model keeps the whole
  tree as one map from that chain (`Path`) to the entry's own fields, and a
  pointer to an entry becomes its `Path`.  Operations that add children
  return the new tree together with the path of the entry the source returns
  a pointer to (`None` for a null pointer).
*/
module DirectoryTree {
  import opened Common

  /** The names leading from the root to an entry; `[]` is the root. */
  type Path = seq<string>

  /** `FileAttrs::Directory` set or not; fixed when the entry is created. */
  datatype Kind = Directory | File

  /** The fields of one `DirectoryEntry` except its children.
      `raw` is the borrowed buffer `m_pConstFileData` with its `m_fileSize`
      bytes (`None` for a null pointer), `key` the three decode parameters,
      `decoded` the owned cache `m_fileDataDecrypted`. */
  datatype Entry = Entry(kind: Kind, raw: Option<Bytes>, key: KeyParams, decoded: Bytes, lockCount: int)

  /** `DirectoryEntry()`: an empty directory. */
  function NewDirectory(): (r: Entry)
    ensures r.kind == Directory && r.lockCount == 0 && r.key == NoKey && EffectiveData(r).None?
  {
    Entry(Directory, None, NoKey, [], 0)
  }

  /** `DirectoryEntry(0, 0)`: a file with no data. */
  function NewFile(): (r: Entry)
    ensures r.kind == File && r.lockCount == 0 && r.key == NoKey && EffectiveData(r).None?
    ensures FileDataSize(r) == 0
  {
    Entry(File, None, NoKey, [], 0)
  }

  /** The whole tree below one root. */
  type Tree = map<Path, Entry>

  function Parent(p: Path): Path
    requires p != []
  {
    p[..|p| - 1]
  }

  /** The shape every tree the source builds has: the root is a directory,
      and every other entry sits under a directory by a non-empty name. */
  ghost predicate Valid(t: Tree)
  {
    [] in t && t[[]].kind == Directory &&
    forall p {:trigger Parent(p)} :: p in t && p != [] ==>
      Parent(p) in t && t[Parent(p)].kind == Directory && p[|p| - 1] != ""
  }

  /** Adding entries keeps every entry that was there, unchanged. */
  ghost predicate Extends(t: Tree, u: Tree)
  {
    forall p :: p in t ==> p in u && u[p] == t[p]
  }

  /** `u` extends `t`, and every entry `u` adds is `added`. */
  ghost predicate AddsOnly(t: Tree, u: Tree, added: Entry)
  {
    Extends(t, u) && forall p :: p in u && p !in t ==> u[p] == added
  }

  /** Every proper prefix of an entry's path is a directory of the tree,
      and every name along the path is non-empty. */
  lemma {:induction false} AncestorsAreDirectories(t: Tree, p: Path, k: nat)
    requires Valid(t) && p in t && k < |p|
    ensures p[..k] in t && t[p[..k]].kind == Directory && p[k] != ""
    decreases |p| - k
  {
    var q := p[..k + 1];
    if k + 1 == |p| {
      assert q == p;
    } else {
      AncestorsAreDirectories(t, p, k + 1);
    }
    assert Parent(q) == p[..k];
    assert q[|q| - 1] == p[k];
  }

  /** An entry's path prefixes are entries: nothing lies below a path that
      is not in the tree. */
  lemma PrefixPresent(t: Tree, p: Path, s: seq<string>)
    requires Valid(t)
    ensures p + s in t ==> p in t
  {
    if p + s in t {
      if s == [] {
        assert p + s == p;
      } else {
        AncestorsAreDirectories(t, p + s, |p|);
        assert (p + s)[..|p|] == p;
      }
    }
  }

  /** Replacing an entry's fields by ones of the same kind keeps the tree
      well formed. */
  lemma ReplaceKeepsValid(t: Tree, p: Path, e: Entry)
    requires Valid(t) && p in t && e.kind == t[p].kind
    ensures Valid(t[p := e])
  {
    var u := t[p := e];
    forall q | q in u && q != []
      ensures Parent(q) in u && u[Parent(q)].kind == Directory && q[|q| - 1] != ""
    {
      assert q in t;
    }
  }

  //--------------------------------------------------------------------------
  // Locking (directory_entry.h:104-106)

  /** `lock`: one more open descriptor. */
  function Lock(e: Entry): (r: Entry)
    ensures r.lockCount == e.lockCount + 1
    ensures r.(lockCount := e.lockCount) == e
  {
    e.(lockCount := e.lockCount + 1)
  }

  /** `unlock`: one descriptor fewer. */
  function Unlock(e: Entry): (r: Entry)
    ensures r.lockCount == e.lockCount - 1
    ensures r.(lockCount := e.lockCount) == e
  {
    e.(lockCount := e.lockCount - 1)
  }

  /** `locked`: throws on a negative count, else says whether any
      descriptor holds the entry. */
  function Locked(e: Entry): (r: Outcome<bool>)
    ensures r.Thrown? <==> e.lockCount < 0
    ensures r.Thrown? ==> r.error == LockUnlockMismatch
    ensures r.Value? ==> (r.value <==> e.lockCount > 0)
  {
    if e.lockCount < 0 then Thrown(LockUnlockMismatch) else Value(e.lockCount > 0)
  }

  /** Unlocking undoes locking, and an entry locked from an unlocked state
      reports itself locked. */
  lemma UnlockLock(e: Entry)
    ensures Unlock(Lock(e)) == e && Lock(Unlock(e)) == e
    ensures e.lockCount == 0 ==> Locked(e) == Value(false) && Locked(Lock(e)) == Value(true)
  {
  }

  //--------------------------------------------------------------------------
  // File data (directory_entry.h:275-301, 395-436)

  /** `getFileDataPtr`: no buffer when the raw pointer is null or the size is
      zero, else the decoded cache when it is not empty, else the raw bytes. */
  function EffectiveData(e: Entry): (r: Option<Bytes>)
    ensures r.Some? <==> e.raw.Some? && e.raw.value != []
    ensures r.Some? ==> r.value != []
    ensures r.Some? && e.decoded != [] ==> r.value == e.decoded
    ensures r.Some? && e.decoded == [] ==> r.value == e.raw.value
  {
    if e.raw.None? || e.raw.value == [] then None
    else if e.decoded != [] then Some(e.decoded)
    else e.raw
  }

  /** `getFileDataSize`: the size of the buffer `getFileDataPtr` chooses,
      zero exactly when that pointer is null. */
  function FileDataSize(e: Entry): (r: size_t)
    ensures r == 0 <==> EffectiveData(e).None?
    ensures EffectiveData(e).Some? ==> r == |EffectiveData(e).value|
  {
    if e.raw.None? || |e.raw.value| == 0 then 0
    else if |e.decoded| != 0 then |e.decoded|
    else |e.raw.value|
  }

  /** The result of `assignFileEntryData` / `resetFileEntryData`. */
  datatype DataUpdate =
    | Assigned(entry: Entry)   // returned true
    | RefusedWhileLocked       // returned false: the file is open
    | LockMismatch             // `locked()` threw

  /** `assignFileEntryData`: refused while the entry is locked; otherwise the
      entry takes the new buffer and key and forgets its decoded cache. */
  function AssignFileEntryData(e: Entry, raw: Option<Bytes>, key: KeyParams): (r: DataUpdate)
    ensures r.Assigned? <==> e.lockCount == 0
    ensures r.RefusedWhileLocked? <==> e.lockCount > 0
    ensures r.Assigned? ==>
      r.entry.kind == e.kind && r.entry.lockCount == 0 &&
      r.entry.raw == raw && r.entry.key == key && r.entry.decoded == []
  {
    match Locked(e)
    case Thrown(_) => LockMismatch
    case Value(locked) =>
      if locked then RefusedWhileLocked else Assigned(e.(raw := raw, key := key, decoded := []))
  }

  /** `resetFileEntryData`: the same as assigning a null buffer of size 0
      with all key parameters zero. */
  function ResetFileEntryData(e: Entry): (r: DataUpdate)
    ensures r.Assigned? <==> e.lockCount == 0
    ensures r.RefusedWhileLocked? <==> e.lockCount > 0
    ensures r.Assigned? ==>
      r.entry.kind == e.kind && r.entry.lockCount == 0 &&
      r.entry.raw.None? && r.entry.key == NoKey && r.entry.decoded == []
  {
    AssignFileEntryData(e, None, NoKey)
  }

  /** After an assignment the entry reads as the new raw bytes: an earlier
      decoded cache never survives it.  After a reset it has no data. */
  lemma AssignedDataIsRaw(e: Entry, raw: Option<Bytes>, key: KeyParams)
    requires e.lockCount == 0
    ensures AssignFileEntryData(e, raw, key).Assigned?
    ensures EffectiveData(AssignFileEntryData(e, raw, key).entry) ==
      (if raw.Some? && raw.value != [] then raw else None)
    ensures FileDataSize(ResetFileEntryData(e).entry) == 0
  {
  }

  //--------------------------------------------------------------------------
  // Child lookup (directory_entry.h:315-342)

  /** `findAnyChildEntry`: the child of that name, never for the empty name. */
  function FindAnyChildEntry(t: Tree, dir: Path, name: string): (r: Option<Path>)
    ensures r.Some? <==> name != "" && dir + [name] in t
    ensures r.Some? ==> r.value == dir + [name]
  {
    if name == "" || dir + [name] !in t then None else Some(dir + [name])
  }

  /** `findExactChildEntry`: the child of that name, only when its being a
      directory equals `findDirectory`. */
  function FindExactChildEntry(t: Tree, dir: Path, name: string, findDirectory: bool): (r: Option<Path>)
    ensures r.Some? <==>
      name != "" && dir + [name] in t && (t[dir + [name]].kind == Directory <==> findDirectory)
    ensures r.Some? ==> r.value == dir + [name]
  {
    match FindAnyChildEntry(t, dir, name)
    case None => None
    case Some(child) =>
      if (t[child].kind == Directory) == findDirectory then Some(child) else None
  }

  //--------------------------------------------------------------------------
  // findSubDirectory (directory_entry.h:140-154)

  /** `findSubDirectory`: walks down `segs` through directories only; on an
      empty chain it yields the starting entry exactly when it is a directory. */
  function FindSubDirectory(t: Tree, dir: Path, segs: seq<string>): (r: Option<Path>)
    requires dir in t
    ensures r.Some? ==> r.value == dir + segs && r.value in t && t[r.value].kind == Directory
    decreases |segs|
  {
    if segs == [] then
      if t[dir].kind == Directory then Some(dir) else None
    else
      match FindExactChildEntry(t, dir, segs[0], true)
      case None => None
      case Some(sub) =>
        var r := FindSubDirectory(t, sub, segs[1..]);
        assert r.Some? ==> sub + segs[1..] == dir + segs;
        r
  }

  /** In a well-formed tree the walk succeeds exactly when the chain names a
      directory. */
  lemma {:induction false} FindSubDirectoryExact(t: Tree, dir: Path, segs: seq<string>)
    requires Valid(t) && dir in t
    ensures FindSubDirectory(t, dir, segs).Some? <==>
      dir + segs in t && t[dir + segs].kind == Directory
    decreases |segs|
  {
    if segs == [] {
      assert dir + segs == dir;
    } else {
      var child := dir + [segs[0]];
      assert dir + segs == child + segs[1..];
      if dir + segs in t && t[dir + segs].kind == Directory {
        AncestorsAreDirectories(t, dir + segs, |dir|);
        if |segs| > 1 {
          AncestorsAreDirectories(t, dir + segs, |dir| + 1);
          assert (dir + segs)[..|dir| + 1] == child;
        } else {
          assert child == dir + segs;
        }
      }
      if segs[0] != "" && child in t && t[child].kind == Directory {
        FindSubDirectoryExact(t, child, segs[1..]);
      }
    }
  }

  //--------------------------------------------------------------------------
  // findDirectoryEntry (directory_entry.h:226-234)

  /** What a lookup through a pointer that may be null can end in. */
  datatype Lookup = Found(path: Path) | NotFound | NullDereference

  /** `findDirectoryEntry` as written: the result of `findSubDirectory` is
      used without a null check, so a missing or non-directory chain makes
      the call go through a null pointer. */
  function FindDirectoryEntryAsWritten(t: Tree, segs: seq<string>, name: string, findDirectory: bool): (r: Lookup)
    requires [] in t
    ensures r.NullDereference? <==> FindSubDirectory(t, [], segs).None?
    ensures !r.NullDereference? ==>
      (r.Found? <==> FindDirectoryEntry(t, segs, name, findDirectory).Some?)
    ensures r.Found? ==> r.path == FindDirectoryEntry(t, segs, name, findDirectory).value
  {
    match FindSubDirectory(t, [], segs)
    case None => NullDereference
    case Some(dir) =>
      match FindExactChildEntry(t, dir, name, findDirectory)
      case None => NotFound
      case Some(p) => Found(p)
  }

  /** In any well-formed tree a lookup whose first directory is missing
      dereferences null, whatever name is looked up below it. */
  lemma MissingDirectoryDereferencesNull(t: Tree, a: string, name: string, findDirectory: bool)
    requires Valid(t) && [a] !in t
    ensures FindDirectoryEntryAsWritten(t, [a], name, findDirectory) == NullDereference
    ensures FindDirectoryEntry(t, [a], name, findDirectory).None?
  {
    assert [] + [a] == [a];
  }

  /** The same lookup with the null check the caller evidently relies on:
      a missing chain means "not found". */
  function FindDirectoryEntry(t: Tree, segs: seq<string>, name: string, findDirectory: bool): (r: Option<Path>)
    requires [] in t
    ensures r.Some? ==>
      r.value == segs + [name] && r.value in t && (t[r.value].kind == Directory <==> findDirectory)
  {
    match FindSubDirectory(t, [], segs)
    case None => None
    case Some(dir) =>
      assert dir == segs;
      FindExactChildEntry(t, dir, name, findDirectory)
  }

  /** In a well-formed tree the corrected lookup finds exactly the entries
      of the requested kind. */
  lemma FindDirectoryEntryExact(t: Tree, segs: seq<string>, name: string, findDirectory: bool)
    requires Valid(t)
    ensures FindDirectoryEntry(t, segs, name, findDirectory).Some? <==>
      name != "" && segs + [name] in t && (t[segs + [name]].kind == Directory <==> findDirectory)
  {
    FindSubDirectoryExact(t, [], segs);
    assert [] + segs == segs;
    if name != "" && segs + [name] in t {
      AncestorsAreDirectories(t, segs + [name], |segs|);
      assert (segs + [name])[..|segs|] == segs;
    }
  }

  //--------------------------------------------------------------------------
  // Creating children (directory_entry.h:347-391)

  /** A tree after an operation that may add entries, and the entry the
      source returns a pointer to. */
  datatype Created = Created(tree: Tree, entry: Option<Path>)

  /** `createDirectoryChildEntry`: the empty name gives null; an absent name
      gets a new empty directory; an existing file gives null; an existing
      directory is returned only when `failOnExist` is false. */
  function CreateDirectoryChildEntry(t: Tree, dir: Path, name: string, failOnExist: bool): (r: Created)
    requires dir in t
    ensures r.entry.Some? <==>
      name != "" && (dir + [name] !in t || (t[dir + [name]].kind == Directory && !failOnExist))
    ensures r.entry.Some? ==>
      r.entry.value == dir + [name] && r.entry.value in r.tree && r.tree[r.entry.value].kind == Directory
    ensures r.tree == if name != "" && dir + [name] !in t then t[dir + [name] := NewDirectory()] else t
    ensures AddsOnly(t, r.tree, NewDirectory())
    ensures Valid(t) && t[dir].kind == Directory ==> Valid(r.tree)
  {
    if name == "" then Created(t, None)
    else match FindAnyChildEntry(t, dir, name)
      case None =>
        AddChildKeepsValid(t, dir, name, NewDirectory());
        Created(t[dir + [name] := NewDirectory()], Some(dir + [name]))
      case Some(child) =>
        if t[child].kind != Directory then Created(t, None)
        else if failOnExist then Created(t, None)
        else Created(t, Some(child))
  }

  /** `createFileChildEntry`: a new file with no data, only when no child of
      that name exists; otherwise null and the tree is unchanged. */
  function CreateFileChildEntry(t: Tree, dir: Path, name: string): (r: Created)
    requires dir in t
    ensures r.entry.Some? <==> name != "" && dir + [name] !in t
    ensures r.entry.Some? ==> r.entry.value == dir + [name]
    ensures r.tree == if r.entry.Some? then t[dir + [name] := NewFile()] else t
    ensures AddsOnly(t, r.tree, NewFile())
    ensures Valid(t) && t[dir].kind == Directory ==> Valid(r.tree)
  {
    match FindAnyChildEntry(t, dir, name)
    case None =>
      if name == "" then Created(t, None)
      else
        AddChildKeepsValid(t, dir, name, NewFile());
        Created(t[dir + [name] := NewFile()], Some(dir + [name]))
    case Some(_) => Created(t, None)
  }

  /** Adding a new named child below a directory keeps the tree well formed. */
  lemma AddChildKeepsValid(t: Tree, dir: Path, name: string, e: Entry)
    ensures Valid(t) && dir in t && t[dir].kind == Directory && name != "" && dir + [name] !in t ==>
      Valid(t[dir + [name] := e])
  {
    if Valid(t) && dir in t && t[dir].kind == Directory && name != "" && dir + [name] !in t {
      var u := t[dir + [name] := e];
      forall q | q in u && q != []
        ensures Parent(q) in u && u[Parent(q)].kind == Directory && q[|q| - 1] != ""
      {
        if q == dir + [name] {
          assert Parent(q) == dir;
        } else {
          assert q in t;
        }
      }
    }
  }

  //--------------------------------------------------------------------------
  // createSubDirectory (directory_entry.h:157-189)

  /** What `createSubDirectory` computes, one segment at a time: missing
      intermediates are created only when `forceCreate` is set, a file on the
      way stops it, and the final name must not exist yet. */
  function CreateSubDirectoryChain(t: Tree, dir: Path, segs: seq<string>, name: string, forceCreate: bool): (r: Created)
    requires dir in t
    ensures AddsOnly(t, r.tree, NewDirectory())
    ensures r.entry.Some? ==>
      r.entry.value == dir + segs + [name] && r.entry.value !in t &&
      r.entry.value in r.tree && r.tree[r.entry.value] == NewDirectory()
    ensures !forceCreate && r.entry.None? ==> r.tree == t
    ensures Valid(t) && t[dir].kind == Directory ==> Valid(r.tree)
    decreases |segs|
  {
    if segs == [] then
      var r := CreateDirectoryChildEntry(t, dir, name, true);
      assert dir + segs + [name] == dir + [name];
      r
    else
      match FindAnyChildEntry(t, dir, segs[0])
      case None =>
        if !forceCreate then Created(t, None)
        else
          var c := CreateDirectoryChildEntry(t, dir, segs[0], true);
          if c.entry.None? then c
          else
            var r := CreateSubDirectoryChain(c.tree, c.entry.value, segs[1..], name, forceCreate);
            assert dir + segs + [name] == c.entry.value + segs[1..] + [name];
            assert r.entry.Some? ==> r.entry.value != c.entry.value;
            r
      case Some(child) =>
        if t[child].kind != Directory then Created(t, None)
        else
          var r := CreateSubDirectoryChain(t, child, segs[1..], name, forceCreate);
          assert dir + segs + [name] == child + segs[1..] + [name];
          r
  }

  /** The loop of `createSubDirectory`, walking `pDirEntry` down the chain. */
  method CreateSubDirectory(t: Tree, dir: Path, segs: seq<string>, name: string, forceCreate: bool)
    returns (r: Created)
    requires dir in t
    ensures r == CreateSubDirectoryChain(t, dir, segs, name, forceCreate)
  {
    var cur := t;
    var pDirEntry := dir;
    var i := 0;
    while i < |segs|
      invariant 0 <= i <= |segs|
      invariant pDirEntry in cur
      invariant CreateSubDirectoryChain(cur, pDirEntry, segs[i..], name, forceCreate) ==
                CreateSubDirectoryChain(t, dir, segs, name, forceCreate)
    {
      assert segs[i..][0] == segs[i] && segs[i..][1..] == segs[i + 1..];
      var anyChild := FindAnyChildEntry(cur, pDirEntry, segs[i]);
      if anyChild.None? {
        if !forceCreate {
          return Created(cur, None);
        }
        var c := CreateDirectoryChildEntry(cur, pDirEntry, segs[i], true);
        if c.entry.None? {
          return c;
        }
        cur, pDirEntry := c.tree, c.entry.value;
      } else {
        if cur[anyChild.value].kind != Directory {
          return Created(cur, None);
        }
        pDirEntry := anyChild.value;
      }
      i := i + 1;
    }
    r := CreateDirectoryChildEntry(cur, pDirEntry, name, true);
  }

  /** Without `forceCreate` the chain must already be a directory: exactly
      one new directory is added, or nothing at all. */
  lemma {:induction false} CreateSubDirectoryNoForce(t: Tree, dir: Path, segs: seq<string>, name: string)
    requires Valid(t) && dir in t && t[dir].kind == Directory
    ensures var r := CreateSubDirectoryChain(t, dir, segs, name, false);
      (r.entry.Some? <==>
        FindSubDirectory(t, dir, segs).Some? && name != "" && dir + segs + [name] !in t) &&
      r.tree == if r.entry.Some? then t[dir + segs + [name] := NewDirectory()] else t
    decreases |segs|
  {
    if segs == [] {
      assert dir + segs + [name] == dir + [name];
    } else {
      var child := dir + [segs[0]];
      assert dir + segs + [name] == child + segs[1..] + [name];
      if segs[0] != "" && child in t && t[child].kind == Directory {
        CreateSubDirectoryNoForce(t, child, segs[1..], name);
      }
    }
  }

  /** No entry along the chain below `dir` is a file. */
  ghost predicate NoFileAlong(t: Tree, dir: Path, segs: seq<string>)
    decreases |segs|
  {
    segs == [] ||
    ((dir + [segs[0]] in t ==> t[dir + [segs[0]]].kind == Directory) &&
     NoFileAlong(t, dir + [segs[0]], segs[1..]))
  }

  /** Below an absent path there is no file. */
  lemma {:induction false} NoFileBelowAbsent(t: Tree, p: Path, segs: seq<string>)
    requires Valid(t) && p !in t
    ensures NoFileAlong(t, p, segs)
    decreases |segs|
  {
    if segs != [] {
      PrefixPresent(t, p, [segs[0]]);
      NoFileBelowAbsent(t, p + [segs[0]], segs[1..]);
    }
  }

  /** One forced step through a missing child: the chain below it has no
      file before or after the child is created, and the final path is new
      in both trees. */
  lemma ForcedStepThroughAbsent(t: Tree, dir: Path, segs: seq<string>, name: string)
    requires Valid(t) && dir in t && t[dir].kind == Directory
    requires segs != [] && segs[0] != "" && dir + [segs[0]] !in t
    ensures var child := dir + [segs[0]];
      var u := t[child := NewDirectory()];
      Valid(u) && NoFileAlong(t, dir, segs) && NoFileAlong(u, child, segs[1..]) &&
      dir + segs + [name] !in t && child + segs[1..] + [name] !in u
  {
    var child := dir + [segs[0]];
    var rest := segs[1..];
    var u := t[child := NewDirectory()];
    assert Valid(u) by {
      assert CreateDirectoryChildEntry(t, dir, segs[0], true).tree == u;
    }
    assert NoFileAlong(t, dir, segs) by {
      NoFileBelowAbsent(t, child, rest);
    }
    assert dir + segs + [name] !in t && child + rest + [name] !in u by {
      PrefixPresent(t, child, rest + [name]);
      assert dir + segs + [name] == child + (rest + [name]);
      assert child + rest + [name] == child + (rest + [name]);
      assert |child + rest + [name]| > |child|;
    }
    if rest != [] {
      var grandChild := child + [rest[0]];
      PrefixPresent(t, child, [rest[0]]);
      assert grandChild !in u by {
        assert |grandChild| > |child|;
      }
      NoFileBelowAbsent(u, grandChild, rest[1..]);
    }
  }

  /** With `forceCreate` and non-empty intermediate names, the creation
      succeeds exactly when no file blocks the chain and the final name is
      new. */
  lemma {:induction false} CreateSubDirectoryForced(t: Tree, dir: Path, segs: seq<string>, name: string)
    requires Valid(t) && dir in t && t[dir].kind == Directory
    requires forall k :: 0 <= k < |segs| ==> segs[k] != ""
    ensures CreateSubDirectoryChain(t, dir, segs, name, true).entry.Some? <==>
      NoFileAlong(t, dir, segs) && name != "" && dir + segs + [name] !in t
    decreases |segs|
  {
    if segs == [] {
      assert dir + segs + [name] == dir + [name];
    } else {
      var child := dir + [segs[0]];
      var rest := segs[1..];
      assert dir + segs + [name] == child + rest + [name];
      assert forall k :: 0 <= k < |rest| ==> rest[k] == segs[k + 1];
      if child !in t {
        var u := t[child := NewDirectory()];
        assert CreateDirectoryChildEntry(t, dir, segs[0], true) == Created(u, Some(child));
        ForcedStepThroughAbsent(t, dir, segs, name);
        CreateSubDirectoryForced(u, child, rest, name);
      } else if t[child].kind == Directory {
        CreateSubDirectoryForced(t, child, rest, name);
      }
    }
  }

  /** `u` is `t` plus a new empty directory at every prefix of `target`
      longer than `from` that `t` lacks, and nothing else. */
  ghost predicate AddsChain(t: Tree, u: Tree, target: Path, from: nat)
  {
    (forall q :: q in u <==> q in t || (from < |q| <= |target| && q == target[..|q|])) &&
    (forall q :: q in u ==> u[q] == if q in t then t[q] else NewDirectory())
  }

  /** A tree adds nothing along a chain whose end it already has. */
  lemma AddsChainNothing(t: Tree, target: Path, from: nat)
    requires Valid(t) && target in t
    ensures AddsChain(t, t, target, from)
  {
    forall q | from < |q| <= |target| && q == target[..|q|] ensures q in t {
      if |q| < |target| {
        AncestorsAreDirectories(t, target, |q|);
      } else {
        assert q == target;
      }
    }
  }

  /** The tree a forced creation along `target` builds, from the prefix of
      length `from + 1` on: every prefix `t` lacks becomes an empty
      directory. */
  ghost function ChainTree(t: Tree, target: Path, from: nat): Tree
    decreases |target| - from
  {
    if from >= |target| then t
    else
      var p := target[..from + 1];
      ChainTree(if p in t then t else t[p := NewDirectory()], target, from + 1)
  }

  /** The chain tree is `t` plus exactly the missing prefixes of the chain. */
  lemma {:induction false} ChainTreeAdds(t: Tree, target: Path, from: nat)
    ensures AddsChain(t, ChainTree(t, target, from), target, from)
    decreases |target| - from
  {
    if from < |target| {
      var p := target[..from + 1];
      if p in t {
        ChainTreeAdds(t, target, from + 1);
        AddsChainThroughPresent(t, ChainTree(t, target, from), target, from);
      } else {
        ChainTreeAdds(t[p := NewDirectory()], target, from + 1);
        AddsChainThroughAbsent(t, ChainTree(t, target, from), target, from);
      }
    }
  }

  /** A chain from a missing prefix is the chain from one step further, on
      the tree that has that prefix as an empty directory. */
  lemma AddsChainThroughAbsent(t: Tree, v: Tree, target: Path, from: nat)
    requires from < |target| && target[..from + 1] !in t
    requires AddsChain(t[target[..from + 1] := NewDirectory()], v, target, from + 1)
    ensures AddsChain(t, v, target, from)
  {
    var child := target[..from + 1];
    forall q ensures q in v <==> q in t || (from < |q| <= |target| && q == target[..|q|]) {
      if |q| == from + 1 && q == target[..|q|] {
        assert q == child;
      }
    }
  }

  /** A chain from a present prefix is the chain from one step further. */
  lemma AddsChainThroughPresent(t: Tree, v: Tree, target: Path, from: nat)
    requires from < |target| && target[..from + 1] in t
    requires AddsChain(t, v, target, from + 1)
    ensures AddsChain(t, v, target, from)
  {
    forall q ensures q in v <==> q in t || (from < |q| <= |target| && q == target[..|q|]) {
      if |q| == from + 1 && q == target[..|q|] {
        assert q == target[..from + 1];
      }
    }
  }

  /** A chain whose end already exists adds nothing. */
  lemma AddsChainPresent(t: Tree, u: Tree, target: Path, from: nat)
    requires Valid(t) && target in t && AddsChain(t, u, target, from)
    ensures u == t
  {
    assert target[..|target|] == target;
    forall q | q in u ensures q in t {
      if q !in t && |q| < |target| {
        AncestorsAreDirectories(t, target, |q|);
      }
    }
  }

  /** Forced creation stops at a file on the chain before anything is
      created. */
  lemma {:induction false} ForcedChainBlocked(t: Tree, dir: Path, segs: seq<string>, name: string)
    requires Valid(t) && dir in t && t[dir].kind == Directory
    requires forall k :: 0 <= k < |segs| ==> segs[k] != ""
    ensures !NoFileAlong(t, dir, segs) ==> CreateSubDirectoryChain(t, dir, segs, name, true).tree == t
    decreases |segs|
  {
    if segs != [] {
      var child := dir + [segs[0]];
      var rest := segs[1..];
      if child !in t {
        ForcedStepThroughAbsent(t, dir, segs, name);
      } else if t[child].kind == Directory {
        assert forall k :: 0 <= k < |rest| ==> rest[k] == segs[k + 1];
        ForcedChainBlocked(t, child, rest, name);
      }
    }
  }

  /** One forced step below `dir`: through a missing child, which is
      created first, or through an existing directory child. */
  lemma ForcedChainStep(t: Tree, dir: Path, segs: seq<string>, name: string)
    requires Valid(t) && dir in t && t[dir].kind == Directory
    requires segs != [] && segs[0] != ""
    ensures var child := dir + [segs[0]];
      var r := CreateSubDirectoryChain(t, dir, segs, name, true);
      (child !in t ==> r == CreateSubDirectoryChain(t[child := NewDirectory()], child, segs[1..], name, true)) &&
      (child in t && t[child].kind == Directory ==> r == CreateSubDirectoryChain(t, child, segs[1..], name, true))
  {
    var child := dir + [segs[0]];
    if child !in t {
      assert CreateDirectoryChildEntry(t, dir, segs[0], true) == Created(t[child := NewDirectory()], Some(child));
    }
  }

  /** Forced creation along a chain no file blocks builds the chain tree:
      the missing directories of the chain, and the final directory too when
      it is created. */
  lemma {:induction false} ForcedChainTree(t: Tree, dir: Path, segs: seq<string>, name: string)
    requires Valid(t) && dir in t && t[dir].kind == Directory
    requires forall k :: 0 <= k < |segs| ==> segs[k] != ""
    requires NoFileAlong(t, dir, segs)
    ensures var r := CreateSubDirectoryChain(t, dir, segs, name, true);
      r.tree == ChainTree(t, if r.entry.Some? then dir + segs + [name] else dir + segs, |dir|)
    decreases |segs|
  {
    var r := CreateSubDirectoryChain(t, dir, segs, name, true);
    if segs == [] {
      assert dir + segs + [name] == dir + [name] && dir + segs == dir;
      assert (dir + [name])[..|dir| + 1] == dir + [name];
    } else {
      var child := dir + [segs[0]];
      var rest := segs[1..];
      assert dir + segs + [name] == child + rest + [name];
      assert dir + segs == child + rest;
      assert forall k :: 0 <= k < |rest| ==> rest[k] == segs[k + 1];
      var target := if r.entry.Some? then child + rest + [name] else child + rest;
      assert target[..|dir| + 1] == child;
      ForcedChainStep(t, dir, segs, name);
      if child !in t {
        ForcedStepThroughAbsent(t, dir, segs, name);
        ForcedChainTree(t[child := NewDirectory()], child, rest, name);
      } else {
        ForcedChainTree(t, child, rest, name);
      }
    }
  }

  /** `createSubDirectory` with `forceCreate`, on non-empty names: on success
      the tree gains exactly the missing directories along the chain and the
      new directory; on failure it is unchanged. */
  lemma CreateSubDirectoryForcedTree(t: Tree, dir: Path, segs: seq<string>, name: string)
    requires Valid(t) && dir in t && t[dir].kind == Directory
    requires forall k :: 0 <= k < |segs| ==> segs[k] != ""
    ensures var r := CreateSubDirectoryChain(t, dir, segs, name, true);
      (r.entry.Some? ==> AddsChain(t, r.tree, dir + segs + [name], |dir|)) &&
      (r.entry.None? && name != "" ==> r.tree == t)
  {
    var r := CreateSubDirectoryChain(t, dir, segs, name, true);
    ForcedChainBlocked(t, dir, segs, name);
    if NoFileAlong(t, dir, segs) {
      ForcedChainTree(t, dir, segs, name);
      ChainTreeAdds(t, if r.entry.Some? then dir + segs + [name] else dir + segs, |dir|);
    }
    if r.entry.None? && name != "" && NoFileAlong(t, dir, segs) {
      CreateSubDirectoryForced(t, dir, segs, name);
      var target := dir + segs + [name];
      assert target in t;
      assert (dir + segs) + [name] == target;
      PrefixPresent(t, dir + segs, [name]);
      AddsChainPresent(t, r.tree, dir + segs, |dir|);
    }
  }

  /** No file along a chain means no file along any shorter chain, and the
      chain's end, if present, is a directory. */
  lemma {:induction false} NoFileAlongPrefix(t: Tree, dir: Path, segs: seq<string>)
    requires segs != [] && NoFileAlong(t, dir, segs)
    ensures NoFileAlong(t, dir, segs[..|segs| - 1])
    ensures dir + segs in t ==> t[dir + segs].kind == Directory
    decreases |segs|
  {
    var child := dir + [segs[0]];
    if |segs| == 1 {
      assert dir + segs == child;
    } else {
      NoFileAlongPrefix(t, child, segs[1..]);
      assert dir + segs == child + segs[1..];
      var shorter := segs[..|segs| - 1];
      assert shorter[0] == segs[0] && shorter[1..] == segs[1..][..|segs[1..]| - 1];
    }
  }

  /** A chain with no file along it stays so when it is extended by a name
      that is absent or a directory. */
  lemma {:induction false} NoFileAlongExtend(t: Tree, dir: Path, segs: seq<string>, name: string)
    ensures (NoFileAlong(t, dir, segs) &&
             (dir + segs + [name] in t ==> t[dir + segs + [name]].kind == Directory)) ==>
            NoFileAlong(t, dir, segs + [name])
    decreases |segs|
  {
    var longer := segs + [name];
    assert longer[0] == (if segs == [] then name else segs[0]);
    if segs == [] {
      assert dir + segs + [name] == dir + [longer[0]];
      assert longer[1..] == [];
    } else {
      var child := dir + [segs[0]];
      NoFileAlongExtend(t, child, segs[1..], name);
      assert child + segs[1..] + [name] == dir + segs + [name];
      assert longer[1..] == segs[1..] + [name];
    }
  }
}
