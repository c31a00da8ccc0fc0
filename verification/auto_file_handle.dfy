/**
  `AutoFileHandle` (rcfs.h:52-83, 628-723): a holder of at most one open
  descriptor of a `ResourceFileSystem`, with `fileId == -1` when it holds
  none.
*/
module FileHandle {
  import opened Common
  import opened PathNames
  import opened DirectoryTree
  import opened ResourceFs

  /** The open-file table once descriptor `d` is released by `close`. */
  ghost function ReleasedFiles(files: map<int, OpenedFileInfo>, d: int): map<int, OpenedFileInfo>
  {
    if d >= 0 && d in files then files - {d} else files
  }

  /** The tree once descriptor `d` is released by `close`: its entry loses
      the lock the descriptor held. */
  ghost function ReleasedTree(t: Tree, files: map<int, OpenedFileInfo>, d: int): Tree
  {
    if d >= 0 && d in files && files[d].entry in t then
      var p := files[d].entry;
      t[p := Unlock(t[p])]
    else t
  }

  class AutoFileHandle {
    /** `pRcfs`: the filesystem the descriptor belongs to. */
    const rcfs: ResourceFileSystem
    /** The descriptor held, or -1. */
    var fileId: int

    ghost predicate Valid()
      reads this, rcfs
    {
      rcfs.Valid() && (fileId == -1 || 1 <= fileId < rcfs.nextDescriptor)
    }

    constructor (rcfs: ResourceFileSystem)
      requires rcfs.Valid()
      ensures Valid() && this.rcfs == rcfs && fileId == -1
    {
      this.rcfs := rcfs;
      fileId := -1;
    }

    /** `close`: nothing to do without a descriptor; otherwise the descriptor
        is closed and forgotten, or kept when the filesystem does not know it. */
    method Close() returns (r: bool)
      requires Valid()
      modifies this, rcfs
      ensures Valid()
      ensures old(fileId) < 0 ==>
        r && fileId == old(fileId) && rcfs.tree == old(rcfs.tree) &&
        rcfs.openedFiles == old(rcfs.openedFiles)
      ensures old(fileId) >= 0 ==>
        (r <==> old(fileId) in old(rcfs.openedFiles)) &&
        fileId == (if r then -1 else old(fileId)) &&
        rcfs.openedFiles == old(rcfs.openedFiles) - {old(fileId)} &&
        (r ==> var p := old(rcfs.openedFiles)[old(fileId)].entry;
               rcfs.tree == old(rcfs.tree)[p := Unlock(old(rcfs.tree)[p])]) &&
        (!r ==> rcfs.tree == old(rcfs.tree))
      ensures rcfs.nextDescriptor == old(rcfs.nextDescriptor)
    {
      if fileId < 0 {
        return true;
      }
      var closed := rcfs.CloseFile(fileId);
      if closed {
        fileId := -1;
        return true;
      }
      r := false;
    }

    /** `open`: releases the descriptor held, then opens the name.  On a
        missing file it answers false and allocates nothing; a decoder
        exception escapes as it does from `openFile`. */
    method Open(fullName: string) returns (r: Outcome<bool>)
      requires Valid()
      modifies this, rcfs
      ensures Valid()
      ensures old(fileId) >= 0 ==> old(fileId) !in rcfs.openedFiles
      ensures var found := Locate(old(rcfs.tree), Split(fullName, rcfs.caseSens), false);
        (found.None? ==> r == Value(false) && rcfs.nextDescriptor == old(rcfs.nextDescriptor)) &&
        (found.Some? ==>
          var e := old(rcfs.tree)[found.value];
          rcfs.nextDescriptor == old(rcfs.nextDescriptor) + 1 &&
          (r.Thrown? <==> NeedsDecode(e, rcfs.decoder) && rcfs.decoder.value(e.raw.value, e.key).DecodeFailed?) &&
          (r.Value? ==> r.value))
      ensures var t1 := ReleasedTree(old(rcfs.tree), old(rcfs.openedFiles), old(fileId));
        var f1 := ReleasedFiles(old(rcfs.openedFiles), old(fileId));
        var found := Locate(old(rcfs.tree), Split(fullName, rcfs.caseSens), false);
        (found.None? ==> rcfs.tree == t1 && rcfs.openedFiles == f1) &&
        (found.Some? ==>
          found.value in t1 &&
          rcfs.openedFiles == f1[old(rcfs.nextDescriptor) := OpenedFileInfo(found.value, 0)] &&
          rcfs.tree == t1[found.value := OpenEntry(t1[found.value], rcfs.decoder).entry])
      ensures r == Value(true) ==>
        fileId == old(rcfs.nextDescriptor) && fileId in rcfs.openedFiles &&
        rcfs.openedFiles[fileId] == OpenedFileInfo(Split(fullName, rcfs.caseSens), 0)
      ensures r != Value(true) ==>
        fileId == if old(fileId) >= 0 && old(fileId) in old(rcfs.openedFiles) then -1 else old(fileId)
    {
      ghost var t0, f0, d0 := rcfs.tree, rcfs.openedFiles, fileId;
      var _ := Close();
      assert rcfs.tree == ReleasedTree(t0, f0, d0) && rcfs.openedFiles == ReleasedFiles(f0, d0);
      SplitNamesNonEmpty(fullName, rcfs.caseSens);
      LocateSameShape(t0, rcfs.tree, Split(fullName, rcfs.caseSens), false);
      var handle := rcfs.OpenFile(fullName);
      if handle.Thrown? {
        return Thrown(handle.error);
      }
      if handle.value < 0 {
        return Value(false);
      }
      fileId := handle.value;
      r := Value(true);
    }

    /** `read(buf, nBytesToRead)`: a read through the held descriptor. */
    method Read(buf: seq<byte>, nBytesToRead: size_t) returns (r: bool, out: seq<byte>)
      requires Valid() && fileId >= 0
      ensures fileId !in rcfs.openedFiles ==> !r && out == buf
      ensures fileId in rcfs.openedFiles ==>
        var data := EffectiveData(rcfs.tree[rcfs.openedFiles[fileId].entry]);
        (r <==> data.Some? && nBytesToRead > 0) &&
        out == (if r then data.value[..Min(nBytesToRead, |data.value|)] else buf)
    {
      r, out := rcfs.ReadFile(fileId, buf, nBytesToRead);
    }

    /** `read(buf)`: the whole file through the held descriptor. */
    method ReadAll(buf: seq<byte>) returns (r: bool, out: seq<byte>)
      requires Valid() && fileId >= 0
      ensures r <==> fileId in rcfs.openedFiles && EffectiveData(rcfs.tree[rcfs.openedFiles[fileId].entry]).Some?
      ensures out == if r then EffectiveData(rcfs.tree[rcfs.openedFiles[fileId].entry]).value else buf
    {
      r, out := rcfs.ReadWholeFile(fileId, buf);
    }
  }
}
