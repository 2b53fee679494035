/** `cmd_rm` (src/cmd_rm.c): delete a file. The path is split; a path whose last
    component is empty names a folder and is refused. The file is then looked up, at the
    root as a depth-0 file, below a parent folder as a file listed in the folder's slots.
    A nested file is unlinked from its folder at once; then the gate is checked (write bit
    set, neither lock bit) and, when it passes, `delete_inode` frees the file's blocks and
    wipes its inode.
 */
module Rm {
  import opened Codec
  import opened Blocks
  import opened Container
  import opened Paths
  import opened Entries
  import opened Directories
  import opened DirTree
  import opened Lookup
  import opened Teardown
  import Growth

  /** The gate rm and rmdir share: the write bit (2) set and neither lock bit (3, 4). */
  predicate Deletable(n: Inode) {
    Has(n.flags, FlagWrite) && !Has(n.flags, FlagReadLock) && !Has(n.flags, FlagWriteLock)
  }

  /** Where the lookup of rm or rmdir found its target: nowhere, at block b of the root,
      or at block b listed by the folder at block dir. */
  datatype Place = Missing | Top(b: int) | Below(dir: int, b: int)

  /** The lookup both commands share: `find_inode_racine` for an empty parent, otherwise
      `find_inode_folder` and then `find_file_folder_from_inode` in that folder, asking
      for a directory when isDir holds and for a file otherwise. */
  function Locate(fs: Fs, s: Split, isDir: bool): (r: Res<Place>)
    ensures r.Ok? ==> r.fs == fs
    ensures r.Ok? && r.v.Top? ==> InRange(fs, r.v.b)
    ensures r.Ok? && r.v.Below? ==> InRange(fs, r.v.dir) && InRange(fs, r.v.b)
  {
    if |s.parent| == 0 then
      var f := FindInodeRacine(fs, s.name, isDir, 0);
      if !f.Ok? then Fault else if f.v == -1 then Ok(fs, Missing) else Ok(fs, Top(f.v))
    else
      var d := FindInodeFolder(fs, s.parent);
      if !d.Ok? then Fault
      else if d.v == -1 then Ok(fs, Missing)
      else
        var f := FindFileFolderFromInode(fs, InodeAt(fs, d.v).direct, s.name, isDir, 0);
        if !f.Ok? then Fault else if f.v == -1 then Ok(fs, Missing) else Ok(fs, Below(d.v, f.v))
  }

  /** The last step of rm once the target b is known: 1 when the gate refuses, otherwise
      `delete_inode` and 0. */
  function Remove(fs: Fs, b: int, now: u32): (r: Res<int>)
    requires InRange(fs, b)
  {
    if !Deletable(InodeAt(fs, b)) then Ok(fs, 1)
    else
      var t := DeleteInode(fs, b, now);
      if t.Ok? then Ok(t.fs, 0) else Fault
  }

  /** `cmd_rm(path)` at time now, as written: a nested file is unlinked from its folder
      before the gate is consulted. */
  function CmdRm(fs: Fs, path: CStr, now: u32): (r: Res<int>)
  {
    if !ParentFits(path) then Fault
    else
      var s := SplitPath(path);
      if IsFolderPath(s.parent, s.name) then Ok(fs, 1)
      else
        var p := Locate(fs, s, false);
        if !p.Ok? then Fault
        else match p.v
          case Missing => Ok(fs, 1)
          case Top(b) => Remove(fs, b, now)
          case Below(d, b) => Remove(DeleteSeparteInode(fs, d, b, now), b, now)
  }

  /** rm with the gate consulted before the unlink: it answers 0 or 1, and a failing
      rm (1) leaves the container as it was. */
  function CmdRmChecked(fs: Fs, path: CStr, now: u32): (r: Res<int>)
    ensures r.Ok? ==> r.v == 0 || r.v == 1
    ensures r.Ok? && r.v == 1 ==> r.fs == fs
  {
    if !ParentFits(path) then Fault
    else
      var s := SplitPath(path);
      if IsFolderPath(s.parent, s.name) then Ok(fs, 1)
      else
        var p := Locate(fs, s, false);
        if !p.Ok? then Fault
        else match p.v
          case Missing => Ok(fs, 1)
          case Top(b) => Remove(fs, b, now)
          case Below(d, b) =>
            if !Deletable(InodeAt(fs, b)) then Ok(fs, 1)
            else Remove(DeleteSeparteInode(fs, d, b, now), b, now)
  }

  // ---------------------------------------------------------------------------
  // The lookup

  /** For files the lookup is the one cat and chmod use: it faults together with
      `FindFile`, misses together with it, and otherwise finds the same block; a nested
      find names the folder the parent path resolves to, a directory other than the file. */
  lemma LocateFile(fs: Fs, s: Split)
    ensures var p := Locate(fs, s, false);
      var f := FindFile(fs, s.parent, s.name);
      && p.Ok? == f.Ok?
      && (p.Ok? ==> (p.v.Missing? <==> f.v == -1))
      && (p.Ok? && !p.v.Missing? ==> p.v.b == f.v && (p.v.Top? <==> |s.parent| == 0))
      && (p.Ok? && p.v.Below? ==>
            && p.v.dir == FindInodeFolder(fs, s.parent).v
            && IsDir(InodeAt(fs, p.v.dir)) && !IsDir(InodeAt(fs, p.v.b)) && p.v.b in InodeAt(fs, p.v.dir).direct)
  {
    var p := Locate(fs, s, false);
    FindFileSpec(fs, s.parent, s.name);
    if p.Ok? && p.v.Below? {
      var chain := FindInodeFolderSound(fs, s.parent);
    }
  }

  // ---------------------------------------------------------------------------
  // Outcomes

  /** rm answers 0 or 1; a folder path and a missing file give 1 with nothing changed; a
      root file the gate refuses gives 1 with nothing changed; 0 means the path denoted a
      file that passed the gate. */
  lemma RmOutcome(fs: Fs, path: CStr, now: u32)
    ensures var r := CmdRm(fs, path, now);
      var s := SplitPath(path);
      var f := FindFile(fs, s.parent, s.name);
      && (r.Ok? ==> r.v == 0 || r.v == 1)
      && (ParentFits(path) && |s.name| == 0 ==> r == Ok(fs, 1))
      && (ParentFits(path) && |s.name| > 0 && f.Ok? && f.v == -1 ==> r == Ok(fs, 1))
      && ((ParentFits(path) && |s.name| > 0 && f.Ok? && f.v != -1 && |s.parent| == 0 && !Deletable(InodeAt(fs, f.v)))
            ==> r == Ok(fs, 1))
      && (r.Ok? && r.v == 0 ==> f.Ok? && f.v != -1 && Denotes(fs, s.parent, s.name, f.v) && Deletable(InodeAt(fs, f.v)))
  {
    var s := SplitPath(path);
    if ParentFits(path) && |s.name| > 0 {
      LocateFile(fs, s);
      FindFileSpec(fs, s.parent, s.name);
      var p := Locate(fs, s, false);
      if p.Ok? && p.v.Below? {
        var fs1 := DeleteSeparteInode(fs, p.v.dir, p.v.b, now);
        RewriteLocal(fs, p.v.dir, InodeAt(fs, p.v.dir).(direct := RemoveSlot(InodeAt(fs, p.v.dir).direct, p.v.b), mtime := now));
        assert fs1.blocks[p.v.b] == fs.blocks[p.v.b];
      }
    }
  }

  /** The defect of src/cmd_rm.c:57 against 62: a nested file the gate refuses is still
      unlinked. rm reports failure (1), yet the folder's slot that listed the file is now
      empty while the file's inode lives on, reachable from no slot it held before. */
  lemma RmUnlinksRefused(fs: Fs, path: CStr, now: u32)
    requires ParentFits(path)
    requires var s := SplitPath(path);
      var f := FindFile(fs, s.parent, s.name);
      |s.name| > 0 && |s.parent| > 0 && f.Ok? && f.v != -1 && !Deletable(InodeAt(fs, f.v))
    ensures var r := CmdRm(fs, path, now);
      var s := SplitPath(path);
      var b := FindFile(fs, s.parent, s.name).v;
      var d := FindInodeFolder(fs, s.parent).v;
      && r.Ok? && r.v == 1 && r.fs != fs
      && b in InodeAt(fs, d).direct
      && InodeAt(r.fs, d).direct == RemoveSlot(InodeAt(fs, d).direct, b)
      && InodeAt(r.fs, d).direct != InodeAt(fs, d).direct
      && r.fs.blocks[b] == fs.blocks[b] && Exists(InodeAt(r.fs, b))
  {
    var s := SplitPath(path);
    LocateFile(fs, s);
    FindFileSpec(fs, s.parent, s.name);
    var p := Locate(fs, s, false);
    var d := p.v.dir;
    var b := p.v.b;
    var n := InodeAt(fs, d);
    RewriteLocal(fs, d, n.(direct := RemoveSlot(n.direct, b), mtime := now));
    RemoveSlotSpec(n.direct, b);
    var k := SlotOf(n.direct, b, 0);
    SlotOfFirst(n.direct, b, 0);
    assert RemoveSlot(n.direct, b)[k] != n.direct[k];
  }

  /** The corrected rm differs from rm as written only on a nested file the gate
      refuses. */
  lemma RmCheckedAgrees(fs: Fs, path: CStr, now: u32)
    requires var s := SplitPath(path);
      var f := FindFile(fs, s.parent, s.name);
      !(|s.parent| > 0 && f.Ok? && f.v != -1 && !Deletable(InodeAt(fs, f.v)))
    ensures CmdRmChecked(fs, path, now) == CmdRm(fs, path, now)
  {
    LocateFile(fs, SplitPath(path));
  }

  // ---------------------------------------------------------------------------
  // What a successful rm does

  /** The blocks a teardown releases are read from the inode and its tables only: when
      those blocks are as they were, so is the list. */
  lemma FileBlocksFrame(fs: Fs, fs': Fs, b: int)
    requires |fs'.blocks| == |fs.blocks| && InRange(fs, b) && fs'.blocks[b] == fs.blocks[b]
    requires forall c :: c in FileBlocks(fs, b) && InRange(fs, c) ==> fs'.blocks[c] == fs.blocks[c]
    ensures FileBlocks(fs', b) == FileBlocks(fs, b)
  {
    var n := InodeAt(fs, b);
    if n.indirect >= 0 {
      forall c | c in IndirectBlocks(fs, n.indirect) && InRange(fs, c)
        ensures fs'.blocks[c] == fs.blocks[c]
      {
        assert c in FileBlocks(fs, b);
      }
      IndirectBlocksFrame(fs, fs', n.indirect);
    }
  }

  /** Releasability depends only on the layout and on the bits of the listed blocks. */
  lemma ReleasableFrame(fs: Fs, fs': Fs, L: seq<int>, S: set<int>)
    requires Releasable(fs, L, S)
    requires |fs'.blocks| == |fs.blocks| && Geom(fs') == Geom(fs)
    requires forall c :: c in L ==> FreeAt(fs', c) == FreeAt(fs, c)
    ensures Releasable(fs', L, S)
  {
  }

  /** Unlinking a file from a folder of the inode region leaves the file, its blocks and
      their bits as they were, and keeps the counters honest. */
  lemma UnlinkKeepsFile(fs: Fs, d: int, b: int, now: u32) returns (fs1: Fs)
    requires WellFormed(fs) && InRange(fs, d) && InInodes(fs, d) && InRange(fs, b) && b != d
    requires Releasable(fs, FileBlocks(fs, b), {b})
    ensures fs1 == DeleteSeparteInode(fs, d, b, now)
    ensures WellFormed(fs1) && Geom(fs1) == Geom(fs) && (forall c :: FreeAt(fs1, c) == FreeAt(fs, c))
    ensures fs1.blocks[b] == fs.blocks[b] && FileBlocks(fs1, b) == FileBlocks(fs, b)
    ensures Releasable(fs1, FileBlocks(fs1, b), {b})
    ensures InodeAt(fs1, d) == InodeAt(fs, d).(direct := RemoveSlot(InodeAt(fs, d).direct, b), mtime := now)
    ensures Counted(fs) ==> Counted(fs1)
  {
    fs1 := DeleteSeparteInode(fs, d, b, now);
    DeleteSeparteInodeSpec(fs, d, b, now);
    var L := FileBlocks(fs, b);
    forall c | c in L && InRange(fs, c)
      ensures fs1.blocks[c] == fs.blocks[c]
    {
      assert Growth.Owned(fs, c);
    }
    FileBlocksFrame(fs, fs1, b);
    ReleasableFrame(fs, fs1, L, {b});
  }

  /** On a tidy well-formed container, rm of a path denoting a file that passes the gate
      and whose blocks are owned and distinct answers 0: the file's blocks and its inode
      bit are freed, no other bit changes, its inode no longer exists so no path denotes
      it, a nested file's slot is emptied, and the superblock counters stay honest. */
  lemma RmDeletes(fs: Fs, path: CStr, now: u32) returns (b: int, r: Fs)
    requires WellFormed(fs) && Tidy(fs) && ParentFits(path)
    requires var s := SplitPath(path);
      var f := FindFile(fs, s.parent, s.name);
      && |s.name| > 0 && f.Ok? && f.v != -1
      && Deletable(InodeAt(fs, f.v)) && Releasable(fs, FileBlocks(fs, f.v), {f.v})
    ensures var s := SplitPath(path); b == FindFile(fs, s.parent, s.name).v
    ensures CmdRm(fs, path, now) == Ok(r, 0)
    ensures WellFormed(r) && Geom(r) == Geom(fs)
    ensures !LiveAt(r, b) && forall p, x :: !Denotes(r, p, x, b)
    ensures FreeAt(r, b) && forall c :: c in FileBlocks(fs, b) ==> FreeAt(r, c)
    ensures forall c :: c !in FileBlocks(fs, b) && c != b ==> FreeAt(r, c) == FreeAt(fs, c)
    ensures var s := SplitPath(path); var d := FindInodeFolder(fs, s.parent);
      |s.parent| > 0 ==> d.Ok? && d.v != -1 && InodeAt(r, d.v).direct == RemoveSlot(InodeAt(fs, d.v).direct, b)
    ensures Counted(fs) ==> Counted(r)
  {
    var s := SplitPath(path);
    LocateFile(fs, s);
    FindFileSpec(fs, s.parent, s.name);
    TidyFindFile(fs, s.parent, s.name);
    var p := Locate(fs, s, false);
    b := p.v.b;
    var L := FileBlocks(fs, b);
    if p.v.Top? {
      r := DeleteInodeSpec(fs, b, now);
    } else {
      var d := p.v.dir;
      TidyWalk(fs, Tokens(Trunc(s.parent, 255)), -1);
      var fs1 := UnlinkKeepsFile(fs, d, b, now);
      r := DeleteInodeSpec(fs1, b, now);
      assert Growth.Owned(fs, d) ==> false;
      assert d !in L;
      assert r.blocks[d] == fs1.blocks[d];
    }
  }
}
