/** `cmd_mv` (src/cmd_mv.c): rename or move a file or a directory. Both paths are split;
    a path whose last component is empty names a directory and is split once more, so
    that its parent and name are those of the directory itself. The source must exist
    (at the root as a depth-0 entry, below its parent as a listed child); at the
    destination no entry of the destination's kind may exist under the new name and the
    new parent must exist. Then:
    - same kind and same parent string: a rename, only the name and the time change;
    - same kind, another parent: the entry gets the new name and the new depth (0 at the
      root, the new parent's plus one below it), is linked into the new parent and
      unlinked from the old one;
    - a file moved to a directory path: the same, keeping its name;
    - a directory moved to a file path: refused.
    Every refusal answers 1 and happens before the first write.
 */
module Mv {
  import opened Codec
  import opened Blocks
  import opened Container
  import opened Paths
  import opened Entries
  import opened Directories
  import opened DirTree
  import opened Lookup
  import opened Rm

  /** The second `split_path` of a directory path: the parent and name of the directory
      itself. A file path is kept as split. */
  function Resplit(s: Split): (r: Split)
    ensures IsFolderPath(s.parent, s.name) ==> r == SplitPath(s.parent)
    ensures !IsFolderPath(s.parent, s.name) ==> r == s
  {
    if IsFolderPath(s.parent, s.name) then SplitPath(s.parent) else s
  }

  /** What the destination lookup finds: an entry of the asked kind already there, no
      parent directory, a free name at the root, or a free name below the directory at
      block dir. */
  datatype Spot = Taken | NoParent | AtRoot | Under(dir: int)

  /** The destination lookup of `cmd_mv`: `find_inode_racine` for an empty parent,
      otherwise `find_inode_folder` and then `find_file_folder_from_inode` in that
      folder. */
  function Vacancy(fs: Fs, s: Split, isDir: bool): (r: Res<Spot>)
    ensures r.Ok? ==> r.fs == fs
    ensures r.Ok? && r.v.Under? ==> InRange(fs, r.v.dir)
  {
    if |s.parent| == 0 then
      var f := FindInodeRacine(fs, s.name, isDir, 0);
      if !f.Ok? then Fault else if f.v == -1 then Ok(fs, AtRoot) else Ok(fs, Taken)
    else
      var d := FindInodeFolder(fs, s.parent);
      if !d.Ok? then Fault
      else if d.v == -1 then Ok(fs, NoParent)
      else
        var f := FindFileFolderFromInode(fs, InodeAt(fs, d.v).direct, s.name, isDir, 0);
        if !f.Ok? then Fault else if f.v == -1 then Ok(fs, Under(d.v)) else Ok(fs, Taken)
  }

  /** What the lookups of `cmd_mv` settle before any write: a refusal, or the source
      found at src, the free destination dst, the kinds both paths name, whether the two
      parent strings are equal, and the new name. */
  datatype Order =
    | Refused
    | Go(src: Place, dst: Spot, isDir: bool, isDir2: bool, same: bool, name: CStr)

  /** The source and destination of an order are inside the container, and the
      destination is free. */
  predicate Fits(fs: Fs, g: Order) {
    && g.Go? && !g.src.Missing? && InRange(fs, g.src.b)
    && (g.src.Below? ==> InRange(fs, g.src.dir))
    && (g.dst.AtRoot? || (g.dst.Under? && InRange(fs, g.dst.dir)))
  }

  /** Lines 15-153 of `cmd_mv`: both splits, the source lookup and the destination
      check. A parent longer than the 256-byte buffer overruns it. */
  function Prepare(fs: Fs, oldpath: CStr, newpath: CStr): (r: Res<Order>)
    ensures r.Ok? ==> r.fs == fs
    ensures r.Ok? && r.v.Go? ==> Fits(fs, r.v)
  {
    if !ParentFits(oldpath) || !ParentFits(newpath) then Fault
    else
      var s1 := SplitPath(oldpath);
      var s2 := SplitPath(newpath);
      var isDir := IsFolderPath(s1.parent, s1.name);
      var isDir2 := IsFolderPath(s2.parent, s2.name);
      var o := Resplit(s1);
      var n := Resplit(s2);
      var p := Locate(fs, o, isDir);
      if !p.Ok? then Fault
      else if p.v.Missing? then Ok(fs, Refused)
      else
        var v := Vacancy(fs, n, isDir2);
        if !v.Ok? then Fault
        else if v.v.Taken? || v.v.NoParent? then Ok(fs, Refused)
        else Ok(fs, Go(p.v, v.v, isDir, isDir2, o.parent == n.parent, n.name))
  }

  // ---------------------------------------------------------------------------
  // The writes

  /** `strncpy(filename, new_name, 255)` when the new name is not empty. */
  function Retitle(n: Inode, name: CStr): Inode {
    if |name| > 0 then n.(name := StoreName(name)) else n
  }

  /** The modification time set to now, then the inode rehashed. */
  function Stamp(fs: Fs, b: int, now: u32): (r: Fs)
    requires InRange(fs, b)
    ensures |r.blocks| == |fs.blocks|
  {
    RewriteInode(fs, b, InodeAt(fs, b).(mtime := now))
  }

  /** The depth word written, with no rehash. */
  function SetDepth(fs: Fs, b: int, depth: u32): (r: Fs)
    requires InRange(fs, b)
    ensures |r.blocks| == |fs.blocks|
  {
    SetInode(fs, b, InodeAt(fs, b).(depth := depth))
  }

  /** With retitle, the new name stored and the inode stamped (lines 167-173). */
  function Rename(fs: Fs, b: int, name: CStr, retitle: bool, now: u32): (r: Fs)
    requires InRange(fs, b)
    ensures |r.blocks| == |fs.blocks|
  {
    if retitle then RewriteInode(fs, b, Retitle(InodeAt(fs, b), name).(mtime := now)) else fs
  }

  /** The first writes of a move (lines 167-183 and 194-201): with retitle, the new
      name is stored and the inode stamped; then the depth is set, to 0 at the root,
      otherwise to the new parent's depth plus one, and b is linked into the new parent,
      which is fatal when the parent is full. */
  function Head(fs: Fs, b: int, dst: Spot, name: CStr, retitle: bool, now: u32): (r: Res<()>)
    requires InRange(fs, b) && (dst.AtRoot? || (dst.Under? && InRange(fs, dst.dir)))
    ensures r.Ok? ==> |r.fs.blocks| == |fs.blocks|
  {
    var f1 := Rename(fs, b, name, retitle, now);
    if dst.AtRoot? then Ok(SetDepth(if retitle then Stamp(f1, b, now) else f1, b, 0), ())
    else AddInode(SetDepth(f1, b, Wrap32(InodeAt(f1, dst.dir).depth as int + 1)), dst.dir, WrapI32(b), now)
  }

  /** The move of entry b from src to the free destination dst (lines 165-209): the
      first writes, then b is stamped, and unlinked from its old parent when it had
      one. */
  function Shift(fs: Fs, b: int, src: Place, dst: Spot, name: CStr, retitle: bool, now: u32): (r: Res<int>)
    requires InRange(fs, b) && (src.Below? ==> InRange(fs, src.dir))
    requires dst.AtRoot? || (dst.Under? && InRange(fs, dst.dir))
  {
    var h := Head(fs, b, dst, name, retitle, now);
    if h.Exit? then Exit(h.fs)
    else if !h.Ok? then Fault
    else
      var f3 := Stamp(h.fs, b, now);
      if src.Below? then Ok(DeleteSeparteInode(f3, src.dir, b, now), 0) else Ok(f3, 0)
  }

  /** Lines 155-214 once the lookups succeeded, on the inode the source lookup found. */
  function Commit(fs: Fs, g: Order, now: u32): (r: Res<int>)
    requires Fits(fs, g)
  {
    var b := g.src.b;
    if g.isDir == g.isDir2 && g.same then Ok(RewriteInode(fs, b, Retitle(InodeAt(fs, b), g.name).(mtime := now)), 0)
    else if g.isDir == g.isDir2 then Shift(fs, b, g.src, g.dst, g.name, true, now)
    else if g.isDir2 then Shift(fs, b, g.src, g.dst, g.name, false, now)
    else Ok(fs, 1)
  }

  /** The source lookup of a file path finds a root-level file (lines 68-75). */
  predicate RootFileSource(fs: Fs, oldpath: CStr) {
    var s1 := SplitPath(oldpath);
    var p := Locate(fs, s1, false);
    !IsFolderPath(s1.parent, s1.name) && p.Ok? && p.v.Top?
  }

  /** `cmd_mv(oldpath, newpath)` at time now, as written: once both paths are split and
      the source lookup has found a root-level file, line 76 reads the inode through
      `get_inode(map, val1_1)` with val1_1 still -1, the block before the mapping, before
      the destination is looked at. Otherwise the lookups, which never write, go on as in
      the corrected command. */
  function CmdMv(fs: Fs, oldpath: CStr, newpath: CStr, now: u32): (r: Res<int>)
  {
    if !ParentFits(oldpath) || !ParentFits(newpath) then Fault
    else if RootFileSource(fs, oldpath) then Fault
    else CmdMvFixed(fs, oldpath, newpath, now)
  }

  /** mv with the root-level file taken from the block the lookup found. */
  function CmdMvFixed(fs: Fs, oldpath: CStr, newpath: CStr, now: u32): (r: Res<int>)
  {
    var p := Prepare(fs, oldpath, newpath);
    if !p.Ok? then Fault
    else if p.v.Refused? then Ok(fs, 1)
    else Commit(fs, p.v, now)
  }

  // ---------------------------------------------------------------------------
  // The lookups

  /** On a tidy well-formed container the destination lookup never faults. At the root
      the name is taken exactly when a root match of the asked kind exists; below a
      parent, a missing parent folder is told apart, and otherwise the name is taken
      exactly when a slot of the parent folder lists a child match, the parent being a
      directory of the inode region. */
  lemma VacancySpec(fs: Fs, s: Split, isDir: bool)
    requires WellFormed(fs) && Tidy(fs)
    ensures var v := Vacancy(fs, s, isDir);
      && v.Ok?
      && (|s.parent| == 0 ==>
            (v.v.Taken? <==> exists k :: 0 <= k < Geom(fs).nbi && RootAt(fs, k, s.name, isDir))
            && (!v.v.Taken? ==> v.v.AtRoot?))
      && (|s.parent| > 0 ==> (v.v.NoParent? <==> FindInodeFolder(fs, s.parent).v == -1) && !v.v.AtRoot?)
      && (v.v.Under? ==>
            && v.v.dir == FindInodeFolder(fs, s.parent).v && InInodes(fs, v.v.dir) && IsDir(InodeAt(fs, v.v.dir))
            && forall k :: 0 <= k < 900 ==> !ChildAt(fs, InodeAt(fs, v.v.dir).direct, k, s.name, isDir))
      && (v.v.Taken? && |s.parent| > 0 ==>
            var d := FindInodeFolder(fs, s.parent).v;
            InRange(fs, d) && exists k :: 0 <= k < 900 && ChildAt(fs, InodeAt(fs, d).direct, k, s.name, isDir))
  {
    if |s.parent| == 0 {
      FindInodeRacineSpec(fs, s.name, isDir, 0);
    } else {
      TidyWalk(fs, Tokens(Trunc(s.parent, 255)), -1);
      var d := FindInodeFolder(fs, s.parent);
      if d.v != -1 {
        TidySlots(fs, InodeAt(fs, d.v).direct);
        FindFileFolderFromInodeSpec(fs, InodeAt(fs, d.v).direct, s.name, isDir, 0);
      }
    }
  }

  /** On a tidy well-formed container the source lookup never faults, and what it finds
      is a live entry of the asked kind in the inode region; a nested one is listed by
      its parent, a directory of the inode region. */
  lemma TidyLocate(fs: Fs, s: Split, isDir: bool)
    requires WellFormed(fs) && Tidy(fs)
    ensures var p := Locate(fs, s, isDir);
      && p.Ok?
      && (!p.v.Missing? ==> InInodes(fs, p.v.b) && Exists(InodeAt(fs, p.v.b)) && (IsDir(InodeAt(fs, p.v.b)) <==> isDir))
      && (p.v.Top? ==> RootMatch(InodeAt(fs, p.v.b), s.name, isDir))
      && (p.v.Below? ==> InInodes(fs, p.v.dir) && IsDir(InodeAt(fs, p.v.dir)) && p.v.b in InodeAt(fs, p.v.dir).direct)
      && (p.v.Below? ==> ChildMatch(InodeAt(fs, p.v.b), s.name, isDir))
  {
    var p := Locate(fs, s, isDir);
    if |s.parent| == 0 {
      FindInodeRacineSpec(fs, s.name, isDir, 0);
      if !p.v.Missing? {
        assert RootAt(fs, p.v.b - Geom(fs).InodeStart(), s.name, isDir);
      }
    } else {
      TidyWalk(fs, Tokens(Trunc(s.parent, 255)), -1);
      var d := FindInodeFolder(fs, s.parent);
      if d.v != -1 {
        var dir := InodeAt(fs, d.v).direct;
        TidySlots(fs, dir);
        FindFileFolderFromInodeSpec(fs, dir, s.name, isDir, 0);
        if p.v.Below? {
          var k :| 0 <= k < 900 && dir[k] == p.v.b && ChildAt(fs, dir, k, s.name, isDir);
          assert dir[k] == NoBlock || InInodes(fs, dir[k]);
        }
      }
    }
  }

  // ---------------------------------------------------------------------------
  // What the writes do

  /** The layout, the bitmap and honest counters survive from fs to r. */
  ghost predicate Kept(fs: Fs, r: Fs) {
    && WellFormed(r) && Geom(r) == Geom(fs) && |r.blocks| == |fs.blocks|
    && (forall c :: FreeAt(r, c) == FreeAt(fs, c)) && (Counted(fs) ==> Counted(r))
  }

  /** Only the blocks x, y and z differ between fs and r. */
  ghost predicate Only(fs: Fs, r: Fs, x: int, y: int, z: int) {
    |r.blocks| == |fs.blocks| && forall c :: 0 <= c < |fs.blocks| && c != x && c != y && c != z ==> r.blocks[c] == fs.blocks[c]
  }

  /** The depth a moved entry gets: 0 at the root, the new parent's plus one (modulo
      2^32) below it. */
  function NewDepth(fs: Fs, dst: Spot): u32
    requires dst.AtRoot? || (dst.Under? && InRange(fs, dst.dir))
  {
    if dst.AtRoot? then 0 else Wrap32(InodeAt(fs, dst.dir).depth as int + 1)
  }

  /** The inode n of a moved entry once every write is done. */
  function Moved(n: Inode, name: CStr, retitle: bool, depth: u32, now: u32): Inode {
    (if retitle then Retitle(n, name) else n).(mtime := now, depth := depth)
  }

  /** Writing the depth word touches nothing else and keeps the counters honest. */
  lemma SetDepthSpec(fs: Fs, b: int, depth: u32) returns (r: Fs)
    requires WellFormed(fs) && InRange(fs, b) && b > Geom(fs).nb1
    ensures r == SetDepth(fs, b, depth) && Kept(fs, r) && Only(fs, r, b, b, b)
    ensures InodeAt(r, b) == InodeAt(fs, b).(depth := depth)
  {
    r := SetDepth(fs, b, depth);
    WriteAboveHeader(fs, r, b);
    if Counted(fs) {
      var g := Geom(fs);
      FreeCountFrame(fs, r, g.DataStart(), g.nbb);
      LiveCountFrame(fs, r, g.InodeStart(), g.DataStart());
    }
  }

  /** Renaming touches only the entry and keeps the counters honest. */
  lemma RenameSpec(fs: Fs, b: int, name: CStr, retitle: bool, now: u32) returns (f1: Fs)
    requires WellFormed(fs) && InRange(fs, b) && b > Geom(fs).nb1
    ensures f1 == Rename(fs, b, name, retitle, now) && Kept(fs, f1) && Only(fs, f1, b, b, b)
    ensures InodeAt(f1, b) == if retitle then Retitle(InodeAt(fs, b), name).(mtime := now) else InodeAt(fs, b)
  {
    f1 := fs;
    if retitle {
      f1 := RewriteInodeSpec(fs, b, Retitle(InodeAt(fs, b), name).(mtime := now));
    }
  }

  /** The first writes of a move to the root: the entry holds its final fields but the
      time. */
  lemma HeadRoot(fs: Fs, b: int, name: CStr, retitle: bool, now: u32) returns (h: Fs)
    requires WellFormed(fs) && InRange(fs, b) && b > Geom(fs).nb1
    ensures Head(fs, b, AtRoot, name, retitle, now) == Ok(h, ())
    ensures Kept(fs, h) && Only(fs, h, b, b, b)
    ensures InodeAt(h, b).(mtime := now) == Moved(InodeAt(fs, b), name, retitle, 0, now)
  {
    var f1 := RenameSpec(fs, b, name, retitle, now);
    var f1b := f1;
    if retitle {
      f1b := RewriteInodeSpec(f1, b, InodeAt(f1, b).(mtime := now));
    }
    h := SetDepthSpec(f1b, b, 0);
  }

  /** The first writes of a move below the directory dir: fatal exactly when dir is full,
      having then written only the entry; otherwise the entry holds its final fields but
      the time, and dir lists it. */
  lemma HeadUnder(fs: Fs, b: int, dir: int, name: CStr, retitle: bool, now: u32) returns (h: Res<()>)
    requires WellFormed(fs) && InRange(fs, b) && b > Geom(fs).nb1
    requires InRange(fs, dir) && dir > Geom(fs).nb1 && dir != b
    ensures h == Head(fs, b, Under(dir), name, retitle, now) && !h.Fault?
    ensures h.Exit? <==> NoBlock !in InodeAt(fs, dir).direct
    ensures h.Exit? ==> Only(fs, h.fs, b, b, b)
    ensures h.Ok? ==> Kept(fs, h.fs) && Only(fs, h.fs, b, dir, dir)
    ensures h.Ok? ==> InodeAt(h.fs, b).(mtime := now) == Moved(InodeAt(fs, b), name, retitle, NewDepth(fs, Under(dir)), now)
    ensures h.Ok? ==> InodeAt(h.fs, dir) == InodeAt(fs, dir).(direct := AddSlot(InodeAt(fs, dir).direct, WrapI32(b)), mtime := now)
  {
    h := Head(fs, b, Under(dir), name, retitle, now);
    var f1 := RenameSpec(fs, b, name, retitle, now);
    HeadUnderEq(fs, b, dir, name, retitle, now);
    var f2 := SetDepthSpec(f1, b, NewDepth(fs, Under(dir)));
    KeptTrans(fs, f1, f2);
    assert InodeAt(f2, dir) == InodeAt(fs, dir);
    var a := LinkSpec(f2, dir, WrapI32(b), now);
    if a.Ok? {
      KeptTrans(fs, f2, a.fs);
      assert InodeAt(a.fs, b) == InodeAt(f2, b);
      MovedOf(InodeAt(f1, b), InodeAt(fs, b), name, retitle, NewDepth(fs, Under(dir)), now);
    }
  }

  /** The depth a move below dir writes is read from dir after the renaming, which left
      dir as it was. */
  lemma HeadUnderEq(fs: Fs, b: int, dir: int, name: CStr, retitle: bool, now: u32)
    requires WellFormed(fs) && InRange(fs, b) && b > Geom(fs).nb1
    requires InRange(fs, dir) && dir != b
    ensures Head(fs, b, Under(dir), name, retitle, now)
      == AddInode(SetDepth(Rename(fs, b, name, retitle, now), b, NewDepth(fs, Under(dir))), dir, WrapI32(b), now)
  {
    var f1 := RenameSpec(fs, b, name, retitle, now);
    assert f1.blocks[dir] == fs.blocks[dir];
    assert Wrap32(InodeAt(f1, dir).depth as int + 1) == NewDepth(fs, Under(dir));
    HeadUnderShape(fs, f1, b, dir, name, retitle, now);
  }

  /** Below a parent, the first writes of a move are the renaming, the depth read from
      the parent after it, and the link into the parent. */
  lemma HeadUnderShape(fs: Fs, f1: Fs, b: int, dir: int, name: CStr, retitle: bool, now: u32)
    requires InRange(fs, b) && InRange(fs, dir) && f1 == Rename(fs, b, name, retitle, now)
    requires |f1.blocks| == |fs.blocks|
    ensures Head(fs, b, Under(dir), name, retitle, now)
      == AddInode(SetDepth(f1, b, Wrap32(InodeAt(f1, dir).depth as int + 1)), dir, WrapI32(b), now)
  {
  }

  /** The entry after the renaming, with its new depth and time, is the moved entry. */
  lemma MovedOf(n1: Inode, n: Inode, name: CStr, retitle: bool, depth: u32, now: u32)
    requires n1 == if retitle then Retitle(n, name).(mtime := now) else n
    ensures n1.(depth := depth).(mtime := now) == Moved(n, name, retitle, depth, now)
  {
  }

  lemma KeptTrans(a: Fs, b: Fs, c: Fs)
    requires Kept(a, b) && Kept(b, c)
    ensures Kept(a, c)
  {
  }

  /** `add_inode` in the terms of a move: fatal exactly when dir is full, with nothing
      written; otherwise only dir changes. */
  lemma LinkSpec(fs: Fs, dir: int, val: i32, now: u32) returns (a: Res<()>)
    requires WellFormed(fs) && InRange(fs, dir) && dir > Geom(fs).nb1
    ensures a == AddInode(fs, dir, val, now) && !a.Fault?
    ensures a.Exit? <==> NoBlock !in InodeAt(fs, dir).direct
    ensures a.Exit? ==> a.fs == fs
    ensures a.Ok? ==> Kept(fs, a.fs) && Only(fs, a.fs, dir, dir, dir)
    ensures a.Ok? ==> InodeAt(a.fs, dir) == InodeAt(fs, dir).(direct := AddSlot(InodeAt(fs, dir).direct, val), mtime := now)
  {
    a := AddInode(fs, dir, val, now);
    AddInodeSpec(fs, dir, val, now);
  }

  /** The last writes of a move: the entry is stamped and unlinked from its old parent
      when it had one. */
  lemma TailSpec(h: Fs, b: int, src: Place, now: u32) returns (r: Fs)
    requires WellFormed(h) && InRange(h, b) && b > Geom(h).nb1
    requires src.Below? ==> InRange(h, src.dir) && src.dir > Geom(h).nb1 && src.dir != b
    ensures r == (var f3 := Stamp(h, b, now); if src.Below? then DeleteSeparteInode(f3, src.dir, b, now) else f3)
    ensures Kept(h, r) && Only(h, r, b, Home(src, b), Home(src, b))
    ensures InodeAt(r, b) == InodeAt(h, b).(mtime := now) && Sealed(r.blocks[b])
    ensures src.Below? ==>
      InodeAt(r, src.dir) == InodeAt(h, src.dir).(direct := RemoveSlot(InodeAt(h, src.dir).direct, b), mtime := now)
  {
    var f3 := RewriteInodeSpec(h, b, InodeAt(h, b).(mtime := now));
    r := f3;
    if src.Below? {
      assert InodeAt(f3, src.dir) == InodeAt(h, src.dir);
      DeleteSeparteInodeSpec(f3, src.dir, b, now);
      r := DeleteSeparteInode(f3, src.dir, b, now);
      KeptTrans(h, f3, r);
    }
  }

  lemma OnlyTrans(a: Fs, b: Fs, c: Fs, x: int, y: int, z: int)
    requires Only(a, b, x, z, z) && Only(b, c, x, y, y)
    ensures Only(a, c, x, y, z)
  {
  }

  /** The old parent of entry b, or b itself at the root. */
  function Home(src: Place, b: int): int {
    if src.Below? then src.dir else b
  }

  /** The new parent of entry b, or b itself at the root. */
  function Dest(dst: Spot, b: int): int {
    if dst.Under? then dst.dir else b
  }

  /** Entry b, its old parent and its new parent are distinct blocks past the bitmap. */
  predicate Apart(fs: Fs, b: int, src: Place, dst: Spot) {
    && WellFormed(fs) && InRange(fs, b) && b > Geom(fs).nb1
    && (src.Below? ==> InRange(fs, src.dir) && src.dir > Geom(fs).nb1 && src.dir != b)
    && (dst.AtRoot? || (dst.Under? && InRange(fs, dst.dir) && dst.dir > Geom(fs).nb1 && dst.dir != b))
    && (src.Below? && dst.Under? ==> src.dir != dst.dir)
  }

  /** A move into a full directory is fatal, having written only the entry (its depth,
      and with retitle its name, are left without a matching digest). */
  lemma ShiftFull(fs: Fs, b: int, src: Place, dir: int, name: CStr, retitle: bool, now: u32)
    requires Apart(fs, b, src, Under(dir)) && NoBlock !in InodeAt(fs, dir).direct
    ensures var r := Shift(fs, b, src, Under(dir), name, retitle, now);
      r.Exit? && Only(fs, r.fs, b, b, b)
  {
    var a := HeadUnder(fs, b, dir, name, retitle, now);
  }

  /** A move with room at the destination answers 0; only the entry and its two parents
      change, the bitmap is untouched and the counters stay honest; the entry, sealed,
      holds its new name (with retitle), depth and time; the new parent lists it in its
      first empty slot and the old parent no longer lists it in its first slot that
      did. */
  lemma ShiftSpec(fs: Fs, b: int, src: Place, dst: Spot, name: CStr, retitle: bool, now: u32) returns (r: Fs)
    requires Apart(fs, b, src, dst) && (dst.Under? ==> NoBlock in InodeAt(fs, dst.dir).direct)
    ensures Shift(fs, b, src, dst, name, retitle, now) == Ok(r, 0)
    ensures Kept(fs, r) && Only(fs, r, b, Home(src, b), Dest(dst, b))
    ensures InodeAt(r, b) == Moved(InodeAt(fs, b), name, retitle, NewDepth(fs, dst), now) && Sealed(r.blocks[b])
    ensures dst.Under? ==>
      InodeAt(r, dst.dir) == InodeAt(fs, dst.dir).(direct := AddSlot(InodeAt(fs, dst.dir).direct, WrapI32(b)), mtime := now)
    ensures src.Below? ==>
      InodeAt(r, src.dir) == InodeAt(fs, src.dir).(direct := RemoveSlot(InodeAt(fs, src.dir).direct, b), mtime := now)
  {
    var h: Fs;
    if dst.AtRoot? {
      h := HeadRoot(fs, b, name, retitle, now);
    } else {
      var a := HeadUnder(fs, b, dst.dir, name, retitle, now);
      h := a.fs;
    }
    if src.Below? {
      assert InodeAt(h, src.dir) == InodeAt(fs, src.dir);
    }
    r := TailSpec(h, b, src, now);
    KeptTrans(fs, h, r);
    OnlyTrans(fs, h, r, b, Home(src, b), Dest(dst, b));
    if dst.Under? {
      assert InodeAt(r, dst.dir) == InodeAt(h, dst.dir);
    }
  }

  // ---------------------------------------------------------------------------
  // The command

  /** On a tidy well-formed container the lookups of mv fault only on a parent that
      overruns its buffer; the source they find is a live entry of the inode region, of
      the kind the old path names, and both parents they find are directories of that
      region. */
  lemma PrepareTidy(fs: Fs, oldpath: CStr, newpath: CStr)
    requires WellFormed(fs) && Tidy(fs)
    ensures var p := Prepare(fs, oldpath, newpath);
      && (p.Ok? <==> ParentFits(oldpath) && ParentFits(newpath))
      && (p.Ok? && p.v.Go? ==>
            && InInodes(fs, p.v.src.b) && Exists(InodeAt(fs, p.v.src.b)) && (IsDir(InodeAt(fs, p.v.src.b)) <==> p.v.isDir)
            && (p.v.src.Below? ==> InInodes(fs, p.v.src.dir) && IsDir(InodeAt(fs, p.v.src.dir)))
            && (p.v.dst.Under? ==> InInodes(fs, p.v.dst.dir) && IsDir(InodeAt(fs, p.v.dst.dir))))
  {
    if ParentFits(oldpath) && ParentFits(newpath) {
      var s1 := SplitPath(oldpath);
      var s2 := SplitPath(newpath);
      TidyLocate(fs, Resplit(s1), IsFolderPath(s1.parent, s1.name));
      VacancySpec(fs, Resplit(s2), IsFolderPath(s2.parent, s2.name));
    }
  }

  /** mv answers 0 or 1 unless the new parent is full. It answers 1, leaving the container
      as it was, exactly when a lookup refused (missing source or parent, destination
      taken) or a directory was to become a file; it faults only in the lookups. */
  lemma MvOutcome(fs: Fs, oldpath: CStr, newpath: CStr, now: u32)
    ensures var r := CmdMvFixed(fs, oldpath, newpath, now);
      var p := Prepare(fs, oldpath, newpath);
      && (r.Ok? ==> r.v == 0 || r.v == 1)
      && (r.Ok? && r.v == 1 <==> p.Ok? && (p.v.Refused? || (p.v.isDir && !p.v.isDir2)))
      && (r.Ok? && r.v == 1 ==> r.fs == fs)
      && (r.Fault? <==> !p.Ok?)
  {
    var p := Prepare(fs, oldpath, newpath);
    if p.Ok? && p.v.Go? {
      CommitOutcome(fs, p.v, now);
    }
  }

  /** Once the lookups succeeded, the commit never faults; it answers 1, changing
      nothing, exactly when a directory would be moved onto a file. */
  lemma CommitOutcome(fs: Fs, g: Order, now: u32)
    requires Fits(fs, g) && g.Go?
    ensures var r := Commit(fs, g, now);
      && !r.Fault?
      && (r.Ok? ==> r.v == 0 || r.v == 1)
      && (r.Ok? && r.v == 1 <==> g.isDir && !g.isDir2)
      && (r.Ok? && r.v == 1 ==> r.fs == fs)
  {
    if g.isDir == g.isDir2 && !g.same {
      ShiftAnswers(fs, g.src.b, g.src, g.dst, g.name, true, now);
    } else if g.isDir != g.isDir2 && g.isDir2 {
      ShiftAnswers(fs, g.src.b, g.src, g.dst, g.name, false, now);
    }
  }

  /** The move never faults on blocks of the container; when it returns, it answers 0. */
  lemma ShiftAnswers(fs: Fs, b: int, src: Place, dst: Spot, name: CStr, retitle: bool, now: u32)
    requires InRange(fs, b) && (src.Below? ==> InRange(fs, src.dir))
    requires dst.AtRoot? || (dst.Under? && InRange(fs, dst.dir))
    ensures var r := Shift(fs, b, src, dst, name, retitle, now);
      !r.Fault? && (r.Ok? ==> r.v == 0)
  {
    assert !Head(fs, b, dst, name, retitle, now).Fault?;
  }

  /** As written, mv faults as soon as the source lookup finds a root-level file,
      whatever the destination, and agrees with the corrected version otherwise; the two
      differ only where the corrected one goes on past that lookup. */
  lemma MvAsWritten(fs: Fs, oldpath: CStr, newpath: CStr, now: u32)
    ensures CmdMv(fs, oldpath, newpath, now)
      == if ParentFits(newpath) && RootFileSource(fs, oldpath) then Fault else CmdMvFixed(fs, oldpath, newpath, now)
    ensures ParentFits(newpath) && RootFileSource(fs, oldpath) ==>
      var p := Prepare(fs, oldpath, newpath);
      p.Ok? && p.v.Go? ==> !p.v.isDir && p.v.src.Top?
  {
    if ParentFits(newpath) && RootFileSource(fs, oldpath) {
      var s1 := SplitPath(oldpath);
      assert Resplit(s1) == s1;
      var p := Prepare(fs, oldpath, newpath);
      if p.Ok? && p.v.Go? {
        assert p.v.src == Locate(fs, s1, false).v;
      }
    }
  }

  /** On a well-formed container the source lookup finds a root-level file exactly when
      the source is a file path with no parent and some depth-0 file of the inode table
      bears its name. */
  lemma RootFileSourceSpec(fs: Fs, oldpath: CStr)
    requires WellFormed(fs)
    ensures var s1 := SplitPath(oldpath);
      RootFileSource(fs, oldpath) <==>
        (!IsFolderPath(s1.parent, s1.name) && |s1.parent| == 0
         && exists k :: 0 <= k < Geom(fs).nbi && RootAt(fs, k, s1.name, false))
  {
    RootPlace(fs, SplitPath(oldpath));
  }

  /** The file lookup of a split path finds a root-level entry exactly when the parent
      is empty and a depth-0 file of that name exists. */
  lemma RootPlace(fs: Fs, s: Split)
    requires WellFormed(fs)
    ensures var p := Locate(fs, s, false);
      (p.Ok? && p.v.Top?) <==>
        (|s.parent| == 0 && exists k :: 0 <= k < Geom(fs).nbi && RootAt(fs, k, s.name, false))
  {
    if |s.parent| == 0 {
      FindInodeRacineSpec(fs, s.name, false, 0);
      var f := FindInodeRacine(fs, s.name, false, 0);
      if f.v != -1 {
        assert RootAt(fs, f.v - Geom(fs).InodeStart(), s.name, false);
      }
    }
  }

  /** As written, `mv a newpath` for a root-level file a faults, whatever newpath names:
      a taken name, a missing parent or a free place alike. */
  lemma MvRootFileFaults(fs: Fs, a: CStr, newpath: CStr, now: u32)
    requires WellFormed(fs) && 0 < |a| <= 255 && NoSlash(a) && ParentFits(newpath)
    requires exists k :: 0 <= k < Geom(fs).nbi && RootAt(fs, k, a, false)
    ensures CmdMv(fs, a, newpath, now) == Fault
  {
    SplitBare(a);
    RootFileSourceSpec(fs, a);
  }

  /** A rename on a tidy well-formed container (same kind, same parent string) answers 0
      and writes only the entry: it keeps its slots, depth and links, takes the new name
      when one is given, stays sealed, and is then found under that name at its place; the
      bitmap is untouched and the counters stay honest. */
  lemma MvRename(fs: Fs, oldpath: CStr, newpath: CStr, now: u32) returns (b: int, r: Fs)
    requires WellFormed(fs) && Tidy(fs)
    requires var p := Prepare(fs, oldpath, newpath);
      p.Ok? && p.v.Go? && p.v.same && p.v.isDir == p.v.isDir2
    ensures var g := Prepare(fs, oldpath, newpath).v;
      && b == g.src.b && CmdMvFixed(fs, oldpath, newpath, now) == Ok(r, 0)
      && Kept(fs, r) && Only(fs, r, b, b, b) && Sealed(r.blocks[b])
      && InodeAt(r, b) == Retitle(InodeAt(fs, b), g.name).(mtime := now)
      && (|g.name| > 0 && g.src.Top? ==> RootMatch(InodeAt(r, b), g.name, g.isDir))
      && (|g.name| > 0 && g.src.Below? ==> ChildMatch(InodeAt(r, b), g.name, g.isDir) && b in InodeAt(r, g.src.dir).direct)
  {
    var g := Prepare(fs, oldpath, newpath).v;
    b := g.src.b;
    var s1 := SplitPath(oldpath);
    TidyLocate(fs, Resplit(s1), IsFolderPath(s1.parent, s1.name));
    r := RewriteInodeSpec(fs, b, Retitle(InodeAt(fs, b), g.name).(mtime := now));
    if |g.name| > 0 {
      RetitledMatch(InodeAt(fs, b), InodeAt(r, b), g.name, g.isDir, now);
    }
  }

  /** An entry given a new name of at most 255 bytes is found under that name, as the
      same kind, and still at the root when it was there. */
  lemma RetitledMatch(n: Inode, m: Inode, name: CStr, isDir: bool, now: u32)
    requires 0 < |name| <= 255 && m == Retitle(n, name).(mtime := now)
    requires Exists(n) && (IsDir(n) <==> isDir)
    ensures ChildMatch(m, name, isDir) && (n.depth == 0 ==> RootMatch(m, name, isDir))
  {
    NameRoundTrip(name);
  }

  /** A move on a tidy well-formed container (same kind under another parent string, or
      a file to a directory path), when the entry, its old parent and its new parent are
      three blocks and the new parent has room: mv answers 0; only the entry
      and its two parents change and the counters stay honest; the entry is sealed, with
      the new name when both paths name the same kind (a file sent to a directory path
      keeps its own), depth 0 at the root and the new parent's plus one below it; the
      new parent lists it and the old one no longer does at its first slot that did. */
  lemma MvMove(fs: Fs, oldpath: CStr, newpath: CStr, now: u32) returns (b: int, r: Fs)
    requires WellFormed(fs) && Tidy(fs)
    requires var p := Prepare(fs, oldpath, newpath);
      && p.Ok? && p.v.Go? && (p.v.isDir == p.v.isDir2 ==> !p.v.same) && (p.v.isDir2 || !p.v.isDir)
      && (p.v.dst.Under? ==> p.v.dst.dir != p.v.src.b && NoBlock in InodeAt(fs, p.v.dst.dir).direct)
      && (p.v.src.Below? ==> p.v.src.dir != p.v.src.b)
      && (p.v.dst.Under? && p.v.src.Below? ==> p.v.dst.dir != p.v.src.dir)
    ensures var g := Prepare(fs, oldpath, newpath).v;
      && b == g.src.b && CmdMvFixed(fs, oldpath, newpath, now) == Ok(r, 0)
      && Kept(fs, r) && Only(fs, r, b, Home(g.src, b), Dest(g.dst, b)) && Sealed(r.blocks[b])
      && InodeAt(r, b) == Moved(InodeAt(fs, b), g.name, g.isDir == g.isDir2, NewDepth(fs, g.dst), now)
      && (g.dst.Under? ==> WrapI32(b) in InodeAt(r, g.dst.dir).direct)
      && (g.src.Below? ==>
            InodeAt(r, g.src.dir).direct == RemoveSlot(InodeAt(fs, g.src.dir).direct, b))
  {
    var g := Prepare(fs, oldpath, newpath).v;
    b := g.src.b;
    MovePrepared(fs, oldpath, newpath, now);
    r := ShiftSpec(fs, b, g.src, g.dst, g.name, g.isDir == g.isDir2, now);
    if g.dst.Under? {
      AddSlotSpec(InodeAt(fs, g.dst.dir).direct, WrapI32(b));
    }
  }

  /** A move that got past the lookups is the shift of the entry the source lookup
      found, whose places are apart from it. */
  lemma MovePrepared(fs: Fs, oldpath: CStr, newpath: CStr, now: u32)
    requires WellFormed(fs) && Tidy(fs)
    requires var p := Prepare(fs, oldpath, newpath);
      && p.Ok? && p.v.Go? && (p.v.isDir == p.v.isDir2 ==> !p.v.same) && (p.v.isDir2 || !p.v.isDir)
      && (p.v.dst.Under? ==> p.v.dst.dir != p.v.src.b)
      && (p.v.src.Below? ==> p.v.src.dir != p.v.src.b)
      && (p.v.dst.Under? && p.v.src.Below? ==> p.v.dst.dir != p.v.src.dir)
    ensures var g := Prepare(fs, oldpath, newpath).v;
      && Apart(fs, g.src.b, g.src, g.dst)
      && CmdMvFixed(fs, oldpath, newpath, now) == Shift(fs, g.src.b, g.src, g.dst, g.name, g.isDir == g.isDir2, now)
  {
    PrepareTidy(fs, oldpath, newpath);
  }

  /** A move into a full directory is fatal; the entry alone has been written. */
  lemma MvFull(fs: Fs, oldpath: CStr, newpath: CStr, now: u32)
    requires WellFormed(fs) && Tidy(fs)
    requires var p := Prepare(fs, oldpath, newpath);
      && p.Ok? && p.v.Go? && (p.v.isDir == p.v.isDir2 ==> !p.v.same) && (p.v.isDir2 || !p.v.isDir)
      && p.v.dst.Under? && p.v.dst.dir != p.v.src.b && NoBlock !in InodeAt(fs, p.v.dst.dir).direct
      && (p.v.src.Below? ==> p.v.dst.dir != p.v.src.dir && p.v.src.dir != p.v.src.b)
    ensures var r := CmdMvFixed(fs, oldpath, newpath, now);
      r.Exit? && Only(fs, r.fs, Prepare(fs, oldpath, newpath).v.src.b, Prepare(fs, oldpath, newpath).v.src.b, Prepare(fs, oldpath, newpath).v.src.b)
  {
    var g := Prepare(fs, oldpath, newpath).v;
    MovePrepared(fs, oldpath, newpath, now);
    ShiftFull(fs, g.src.b, g.src, g.dst.dir, g.name, g.isDir == g.isDir2, now);
  }

  // ---------------------------------------------------------------------------
  // Renaming a root-level file

  /** A bare name splits into an empty parent and itself. */
  lemma SplitBare(path: CStr)
    requires 0 < |path| <= 255 && NoSlash(path)
    ensures SplitPath(path) == Split([], path) && Resplit(SplitPath(path)) == Split([], path)
  {
  }

  /** `mv a b` on a tidy well-formed container holding a root-level file a and no
      root-level file b: as written it faults, writing through the inode index -1;
      corrected, it answers 0 and the file is then found at the root under the name b. */
  lemma MvRootFile(fs: Fs, a: CStr, b: CStr, now: u32) returns (r: Fs)
    requires WellFormed(fs) && Tidy(fs)
    requires 0 < |a| <= 255 && NoSlash(a) && 0 < |b| <= 255 && NoSlash(b)
    requires exists k :: 0 <= k < Geom(fs).nbi && RootAt(fs, k, a, false)
    requires forall k :: 0 <= k < Geom(fs).nbi ==> !RootAt(fs, k, b, false)
    ensures CmdMv(fs, a, b, now) == Fault
    ensures CmdMvFixed(fs, a, b, now) == Ok(r, 0)
    ensures var x := Locate(fs, Split([], a), false).v.b; RootMatch(InodeAt(r, x), b, false)
  {
    RootFileGo(fs, a, b);
    MvRootFileFaults(fs, a, b, now);
    var x;
    x, r := MvRename(fs, a, b, now);
  }

  /** Both lookups of a root-level file renamed to a free root-level name succeed: the
      order is a same-parent move of the file the source lookup found, to the new name. */
  lemma RootFileGo(fs: Fs, a: CStr, b: CStr)
    requires WellFormed(fs) && Tidy(fs)
    requires 0 < |a| <= 255 && NoSlash(a) && 0 < |b| <= 255 && NoSlash(b)
    requires exists k :: 0 <= k < Geom(fs).nbi && RootAt(fs, k, a, false)
    requires forall k :: 0 <= k < Geom(fs).nbi ==> !RootAt(fs, k, b, false)
    ensures var p := Prepare(fs, a, b);
      && p.Ok? && p.v.Go? && p.v.same && !p.v.isDir && !p.v.isDir2 && p.v.src.Top?
      && p.v.name == b && p.v.src.b == Locate(fs, Split([], a), false).v.b
  {
    SplitBare(a);
    SplitBare(b);
    FindInodeRacineSpec(fs, a, false, 0);
    VacancySpec(fs, Split([], b), false);
  }
}
