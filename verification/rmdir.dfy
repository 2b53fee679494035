/** `cmd_rmdir` and `delete_children` (src/cmd_rmdir.c): delete a directory and what it
    holds. The path is split, and re-split while the parent is non-empty and the last
    component empty, so "a/b/" names b in a. The directory is looked up (a depth-0
    directory at the root, otherwise a directory listed by the parent folder) and must
    pass the gate of rm. `delete_children` then walks its 900 slots in order: a
    sub-directory is emptied first, recursively; then a child that passes the gate is
    deleted and its slot set to -1, while a refused child keeps its slot. The directory is
    rehashed, deleted with `delete_inode`, and a nested one is unlinked from its parent.
 */
module Rmdir {
  import opened Codec
  import opened Blocks
  import opened Container
  import opened Paths
  import opened Entries
  import opened Directories
  import opened DirTree
  import opened Lookup
  import opened Teardown
  import opened Rm
  import Growth

  // ---------------------------------------------------------------------------
  // The re-split loop

  lemma ParentShrinks(p: CStr)
    requires |p| > 0
    ensures |SplitPath(p).parent| < |p|
  {
  }

  /** The `goto boucle` loop: while the parent is non-empty and the last component is
      empty, split the parent again. It stops with an empty parent or a named last
      component. */
  function Settle(s: Split): (r: Split)
    ensures |r.parent| == 0 || |r.name| > 0
    decreases |s.parent|
  {
    if |s.parent| == 0 || |s.name| > 0 then s
    else
      ParentShrinks(s.parent);
      Settle(SplitPath(s.parent))
  }

  /** A trailing slash makes no difference to the directory rmdir aims at. */
  lemma SettleTrailingSlash(p: CStr)
    ensures Settle(SplitPath(p + [Slash])) == Settle(SplitPath(p))
  {
    var q := p + [Slash];
    assert LastSlash(q) == |p|;
    assert q[..|p|] == p;
    assert q[|p| + 1..] == [];
  }

  // ---------------------------------------------------------------------------
  // delete_children

  /** `dir->direct_blocks[i] = -1`, written without rehashing. */
  function Unlist(fs: Fs, d: int, i: int): (r: Fs)
    requires InRange(fs, d) && 0 <= i < 900
    ensures |r.blocks| == |fs.blocks|
  {
    var n := InodeAt(fs, d);
    SetInode(fs, d, n.(direct := n.direct[i := NoBlock]))
  }

  /** The slot loop of `delete_children` over directory d from slot i, re-reading d and
      each child after every write. A slot holding -1 is skipped; any other slot outside
      the container is a wild pointer. A child directory is emptied first, with one unit
      of fuel less; then the child is deleted and its slot cleared when it passes the
      gate. At the end d is rehashed. Running out of fuel stands for the unbounded
      recursion of a directory that contains itself. */
  function DeleteChildren(fs: Fs, d: int, i: int, fuel: nat, now: u32): (r: Res<()>)
    requires InRange(fs, d) && 0 <= i <= 900
    ensures r.Ok? ==> |r.fs.blocks| == |fs.blocks|
    decreases fuel, 900 - i
  {
    if i == 900 then Ok(Rehash(fs, d), ())
    else
      var c := InodeAt(fs, d).direct[i] as int;
      if c == NoBlock as int then DeleteChildren(fs, d, i + 1, fuel, now)
      else if !InRange(fs, c) then Fault
      else
        var sub := if !IsDir(InodeAt(fs, c)) then Ok(fs, ())
                   else if fuel == 0 then Fault
                   else DeleteChildren(fs, c, 0, fuel - 1, now);
        if !sub.Ok? then Fault
        else if !Deletable(InodeAt(sub.fs, c)) then DeleteChildren(sub.fs, d, i + 1, fuel, now)
        else
          var t := DeleteInode(sub.fs, c, now);
          if !t.Ok? then Fault else DeleteChildren(Unlist(t.fs, d, i), d, i + 1, fuel, now)
  }

  /** The end of `cmd_rmdir` once directory b is found: 1 when the gate refuses, with
      nothing changed; otherwise its children are deleted, then the directory itself. */
  function DropDirectory(fs: Fs, b: int, now: u32): (r: Res<int>)
    requires InRange(fs, b)
    ensures r.Ok? ==> |r.fs.blocks| == |fs.blocks| && (r.v == 0 || r.v == 1)
    ensures r.Ok? && r.v == 1 <==> !Deletable(InodeAt(fs, b))
    ensures r.Ok? && r.v == 1 ==> r.fs == fs
  {
    if !Deletable(InodeAt(fs, b)) then Ok(fs, 1)
    else
      var t := DeleteChildren(fs, b, 0, |fs.blocks|, now);
      if !t.Ok? then Fault
      else
        var u := DeleteInode(t.fs, b, now);
        if !u.Ok? then Fault else Ok(u.fs, 0)
  }

  /** `cmd_rmdir(path)` at time now. */
  function CmdRmdir(fs: Fs, path: CStr, now: u32): (r: Res<int>)
  {
    if !ParentFits(path) then Fault
    else
      var p := Locate(fs, Settle(SplitPath(path)), true);
      if !p.Ok? then Fault
      else match p.v
        case Missing => Ok(fs, 1)
        case Top(b) => DropDirectory(fs, b, now)
        case Below(d, b) =>
          var t := DropDirectory(fs, b, now);
          if t.Ok? && t.v == 0 then Ok(DeleteSeparteInode(t.fs, d, b, now), 0) else t
  }

  /** What the directory lookup finds is a live directory. */
  lemma LocateDirectory(fs: Fs, s: Split)
    ensures var p := Locate(fs, s, true);
      p.Ok? && !p.v.Missing? ==> Exists(InodeAt(fs, p.v.b)) && IsDir(InodeAt(fs, p.v.b))
  {
    var p := Locate(fs, s, true);
    if p.Ok? && !p.v.Missing? {
      if p.v.Top? {
        FindInodeRacineSpec(fs, s.name, true, 0);
        assert RootAt(fs, p.v.b - Geom(fs).InodeStart(), s.name, true);
      } else {
        var d := FindInodeFolder(fs, s.parent);
        FindFileFolderFromInodeSpec(fs, InodeAt(fs, d.v).direct, s.name, true, 0);
      }
    }
  }

  /** rmdir answers 0 or 1. It answers 1, leaving the container as it was, exactly when
      the directory is missing or refused by the gate; 0 means a live directory that
      passed the gate was found. */
  lemma RmdirOutcome(fs: Fs, path: CStr, now: u32)
    ensures var r := CmdRmdir(fs, path, now);
      var p := Locate(fs, Settle(SplitPath(path)), true);
      && (r.Ok? ==> r.v == 0 || r.v == 1)
      && (r.Ok? && r.v == 1 <==> ParentFits(path) && p.Ok? && (p.v.Missing? || !Deletable(InodeAt(fs, p.v.b))))
      && (r.Ok? && r.v == 1 ==> r.fs == fs)
      && (r.Ok? && r.v == 0 ==>
            !p.v.Missing? && Deletable(InodeAt(fs, p.v.b)) && Exists(InodeAt(fs, p.v.b)) && IsDir(InodeAt(fs, p.v.b)))
  {
    var s := Settle(SplitPath(path));
    LocateDirectory(fs, s);
    var p := Locate(fs, s, true);
    if ParentFits(path) && p.Ok? && !p.v.Missing? {
      var t := DropDirectory(fs, p.v.b, now);
      if p.v.Below? {
        assert CmdRmdir(fs, path, now) == if t.Ok? && t.v == 0 then Ok(DeleteSeparteInode(t.fs, p.v.dir, p.v.b, now), 0) else t;
      } else {
        assert CmdRmdir(fs, path, now) == t;
      }
    }
  }

  // ---------------------------------------------------------------------------
  // delete_children over a directory that holds only files

  /** Child c passes the gate, so `delete_children` deletes it. */
  predicate Gone(fs: Fs, c: int) {
    c != NoBlock as int && InRange(fs, c) && Deletable(InodeAt(fs, c))
  }

  /** Slot k of directory d once `delete_children` has run: emptied when its child
      passed the gate, kept otherwise. */
  function Swept(fs: Fs, d: int, k: int): int
    requires InRange(fs, d) && 0 <= k < 900
  {
    var c := InodeAt(fs, d).direct[k] as int;
    if Gone(fs, c) then NoBlock as int else c
  }

  /** Child c of directory d is a live file of the inode region, other than d, whose
      blocks are owned and distinct. */
  predicate Leaf(fs: Fs, d: int, c: int) {
    && InRange(fs, c) && InInodes(fs, c) && c != d && LiveAt(fs, c) && !IsDir(InodeAt(fs, c))
    && Releasable(fs, FileBlocks(fs, c), {c})
  }

  /** Files x and y own no block in common. */
  predicate Apart(fs: Fs, x: int, y: int) {
    InRange(fs, x) && InRange(fs, y) && forall b :: b in FileBlocks(fs, x) ==> b !in FileBlocks(fs, y)
  }

  /** Directory d of the inode region lists only files, each once, no two of them
      sharing a block. */
  ghost predicate Flat(fs: Fs, d: int) {
    && WellFormed(fs) && InRange(fs, d) && InInodes(fs, d)
    && var dir := InodeAt(fs, d).direct;
       && (forall k :: 0 <= k < 900 && dir[k] != NoBlock ==> Leaf(fs, d, dir[k] as int))
       && (forall k, j :: 0 <= k < 900 && 0 <= j < 900 && k != j && dir[k] != NoBlock && dir[j] != NoBlock ==>
             dir[k] != dir[j] && Apart(fs, dir[k] as int, dir[j] as int))
  }

  /** fs has the layout of fs0, and honest counters whenever fs0 had them. */
  ghost predicate Same(fs0: Fs, fs: Fs) {
    WellFormed(fs) && Geom(fs) == Geom(fs0) && |fs.blocks| == |fs0.blocks| && (Counted(fs0) ==> Counted(fs))
  }

  /** File c and its blocks are as in fs0, bits included. */
  ghost predicate Intact(fs0: Fs, fs: Fs, c: int) {
    && InRange(fs0, c) && |fs.blocks| == |fs0.blocks| && fs.blocks[c] == fs0.blocks[c]
    && forall x :: x in FileBlocks(fs0, c) && InRange(fs0, x) ==> fs.blocks[x] == fs0.blocks[x] && FreeAt(fs, x) == FreeAt(fs0, x)
  }

  /** File c of fs0 is deleted in fs: its inode no longer exists, and its own bit and
      the bits of its blocks are free. */
  ghost predicate Freed(fs0: Fs, fs: Fs, c: int) {
    && InRange(fs0, c) && !LiveAt(fs, c) && FreeAt(fs, c)
    && forall x :: x in FileBlocks(fs0, c) ==> FreeAt(fs, x)
  }

  /** Directory d differs from its state in fs0 only in its slots: those before i hold
      their final value, the others their first. */
  ghost predicate DirSoFar(fs0: Fs, fs: Fs, d: int, i: int) {
    && InRange(fs0, d) && InRange(fs, d)
    && var n := InodeAt(fs, d);
       && n == InodeAt(fs0, d).(direct := n.direct)
       && forall k :: 0 <= k < 900 ==> n.direct[k] as int == if k < i then Swept(fs0, d, k) else InodeAt(fs0, d).direct[k] as int
  }

  /** The children of the slots from i on are untouched. */
  ghost predicate Ahead(fs0: Fs, fs: Fs, d: int, i: int)
    requires InRange(fs0, d)
  {
    var dir := InodeAt(fs0, d).direct;
    forall k :: 0 <= k && i <= k < 900 && dir[k] != NoBlock ==> Intact(fs0, fs, dir[k] as int)
  }

  /** The children of the slots before i are deleted when they passed the gate, and
      untouched otherwise. */
  ghost predicate Behind(fs0: Fs, fs: Fs, d: int, i: int)
    requires InRange(fs0, d) && |fs.blocks| == |fs0.blocks|
  {
    var dir := InodeAt(fs0, d).direct;
    forall k :: 0 <= k < i && k < 900 && dir[k] != NoBlock ==>
      InRange(fs0, dir[k] as int) &&
      if Gone(fs0, dir[k] as int) then Freed(fs0, fs, dir[k] as int) else fs.blocks[dir[k]] == fs0.blocks[dir[k]]
  }

  /** The state of `delete_children` over d after i slots. */
  ghost predicate Midway(fs0: Fs, fs: Fs, d: int, i: int) {
    InRange(fs0, d) && Same(fs0, fs) && DirSoFar(fs0, fs, d, i) && Ahead(fs0, fs, d, i) && Behind(fs0, fs, d, i)
  }

  /** The state `delete_children` leaves: d's slots swept, d rehashed, every child that
      passed the gate deleted and every other one untouched. */
  ghost predicate Done(fs0: Fs, r: Fs, d: int) {
    && InRange(fs0, d) && Same(fs0, r) && DirSoFar(fs0, r, d, 900) && Sealed(r.blocks[d]) && Behind(fs0, r, d, 900)
  }

  /** Clearing a slot of an inode past the bitmap touches nothing else and keeps the
      counters honest. */
  lemma UnlistSpec(fs: Fs, d: int, i: int) returns (r: Fs)
    requires WellFormed(fs) && InRange(fs, d) && d > Geom(fs).nb1 && 0 <= i < 900
    ensures r == Unlist(fs, d, i)
    ensures WellFormed(r) && Geom(r) == Geom(fs) && (forall c :: FreeAt(r, c) == FreeAt(fs, c))
    ensures forall c :: 0 <= c < |fs.blocks| && c != d ==> r.blocks[c] == fs.blocks[c]
    ensures InodeAt(r, d) == InodeAt(fs, d).(direct := InodeAt(fs, d).direct[i := NoBlock])
    ensures Counted(fs) ==> Counted(r)
  {
    r := Unlist(fs, d, i);
    WriteAboveHeader(fs, r, d);
    if Counted(fs) {
      var g := Geom(fs);
      FreeCountFrame(fs, r, g.DataStart(), g.nbb);
      LiveCountFrame(fs, r, g.InodeStart(), g.DataStart());
    }
  }

  /** Rehashing a block past the bitmap changes no view of any block. */
  lemma RehashSpec(fs: Fs, d: int) returns (r: Fs)
    requires WellFormed(fs) && InRange(fs, d) && d > Geom(fs).nb1
    ensures r == Rehash(fs, d)
    ensures WellFormed(r) && Geom(r) == Geom(fs) && (forall c :: FreeAt(r, c) == FreeAt(fs, c))
    ensures forall c :: 0 <= c < |fs.blocks| && c != d ==> r.blocks[c] == fs.blocks[c]
    ensures InodeAt(r, d) == InodeAt(fs, d) && Sealed(r.blocks[d])
    ensures Counted(fs) ==> Counted(r)
  {
    r := Rehash(fs, d);
    WriteAboveHeader(fs, r, d);
    if Counted(fs) {
      var g := Geom(fs);
      FreeCountFrame(fs, r, g.DataStart(), g.nbb);
      LiveCountFrame(fs, r, g.InodeStart(), g.DataStart());
    }
  }

  /** A slot holding -1 changes nothing. */
  lemma MidwaySkip(fs0: Fs, fs: Fs, d: int, i: int)
    requires Flat(fs0, d) && 0 <= i < 900 && Midway(fs0, fs, d, i)
    requires InodeAt(fs0, d).direct[i] == NoBlock
    ensures Midway(fs0, fs, d, i + 1)
  {
  }

  /** A child refused by the gate keeps its slot and its state. */
  lemma MidwayKeep(fs0: Fs, fs: Fs, d: int, i: int)
    requires Flat(fs0, d) && 0 <= i < 900 && Midway(fs0, fs, d, i)
    requires InodeAt(fs0, d).direct[i] != NoBlock && !Gone(fs0, InodeAt(fs0, d).direct[i] as int)
    ensures Midway(fs0, fs, d, i + 1)
  {
    var c := InodeAt(fs0, d).direct[i] as int;
    assert Intact(fs0, fs, c);
  }

  /** fs2 is fs with the file c deleted: nothing in the inode and data regions changed
      but c, its blocks L and directory d, and c no longer exists. */
  ghost predicate StepFrame(fs: Fs, fs2: Fs, d: int, c: int, L: seq<int>) {
    && |fs2.blocks| == |fs.blocks| && InRange(fs, c) && !LiveAt(fs2, c)
    && forall x :: InRange(fs, x) && Geom(fs).InodeStart() <= x && x !in L && x != c && x != d ==> fs2.blocks[x] == fs.blocks[x]
  }

  /** The bits of c and of its blocks L are free in fs2, and no other bit changed. */
  ghost predicate StepBits(fs: Fs, fs2: Fs, c: int, L: seq<int>) {
    && (forall x :: x !in L && x != c ==> FreeAt(fs2, x) == FreeAt(fs, x))
    && (forall x :: x in L ==> FreeAt(fs2, x))
    && FreeAt(fs2, c)
  }

  /** fs2 is fs with the file c, owning blocks L, deleted, and nothing else changed in the
      inode and data regions but directory d. */
  ghost predicate Stepped(fs: Fs, fs2: Fs, d: int, c: int, L: seq<int>) {
    StepFrame(fs, fs2, d, c, L) && StepBits(fs, fs2, c, L)
  }

  /** A child of a flat directory still untouched is ready for `delete_inode`: its
      blocks are those it had, still owned and distinct, and it is still live. */
  lemma ChildReady(fs0: Fs, fs: Fs, d: int, c: int)
    requires Leaf(fs0, d, c) && Intact(fs0, fs, c) && Same(fs0, fs)
    ensures InodeAt(fs, c) == InodeAt(fs0, c) && LiveAt(fs, c) && InInodes(fs, c)
    ensures FileBlocks(fs, c) == FileBlocks(fs0, c) && Releasable(fs, FileBlocks(fs, c), {c})
  {
    var L := FileBlocks(fs0, c);
    forall x | x in L && InRange(fs0, x)
      ensures fs.blocks[x] == fs0.blocks[x]
    {
    }
    FileBlocksFrame(fs0, fs, c);
    ReleasableFrame(fs0, fs, L, {c});
  }

  /** `delete_inode` on a ready file of the inode region, in the terms of `Stepped`. */
  lemma DeleteChild(fs: Fs, c: int, now: u32) returns (t: Fs)
    requires WellFormed(fs) && InRange(fs, c) && InInodes(fs, c) && Releasable(fs, FileBlocks(fs, c), {c})
    ensures DeleteInode(fs, c, now).Ok? && DeleteInode(fs, c, now).fs == t
    ensures WellFormed(t) && Geom(t) == Geom(fs) && Stepped(fs, t, c, c, FileBlocks(fs, c))
    ensures Counted(fs) && LiveAt(fs, c) ==> Counted(t)
  {
    t := DeleteInodeSpec(fs, c, now);
  }

  /** Clearing a slot of d after the deletion keeps the deletion's frame, now with d
      excepted. */
  lemma FrameUnlist(fs: Fs, t: Fs, fs2: Fs, d: int, c: int, L: seq<int>)
    requires StepFrame(fs, t, c, c, L) && InRange(t, d) && c != d
    requires |fs2.blocks| == |t.blocks| && forall x :: 0 <= x < |t.blocks| && x != d ==> fs2.blocks[x] == t.blocks[x]
    ensures StepFrame(fs, fs2, d, c, L)
  {
    forall x | InRange(fs, x) && Geom(fs).InodeStart() <= x && x !in L && x != c && x != d
      ensures fs2.blocks[x] == fs.blocks[x]
    {
      assert t.blocks[x] == fs.blocks[x];
    }
    assert fs2.blocks[c] == t.blocks[c];
  }

  /** Clearing a slot changes no bit. */
  lemma BitsUnlist(fs: Fs, t: Fs, fs2: Fs, c: int, L: seq<int>)
    requires StepBits(fs, t, c, L)
    requires forall x :: FreeAt(fs2, x) == FreeAt(t, x)
    ensures StepBits(fs, fs2, c, L)
  {
  }

  /** Deleting child c of slot i and clearing the slot: the file is torn down as
      `delete_inode` promises, and d loses only that slot. */
  lemma DeleteStep(fs0: Fs, fs: Fs, d: int, i: int, now: u32) returns (fs2: Fs)
    requires Flat(fs0, d) && 0 <= i < 900 && Midway(fs0, fs, d, i)
    requires Gone(fs0, InodeAt(fs0, d).direct[i] as int)
    ensures var c := InodeAt(fs0, d).direct[i] as int;
      && DeleteInode(fs, c, now).Ok? && fs2 == Unlist(DeleteInode(fs, c, now).fs, d, i)
      && Same(fs0, fs2) && Stepped(fs, fs2, d, c, FileBlocks(fs0, c))
      && InodeAt(fs2, d) == InodeAt(fs, d).(direct := InodeAt(fs, d).direct[i := NoBlock])
  {
    var c := InodeAt(fs0, d).direct[i] as int;
    assert Leaf(fs0, d, c) && Intact(fs0, fs, c);
    ChildReady(fs0, fs, d, c);
    var L := FileBlocks(fs0, c);
    var t := DeleteChild(fs, c, now);
    assert d !in L by {
      assert Growth.Owned(fs, d) ==> false;
    }
    assert t.blocks[d] == fs.blocks[d];
    fs2 := UnlistSpec(t, d, i);
    FrameUnlist(fs, t, fs2, d, c, L);
    BitsUnlist(fs, t, fs2, c, L);
  }

  /** After a deletion the children of later slots are still untouched. */
  lemma AheadAfterDelete(fs0: Fs, fs: Fs, fs2: Fs, d: int, i: int)
    requires Flat(fs0, d) && 0 <= i < 900 && Midway(fs0, fs, d, i)
    requires var c := InodeAt(fs0, d).direct[i] as int;
      Gone(fs0, c) && Same(fs0, fs2) && Stepped(fs, fs2, d, c, FileBlocks(fs0, c))
    ensures Ahead(fs0, fs2, d, i + 1)
  {
    var dir := InodeAt(fs0, d).direct;
    var c := dir[i] as int;
    var L := FileBlocks(fs0, c);
    forall k | i + 1 <= k < 900 && dir[k] != NoBlock
      ensures Intact(fs0, fs2, dir[k] as int)
    {
      var e := dir[k] as int;
      assert Leaf(fs0, d, e) && Apart(fs0, c, e) && e != c && Intact(fs0, fs, e);
      assert e !in L by {
        assert Growth.Owned(fs0, e) ==> false;
      }
      forall x | x in FileBlocks(fs0, e) && InRange(fs0, x)
        ensures fs2.blocks[x] == fs0.blocks[x] && FreeAt(fs2, x) == FreeAt(fs0, x)
      {
        assert Growth.Owned(fs0, x);
        assert x !in L;
      }
    }
  }

  /** After a deletion the children of earlier slots keep their fate, and the child of
      slot i is deleted. */
  lemma BehindAfterDelete(fs0: Fs, fs: Fs, fs2: Fs, d: int, i: int)
    requires Flat(fs0, d) && 0 <= i < 900 && Midway(fs0, fs, d, i)
    requires var c := InodeAt(fs0, d).direct[i] as int;
      Gone(fs0, c) && Same(fs0, fs2) && Stepped(fs, fs2, d, c, FileBlocks(fs0, c))
    ensures Behind(fs0, fs2, d, i + 1)
  {
    var dir := InodeAt(fs0, d).direct;
    var c := dir[i] as int;
    var L := FileBlocks(fs0, c);
    forall k | 0 <= k < i && dir[k] != NoBlock
      ensures InRange(fs0, dir[k] as int)
      ensures if Gone(fs0, dir[k] as int) then Freed(fs0, fs2, dir[k] as int) else fs2.blocks[dir[k]] == fs0.blocks[dir[k]]
    {
      var e := dir[k] as int;
      assert Leaf(fs0, d, e) && e != c;
      assert e !in L by {
        assert Growth.Owned(fs0, e) ==> false;
      }
      assert fs2.blocks[e] == fs.blocks[e];
    }
    assert Freed(fs0, fs2, c);
  }

  /** The end of the slot loop: d rehashed, everything else as it was. */
  lemma FlatFinish(fs0: Fs, fs: Fs, d: int) returns (r: Fs)
    requires Flat(fs0, d) && Midway(fs0, fs, d, 900)
    ensures r == Rehash(fs, d) && Done(fs0, r, d)
  {
    r := RehashSpec(fs, d);
    var dir := InodeAt(fs0, d).direct;
    forall k | 0 <= k < 900 && dir[k] != NoBlock
      ensures r.blocks[dir[k]] == fs.blocks[dir[k]]
    {
      assert Leaf(fs0, d, dir[k] as int);
    }
  }

  /** Slot i of d still holds its first child, and that child, when there is one, is as
      it was. */
  lemma SlotAhead(fs0: Fs, fs: Fs, d: int, i: int)
    requires Flat(fs0, d) && 0 <= i < 900 && Midway(fs0, fs, d, i)
    ensures InodeAt(fs, d).direct[i] == InodeAt(fs0, d).direct[i]
    ensures var c := InodeAt(fs0, d).direct[i] as int;
      c != NoBlock as int ==> Leaf(fs0, d, c) && InRange(fs, c) && InodeAt(fs, c) == InodeAt(fs0, c)
  {
    var c := InodeAt(fs0, d).direct[i] as int;
    if c != NoBlock as int {
      assert Leaf(fs0, d, c) && Intact(fs0, fs, c);
    }
  }

  /** One slot of the loop, unfolded: an empty slot is skipped. */
  lemma SkipEq(fs: Fs, d: int, i: int, fuel: nat, now: u32)
    requires InRange(fs, d) && 0 <= i < 900 && InodeAt(fs, d).direct[i] == NoBlock
    ensures DeleteChildren(fs, d, i, fuel, now) == DeleteChildren(fs, d, i + 1, fuel, now)
  {
  }

  /** One slot of the loop, unfolded: a file refused by the gate is kept. */
  lemma KeepEq(fs: Fs, d: int, i: int, fuel: nat, now: u32)
    requires InRange(fs, d) && 0 <= i < 900
    requires var c := InodeAt(fs, d).direct[i] as int;
      c != NoBlock as int && InRange(fs, c) && !IsDir(InodeAt(fs, c)) && !Deletable(InodeAt(fs, c))
    ensures DeleteChildren(fs, d, i, fuel, now) == DeleteChildren(fs, d, i + 1, fuel, now)
  {
  }

  /** One slot of the loop, unfolded: a file that passes the gate is deleted and its
      slot cleared. */
  lemma DropEq(fs: Fs, d: int, i: int, fuel: nat, now: u32)
    requires InRange(fs, d) && 0 <= i < 900
    requires var c := InodeAt(fs, d).direct[i] as int;
      && c != NoBlock as int && InRange(fs, c) && !IsDir(InodeAt(fs, c)) && Deletable(InodeAt(fs, c))
      && DeleteInode(fs, c, now).Ok?
    ensures var c := InodeAt(fs, d).direct[i] as int;
      DeleteChildren(fs, d, i, fuel, now) == DeleteChildren(Unlist(DeleteInode(fs, c, now).fs, d, i), d, i + 1, fuel, now)
  {
  }

  /** The slot loop over a directory holding only files, from a state reached after i
      slots: it cannot fault, and it ends in the state `Done` describes. */
  lemma {:induction false} FlatSweep(fs0: Fs, fs: Fs, d: int, i: int, fuel: nat, now: u32) returns (r: Fs)
    requires Flat(fs0, d) && 0 <= i <= 900 && Midway(fs0, fs, d, i)
    ensures DeleteChildren(fs, d, i, fuel, now).Ok? && DeleteChildren(fs, d, i, fuel, now).fs == r
    ensures Done(fs0, r, d)
    decreases 900 - i
  {
    if i == 900 {
      r := FlatFinish(fs0, fs, d);
    } else {
      var fs2 := SweepStep(fs0, fs, d, i, fuel, now);
      r := FlatSweep(fs0, fs2, d, i + 1, fuel, now);
    }
  }

  /** One slot of the sweep: an empty slot and a file that fails the gate are passed
      over, and a file that passes it is deleted and unlisted. */
  lemma SweepStep(fs0: Fs, fs: Fs, d: int, i: int, fuel: nat, now: u32) returns (fs2: Fs)
    requires Flat(fs0, d) && 0 <= i < 900 && Midway(fs0, fs, d, i)
    ensures Midway(fs0, fs2, d, i + 1)
    ensures DeleteChildren(fs, d, i, fuel, now) == DeleteChildren(fs2, d, i + 1, fuel, now)
  {
    var c := InodeAt(fs0, d).direct[i] as int;
    SlotAhead(fs0, fs, d, i);
    if c == NoBlock as int {
      MidwaySkip(fs0, fs, d, i);
      SkipEq(fs, d, i, fuel, now);
      fs2 := fs;
    } else if !Gone(fs0, c) {
      MidwayKeep(fs0, fs, d, i);
      KeepEq(fs, d, i, fuel, now);
      fs2 := fs;
    } else {
      fs2 := SweepDelete(fs0, fs, d, i, fuel, now);
    }
  }

  /** The slot holds a file that passes the gate: it is deleted and unlisted. */
  lemma SweepDelete(fs0: Fs, fs: Fs, d: int, i: int, fuel: nat, now: u32) returns (fs2: Fs)
    requires Flat(fs0, d) && 0 <= i < 900 && Midway(fs0, fs, d, i)
    requires Gone(fs0, InodeAt(fs0, d).direct[i] as int)
    ensures Midway(fs0, fs2, d, i + 1)
    ensures DeleteChildren(fs, d, i, fuel, now) == DeleteChildren(fs2, d, i + 1, fuel, now)
  {
    SlotAhead(fs0, fs, d, i);
    fs2 := DeleteStep(fs0, fs, d, i, now);
    AheadAfterDelete(fs0, fs, fs2, d, i);
    BehindAfterDelete(fs0, fs, fs2, d, i);
    DropEq(fs, d, i, fuel, now);
  }

  /** Every file a directory lists passes the gate. */
  ghost predicate AllGone(fs: Fs, d: int)
    requires InRange(fs, d)
  {
    forall k :: 0 <= k < 900 && InodeAt(fs, d).direct[k] != NoBlock ==> Gone(fs, InodeAt(fs, d).direct[k] as int)
  }

  /** After sweeping a directory whose every file passed the gate, no slot is listed. */
  lemma SweptEmpty(fs0: Fs, r: Fs, d: int)
    requires Flat(fs0, d) && AllGone(fs0, d) && Done(fs0, r, d)
    ensures InRange(r, d) && forall k :: 0 <= k < 900 ==> InodeAt(r, d).direct[k] == NoBlock
  {
  }

  /** Before the first slot, nothing has happened yet. */
  lemma MidwayStart(fs: Fs, d: int)
    requires Flat(fs, d)
    ensures Midway(fs, fs, d, 0)
  {
  }

  /** Deleting the emptied directory keeps every file of the sweep freed. */
  lemma FreedKept(fs0: Fs, t: Fs, r: Fs, d: int)
    requires Flat(fs0, d) && Done(fs0, t, d) && InRange(t, d)
    requires |r.blocks| == |t.blocks| && Deleted(t, r, d, [])
    requires forall k :: 0 <= k < 900 && InodeAt(fs0, d).direct[k] != NoBlock ==> Freed(fs0, t, InodeAt(fs0, d).direct[k] as int)
    ensures forall k :: 0 <= k < 900 && InodeAt(fs0, d).direct[k] != NoBlock ==> Freed(fs0, r, InodeAt(fs0, d).direct[k] as int)
  {
    var dir := InodeAt(fs0, d).direct;
    forall k | 0 <= k < 900 && dir[k] != NoBlock
      ensures Freed(fs0, r, dir[k] as int)
    {
      var c := dir[k] as int;
      assert Leaf(fs0, d, c);
      assert r.blocks[c] == t.blocks[c];
      forall x | x in FileBlocks(fs0, c)
        ensures FreeAt(r, x)
      {
        assert Growth.Owned(fs0, x);
      }
    }
  }

  /** Removing a live, live-counted directory of the inode region that has no indirect
      table and lists only files, each passing the gate: rmdir answers 0, the counters
      stay honest, and the directory, every file it listed and every block of those
      files are freed. */
  lemma DropFlat(fs: Fs, b: int, now: u32) returns (r: Fs)
    requires Flat(fs, b) && AllGone(fs, b) && LiveAt(fs, b)
    requires Deletable(InodeAt(fs, b)) && InodeAt(fs, b).indirect == NoBlock
    ensures DropDirectory(fs, b, now) == Ok(r, 0)
    ensures WellFormed(r) && Geom(r) == Geom(fs) && (Counted(fs) ==> Counted(r))
    ensures !LiveAt(r, b) && FreeAt(r, b)
    ensures forall k :: 0 <= k < 900 && InodeAt(fs, b).direct[k] != NoBlock ==> Freed(fs, r, InodeAt(fs, b).direct[k] as int)
  {
    MidwayStart(fs, b);
    var t := FlatSweep(fs, fs, b, 0, |fs.blocks|, now);
    assert Behind(fs, t, b, 900);
    SweptEmpty(fs, t, b);
    assert FileBlocks(t, b) == [];
    r := DeleteInodeSpec(t, b, now);
    FreedKept(fs, t, r, b);
  }

  /** The directory a path names when it is flat, passes the gate, lists only files
      that pass it, and has no indirect table. */
  ghost predicate FlatTarget(fs: Fs, b: int) {
    && Flat(fs, b) && AllGone(fs, b) && LiveAt(fs, b)
    && Deletable(InodeAt(fs, b)) && InodeAt(fs, b).indirect == NoBlock
  }

  /** Once the directory is found, rmdir is its removal, followed for a nested one by the
      unlink from its parent when the removal answers 0. */
  lemma RmdirFound(fs: Fs, path: CStr, now: u32)
    requires ParentFits(path)
    requires var p := Locate(fs, Settle(SplitPath(path)), true); p.Ok? && !p.v.Missing?
    ensures var p := Locate(fs, Settle(SplitPath(path)), true).v;
      var t := DropDirectory(fs, p.b, now);
      CmdRmdir(fs, path, now) == if p.Below? && t.Ok? && t.v == 0 then Ok(DeleteSeparteInode(t.fs, p.dir, p.b, now), 0) else t
  {
  }

  /** rmdir of a path naming such a directory answers 0 and keeps the counters honest;
      the directory, every file it listed and all of their blocks are freed. */
  lemma RmdirFlat(fs: Fs, path: CStr, now: u32) returns (r: Fs)
    requires ParentFits(path)
    requires var p := Locate(fs, Settle(SplitPath(path)), true);
      p.Ok? && !p.v.Missing? && FlatTarget(fs, p.v.b)
    requires var p := Locate(fs, Settle(SplitPath(path)), true);
      p.v.Below? ==> Geom(fs).nb1 < p.v.dir && p.v.dir != p.v.b
    ensures CmdRmdir(fs, path, now) == Ok(r, 0)
    ensures WellFormed(r) && (Counted(fs) ==> Counted(r))
    ensures var b := Locate(fs, Settle(SplitPath(path)), true).v.b;
      && !LiveAt(r, b) && FreeAt(r, b)
      && forall k :: 0 <= k < 900 && InodeAt(fs, b).direct[k] != NoBlock ==>
           var c := InodeAt(fs, b).direct[k] as int;
           FreeAt(r, c) && forall x :: x in FileBlocks(fs, c) ==> FreeAt(r, x)
  {
    var p := Locate(fs, Settle(SplitPath(path)), true).v;
    RmdirFound(fs, path, now);
    var t := DropFlat(fs, p.b, now);
    if p.Top? {
      r := t;
    } else {
      r := DeleteSeparteInode(t, p.dir, p.b, now);
      DeleteSeparteInodeSpec(t, p.dir, p.b, now);
      assert r.blocks[p.b] == t.blocks[p.b];
    }
  }
}
