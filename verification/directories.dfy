/** Directories (src/utilitaires.c): a directory inode lists its children by inode block
    index in its 900 `direct_blocks` slots, -1 marking an empty slot. `add_inode` fills the
    first empty slot, `delete_separte_inode` empties the first slot holding a child, the
    lookups walk the tree from the inodes of depth 0, and `create_directory` walks a path
    creating every missing directory on the way.
 */
module Directories {
  import opened Codec
  import opened Blocks
  import opened Container
  import opened Allocator
  import opened Paths
  import opened Entries

  // ---------------------------------------------------------------------------
  // The 900 child slots

  /** `for (i = from; i < 900; i++) if (d[i] == x) break;`: the first slot from `from` on
      holding x, or -1. */
  function SlotOf(d: seq<i32>, x: int, from: nat): (k: int)
    requires from <= |d|
    ensures k == -1 || from <= k < |d|
    ensures k >= 0 ==> d[k] == x
    decreases |d| - from
  {
    if from == |d| then -1 else if d[from] == x then from else SlotOf(d, x, from + 1)
  }

  /** The slot found is the first holding x, and -1 means none does. */
  lemma {:induction false} SlotOfFirst(d: seq<i32>, x: int, from: nat)
    requires from <= |d|
    ensures var k := SlotOf(d, x, from);
      && (k >= 0 ==> forall j :: from <= j < k ==> d[j] != x)
      && (k == -1 <==> forall j :: from <= j < |d| ==> d[j] != x)
    decreases |d| - from
  {
    if from < |d| && d[from] != x {
      SlotOfFirst(d, x, from + 1);
    }
  }

  /** A slot is free for `add_inode`. */
  predicate HasRoom(d: Direct) {
    SlotOf(d, NoBlock, 0) >= 0
  }

  /** `add_inode`'s loop: val goes into the first empty slot. */
  function AddSlot(d: Direct, val: i32): (r: Direct)
    requires HasRoom(d)
  {
    d[SlotOf(d, NoBlock, 0) := val]
  }

  /** `delete_separte_inode`'s loop: the first slot holding val becomes empty. */
  function RemoveSlot(d: Direct, val: int): (r: Direct) {
    var k := SlotOf(d, val, 0);
    if k < 0 then d else d[k := NoBlock]
  }

  /** There is room exactly when some slot is empty; adding puts val in place of one
      empty slot and changes no other slot. */
  lemma AddSlotSpec(d: Direct, val: i32)
    ensures HasRoom(d) <==> NoBlock in d
    ensures HasRoom(d) ==>
      && multiset(AddSlot(d, val)) == multiset(d) - multiset{NoBlock} + multiset{val}
      && val in AddSlot(d, val)
      && (forall i :: 0 <= i < 900 && d[i] != NoBlock ==> AddSlot(d, val)[i] == d[i])
  {
    SlotOfFirst(d, NoBlock, 0);
    if HasRoom(d) {
      var k := SlotOf(d, NoBlock, 0);
      assert d == d[..k] + [d[k]] + d[k + 1..];
      assert AddSlot(d, val) == d[..k] + [val] + d[k + 1..];
    }
  }

  /** Removing empties the first slot holding val, when there is one, and changes nothing
      otherwise. */
  lemma RemoveSlotSpec(d: Direct, val: int)
    ensures val !in d ==> RemoveSlot(d, val) == d
    ensures val in d ==>
      && multiset(RemoveSlot(d, val)) == multiset(d) - multiset{val as i32} + multiset{NoBlock}
      && (forall i :: 0 <= i < 900 && d[i] != val ==> RemoveSlot(d, val)[i] == d[i])
  {
    SlotOfFirst(d, val, 0);
    if val in d {
      var k := SlotOf(d, val, 0);
      assert d == d[..k] + [d[k]] + d[k + 1..];
      assert RemoveSlot(d, val) == d[..k] + [NoBlock] + d[k + 1..];
    }
  }

  /** Adding a child that is not listed yet and then removing it gives the slots back. */
  lemma AddThenRemove(d: Direct, val: i32)
    requires HasRoom(d) && val !in d
    ensures RemoveSlot(AddSlot(d, val), val) == d
  {
    var k := SlotOf(d, NoBlock, 0);
    var a := AddSlot(d, val);
    SlotOfFirst(d, NoBlock, 0);
    SlotOfFirst(a, val, 0);
    assert a[k] == val;
    assert forall j :: 0 <= j < k ==> a[j] == d[j] && d[j] != val;
  }

  /** Removing a listed child and adding it back gives the slots back, as long as no empty
      slot comes before the child's slot (the freed slot is then the first empty one). */
  lemma RemoveThenAdd(d: Direct, val: i32)
    requires val in d && val != NoBlock
    requires forall j :: 0 <= j < SlotOf(d, val, 0) ==> d[j] != NoBlock
    ensures HasRoom(RemoveSlot(d, val)) && AddSlot(RemoveSlot(d, val), val) == d
  {
    SlotOfFirst(d, val, 0);
    var k := SlotOf(d, val, 0);
    var r := RemoveSlot(d, val);
    SlotOfFirst(r, NoBlock, 0);
    assert r[k] == NoBlock;
    assert forall j :: 0 <= j < k ==> r[j] == d[j] != NoBlock;
    assert SlotOf(r, NoBlock, 0) == k;
  }

  // ---------------------------------------------------------------------------
  // add_inode, delete_separte_inode

  /** Write inode n into block b and rehash it, as both functions end. */
  function RewriteInode(fs: Fs, b: int, n: Inode): (r: Fs)
    requires InRange(fs, b)
    ensures |r.blocks| == |fs.blocks|
  {
    Rehash(SetInode(fs, b, n), b)
  }

  /** Rewriting an inode block past the bitmap touches nothing else; when the flags are
      kept, the counters stay honest. */
  lemma RewriteInodeSpec(fs: Fs, b: int, n: Inode) returns (r: Fs)
    requires WellFormed(fs) && InRange(fs, b) && b > Geom(fs).nb1
    ensures r == RewriteInode(fs, b, n)
    ensures WellFormed(r) && Geom(r) == Geom(fs) && (forall c :: FreeAt(r, c) == FreeAt(fs, c))
    ensures forall c :: 0 <= c < |fs.blocks| && c != b ==> r.blocks[c] == fs.blocks[c]
    ensures InodeAt(r, b) == n && Sealed(r.blocks[b]) && r.blocks[b].tag == fs.blocks[b].tag
    ensures n.flags == InodeAt(fs, b).flags && Counted(fs) ==> Counted(r)
  {
    r := RewriteInode(fs, b, n);
    WriteAboveHeader(fs, r, b);
    if n.flags == InodeAt(fs, b).flags && Counted(fs) {
      var g := Geom(fs);
      FreeCountFrame(fs, r, g.DataStart(), g.nbb);
      forall c | g.InodeStart() <= c < g.DataStart()
        ensures LiveAt(fs, c) == LiveAt(r, c)
      {
      }
      LiveCountFrame(fs, r, g.InodeStart(), g.DataStart());
    }
  }

  /** `add_inode(in, val)` on the directory inode of block dir: val goes into the first
      empty slot, the modification time is stamped and the inode rehashed; with every
      slot taken it is fatal before any write. */
  function AddInode(fs: Fs, dir: int, val: i32, now: u32): (r: Res<()>)
    requires InRange(fs, dir)
    ensures r.Ok? ==> |r.fs.blocks| == |fs.blocks|
  {
    var n := InodeAt(fs, dir);
    if !HasRoom(n.direct) then Exit(fs)
    else Ok(RewriteInode(fs, dir, n.(direct := AddSlot(n.direct, val), mtime := now)), ())
  }

  /** `delete_separte_inode(in, val)`: the first slot holding val is emptied (none when
      val is not listed), the modification time stamped and the inode rehashed. */
  function DeleteSeparteInode(fs: Fs, dir: int, val: int, now: u32): (r: Fs)
    requires InRange(fs, dir)
    ensures |r.blocks| == |fs.blocks|
  {
    var n := InodeAt(fs, dir);
    RewriteInode(fs, dir, n.(direct := RemoveSlot(n.direct, val), mtime := now))
  }

  /** `add_inode` fails exactly when no slot is empty, and then leaves the container alone;
      otherwise only the directory's slots and time change, the directory stays sealed and
      the counters stay honest. */
  lemma AddInodeSpec(fs: Fs, dir: int, val: i32, now: u32)
    requires WellFormed(fs) && InRange(fs, dir) && dir > Geom(fs).nb1
    ensures var r := AddInode(fs, dir, val, now);
      && (r.Exit? <==> NoBlock !in InodeAt(fs, dir).direct) && (r.Exit? ==> r.fs == fs) && !r.Fault?
    ensures var r := AddInode(fs, dir, val, now);
      r.Ok? ==>
        && WellFormed(r.fs) && Geom(r.fs) == Geom(fs) && (forall c :: FreeAt(r.fs, c) == FreeAt(fs, c))
        && (forall c :: 0 <= c < |fs.blocks| && c != dir ==> r.fs.blocks[c] == fs.blocks[c])
        && InodeAt(r.fs, dir) == InodeAt(fs, dir).(direct := AddSlot(InodeAt(fs, dir).direct, val), mtime := now)
        && Sealed(r.fs.blocks[dir]) && (Counted(fs) ==> Counted(r.fs))
  {
    var n := InodeAt(fs, dir);
    AddSlotSpec(n.direct, val);
    if HasRoom(n.direct) {
      var r := RewriteInodeSpec(fs, dir, n.(direct := AddSlot(n.direct, val), mtime := now));
    }
  }

  /** `delete_separte_inode` touches only the directory's slots and time, keeps it sealed
      and the counters honest. */
  lemma DeleteSeparteInodeSpec(fs: Fs, dir: int, val: int, now: u32)
    requires WellFormed(fs) && InRange(fs, dir) && dir > Geom(fs).nb1
    ensures var r := DeleteSeparteInode(fs, dir, val, now);
      && WellFormed(r) && Geom(r) == Geom(fs) && (forall c :: FreeAt(r, c) == FreeAt(fs, c))
      && (forall c :: 0 <= c < |fs.blocks| && c != dir ==> r.blocks[c] == fs.blocks[c])
      && InodeAt(r, dir) == InodeAt(fs, dir).(direct := RemoveSlot(InodeAt(fs, dir).direct, val), mtime := now)
      && Sealed(r.blocks[dir]) && (Counted(fs) ==> Counted(r))
  {
    var n := InodeAt(fs, dir);
    var r := RewriteInodeSpec(fs, dir, n.(direct := RemoveSlot(n.direct, val), mtime := now));
  }

  /** Linking a child that is not listed yet and unlinking it again restores the
      directory's slots; only its modification time moved. */
  lemma LinkThenUnlink(fs: Fs, dir: int, val: i32, t1: u32, t2: u32)
    requires WellFormed(fs) && InRange(fs, dir) && dir > Geom(fs).nb1
    requires NoBlock in InodeAt(fs, dir).direct && val !in InodeAt(fs, dir).direct
    ensures var a := AddInode(fs, dir, val, t1);
      && a.Ok?
      && InodeAt(DeleteSeparteInode(a.fs, dir, val, t2), dir) == InodeAt(fs, dir).(mtime := t2)
  {
    AddInodeSpec(fs, dir, val, t1);
    var a := AddInode(fs, dir, val, t1);
    DeleteSeparteInodeSpec(a.fs, dir, val, t2);
    AddThenRemove(InodeAt(fs, dir).direct, val);
  }

  // ---------------------------------------------------------------------------
  // find_inode_racine, find_file_folder_from_inode, find_inode_folder

  /** What `find_inode_racine` accepts: a live inode of the requested kind, at depth 0,
      whose stored name `strcmp`s equal to name. */
  predicate RootMatch(n: Inode, name: seq<byte>, isDir: bool) {
    Exists(n) && (IsDir(n) <==> isDir) && n.depth == 0 && NameText(n.name) == name
  }

  /** Inode i of the region is a root match. */
  predicate RootAt(fs: Fs, i: int, name: seq<byte>, isDir: bool) {
    var b := Geom(fs).InodeStart() + i;
    InRange(fs, b) && RootMatch(InodeAt(fs, b), name, isDir)
  }

  /** `find_inode_racine(map, nb1, nbi, name, type)`, scanning from inode i: the block of
      the first root match, or -1. */
  function FindInodeRacine(fs: Fs, name: seq<byte>, isDir: bool, i: nat): (r: Res<int>)
    ensures r.Ok? ==> r.fs == fs && (r.v == -1 || InRange(fs, r.v))
    decreases Geom(fs).nbi - i
  {
    var g := Geom(fs);
    if i >= g.nbi then Ok(fs, -1)
    else
      var b := g.InodeStart() + i;
      if !InRange(fs, b) then Fault
      else if RootMatch(InodeAt(fs, b), name, isDir) then Ok(fs, b)
      else FindInodeRacine(fs, name, isDir, i + 1)
  }

  /** The scan returns the first root match of the region from i on, or -1 exactly when
      there is none; on a well-formed container it never faults. */
  lemma FindInodeRacineSpec(fs: Fs, name: seq<byte>, isDir: bool, i: nat)
    ensures var r := FindInodeRacine(fs, name, isDir, i);
      && (WellFormed(fs) ==> r.Ok?)
      && (r.Ok? && r.v == -1 ==> forall k :: i <= k < Geom(fs).nbi ==> !RootAt(fs, k, name, isDir))
      && (r.Ok? && r.v != -1 ==>
            var j := r.v - Geom(fs).InodeStart();
            && i <= j < Geom(fs).nbi && RootAt(fs, j, name, isDir)
            && forall k :: i <= k < j ==> !RootAt(fs, k, name, isDir))
  {
    if WellFormed(fs) {
      FindInodeRacineNoFault(fs, name, isDir, i);
    }
    FindInodeRacineMiss(fs, name, isDir, i);
    FindInodeRacineHit(fs, name, isDir, i);
  }

  lemma {:induction false} FindInodeRacineNoFault(fs: Fs, name: seq<byte>, isDir: bool, i: nat)
    requires WellFormed(fs)
    ensures FindInodeRacine(fs, name, isDir, i).Ok?
    decreases Geom(fs).nbi - i
  {
    if i < Geom(fs).nbi {
      FindInodeRacineNoFault(fs, name, isDir, i + 1);
    }
  }

  lemma {:induction false} FindInodeRacineMiss(fs: Fs, name: seq<byte>, isDir: bool, i: nat)
    ensures var r := FindInodeRacine(fs, name, isDir, i);
      r.Ok? && r.v == -1 ==> forall k :: i <= k < Geom(fs).nbi ==> !RootAt(fs, k, name, isDir)
    decreases Geom(fs).nbi - i
  {
    if i < Geom(fs).nbi {
      FindInodeRacineMiss(fs, name, isDir, i + 1);
    }
  }

  lemma {:induction false} FindInodeRacineHit(fs: Fs, name: seq<byte>, isDir: bool, i: nat)
    ensures var r := FindInodeRacine(fs, name, isDir, i);
      r.Ok? && r.v != -1 ==>
        var j := r.v - Geom(fs).InodeStart();
        && i <= j < Geom(fs).nbi && RootAt(fs, j, name, isDir)
        && forall k :: i <= k < j ==> !RootAt(fs, k, name, isDir)
    decreases Geom(fs).nbi - i
  {
    if i < Geom(fs).nbi {
      FindInodeRacineHit(fs, name, isDir, i + 1);
    }
  }

  /** What `find_file_folder_from_inode` accepts: a live inode named name of the
      requested kind. */
  predicate ChildMatch(n: Inode, name: seq<byte>, isDir: bool) {
    Exists(n) && NameText(n.name) == name && (IsDir(n) <==> isDir)
  }

  /** Slot k of d lists a child match. */
  predicate ChildAt(fs: Fs, d: Direct, k: int, name: seq<byte>, isDir: bool)
    requires 0 <= k < 900
  {
    d[k] != NoBlock && InRange(fs, d[k]) && ChildMatch(InodeAt(fs, d[k]), name, isDir)
  }

  /** Every listed slot from i on points into the container. */
  predicate SlotsInRange(fs: Fs, d: Direct, i: nat) {
    forall k :: i <= k < 900 && d[k] != NoBlock ==> InRange(fs, d[k])
  }

  /** `find_file_folder_from_inode(map, in, name, type)` over the slots d of `in`, from
      slot i on: the first listed child match, or -1. A listed slot pointing outside the
      container is undefined behaviour. */
  function FindFileFolderFromInode(fs: Fs, d: Direct, name: seq<byte>, isDir: bool, i: nat): (r: Res<int>)
    requires i <= 900
    ensures r.Ok? ==> r.fs == fs && (r.v == -1 || InRange(fs, r.v))
    decreases 900 - i
  {
    if i == 900 then Ok(fs, -1)
    else if d[i] == NoBlock then FindFileFolderFromInode(fs, d, name, isDir, i + 1)
    else if !InRange(fs, d[i]) then Fault
    else if ChildMatch(InodeAt(fs, d[i]), name, isDir) then Ok(fs, d[i] as int)
    else FindFileFolderFromInode(fs, d, name, isDir, i + 1)
  }

  /** The scan returns the child of the first slot (from i on) listing a match, or -1
      exactly when no slot does; it faults only when a listed slot points outside the
      container. */
  lemma {:induction false} FindFileFolderFromInodeSpec(fs: Fs, d: Direct, name: seq<byte>, isDir: bool, i: nat)
    requires i <= 900
    ensures var r := FindFileFolderFromInode(fs, d, name, isDir, i);
      && (SlotsInRange(fs, d, i) ==> r.Ok?)
      && (r.Ok? && r.v == -1 ==> forall k :: i <= k < 900 ==> !ChildAt(fs, d, k, name, isDir))
      && (r.Ok? && r.v != -1 ==>
            exists k :: i <= k < 900 && d[k] == r.v && ChildAt(fs, d, k, name, isDir)
              && forall j :: i <= j < k ==> !ChildAt(fs, d, j, name, isDir))
    decreases 900 - i
  {
    if i < 900 {
      FindFileFolderFromInodeSpec(fs, d, name, isDir, i + 1);
      var r := FindFileFolderFromInode(fs, d, name, isDir, i);
      if r.Ok? && r.v != -1 && ChildAt(fs, d, i, name, isDir) {
        assert d[i] == r.v;
      }
    }
  }

  /** The walk of `find_inode_folder` from the directory block parent (-1 before the first
      token): the root lookup for the first token, a child lookup for each next one. */
  function FolderWalk(fs: Fs, ts: seq<seq<byte>>, parent: int): (r: Res<int>)
    requires parent == -1 || InRange(fs, parent)
    ensures r.Ok? ==> r.fs == fs && (r.v == -1 || InRange(fs, r.v))
    decreases |ts|
  {
    if |ts| == 0 then Ok(fs, parent)
    else
      var f := if parent == -1 then FindInodeRacine(fs, ts[0], true, 0)
               else FindFileFolderFromInode(fs, InodeAt(fs, parent).direct, ts[0], true, 0);
      if !f.Ok? then Fault
      else if f.v == -1 then Ok(fs, -1)
      else FolderWalk(fs, ts[1..], f.v)
  }

  /** `find_inode_folder(map, nb1, nbi, path)`: the path is cut to 255 bytes and split at
      '/'; the block of the directory it names, or -1. */
  function FindInodeFolder(fs: Fs, path: CStr): (r: Res<int>)
    ensures r.Ok? ==> r.fs == fs && (r.v == -1 || InRange(fs, r.v))
  {
    FolderWalk(fs, Tokens(Trunc(path, 255)), -1)
  }

  /** A chain of directory blocks spelling the tokens ts: the first is a root directory
      of the inode region named ts[0], the rest a path below it spelling the other tokens. */
  ghost predicate Chain(fs: Fs, ts: seq<seq<byte>>, chain: seq<int>) {
    && |chain| == |ts| > 0
    && InRange(fs, chain[0]) && Geom(fs).InodeStart() <= chain[0] < Geom(fs).DataStart()
    && RootMatch(InodeAt(fs, chain[0]), ts[0], true)
    && Path(fs, chain[0], chain[1..], ts[1..])
  }

  /** Below the directory p, tail[0] is listed in a slot of p and named names[0], tail[1]
      in a slot of tail[0] and named names[1], and so on. */
  ghost predicate Path(fs: Fs, p: int, tail: seq<int>, names: seq<seq<byte>>)
    decreases |names|
  {
    && |tail| == |names|
    && (|names| > 0 ==> Linked(fs, p, tail[0], names[0]) && Path(fs, tail[0], tail[1..], names[1..]))
  }

  /** child is a directory listed in a slot of the directory parent and named name. */
  ghost predicate Linked(fs: Fs, parent: int, child: int, name: seq<byte>) {
    && InRange(fs, parent) && InRange(fs, child)
    && child in InodeAt(fs, parent).direct && ChildMatch(InodeAt(fs, child), name, true)
  }

  /** A block found by `find_inode_folder` is a live directory reached along a chain
      spelling the path's components, and named by the last one. */
  lemma FindInodeFolderSound(fs: Fs, path: CStr) returns (chain: seq<int>)
    requires FindInodeFolder(fs, path).Ok? && FindInodeFolder(fs, path).v != -1
    ensures var ts := Tokens(Trunc(path, 255));
      && Chain(fs, ts, chain) && chain[|ts| - 1] == FindInodeFolder(fs, path).v
      && InRange(fs, chain[|ts| - 1]) && IsDir(InodeAt(fs, chain[|ts| - 1]))
      && Exists(InodeAt(fs, chain[|ts| - 1])) && NameText(InodeAt(fs, chain[|ts| - 1]).name) == ts[|ts| - 1]
  {
    var ts := Tokens(Trunc(path, 255));
    var v := FindInodeFolder(fs, path).v;
    FindInodeRacineSpec(fs, ts[0], true, 0);
    var b := FindInodeRacine(fs, ts[0], true, 0).v;
    var tail := WalkPath(fs, ts[1..], b, v);
    chain := [b] + tail;
    assert chain[1..] == tail;
    ChainEnd(fs, ts, chain);
  }

  /** The walk below the directory p follows a path spelling names and ends at the block
      v it returns. */
  lemma {:induction false} WalkPath(fs: Fs, names: seq<seq<byte>>, p: int, v: int) returns (tail: seq<int>)
    requires InRange(fs, p) && FolderWalk(fs, names, p) == Ok(fs, v) && v != -1
    ensures Path(fs, p, tail, names)
    ensures if |names| == 0 then v == p else tail[|names| - 1] == v
    decreases |names|
  {
    if |names| == 0 {
      tail := [];
    } else {
      var c := WalkStep(fs, names, p);
      var t := WalkPath(fs, names[1..], c, v);
      tail := [c] + t;
      assert tail[0] == c && tail[1..] == t;
    }
  }

  /** One token of the walk below a directory: the child lookup succeeds and the walk
      continues from the child found. */
  lemma WalkStep(fs: Fs, names: seq<seq<byte>>, p: int) returns (c: int)
    requires |names| > 0 && InRange(fs, p)
    requires FolderWalk(fs, names, p).Ok? && FolderWalk(fs, names, p).v != -1
    ensures Linked(fs, p, c, names[0])
    ensures FolderWalk(fs, names[1..], c) == FolderWalk(fs, names, p)
  {
    var d := InodeAt(fs, p).direct;
    FindFileFolderFromInodeSpec(fs, d, names[0], true, 0);
    c := FindFileFolderFromInode(fs, d, names[0], true, 0).v;
    var k :| 0 <= k < 900 && d[k] == c && ChildAt(fs, d, k, names[0], true);
  }

  /** The last directory of a chain is live and named by the last token. */
  lemma ChainEnd(fs: Fs, ts: seq<seq<byte>>, chain: seq<int>)
    requires Chain(fs, ts, chain)
    ensures InRange(fs, chain[|ts| - 1]) && IsDir(InodeAt(fs, chain[|ts| - 1]))
    ensures Exists(InodeAt(fs, chain[|ts| - 1])) && NameText(InodeAt(fs, chain[|ts| - 1]).name) == ts[|ts| - 1]
  {
    if |ts| > 1 {
      PathEnd(fs, chain[0], chain[1..], ts[1..]);
    }
  }

  /** The last block of a non-empty path is linked in under the last name. */
  lemma {:induction false} PathEnd(fs: Fs, p: int, tail: seq<int>, names: seq<seq<byte>>)
    requires |names| > 0 && Path(fs, p, tail, names)
    ensures InRange(fs, tail[|names| - 1]) && ChildMatch(InodeAt(fs, tail[|names| - 1]), names[|names| - 1], true)
    decreases |names|
  {
    if |names| > 1 {
      PathEnd(fs, tail[0], tail[1..], names[1..]);
    }
  }
}
