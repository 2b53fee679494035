/** `cmd_fsck` (src/cmd_fsck.c): the sequential pass over blocks 1 .. nb_b - 1.

    After the magic check, every block must carry the tag of its region (2 in the bitmap,
    3 in the inode region, 4 to 7 in the data region). For a live inode, its own block and
    every block it reaches must be marked allocated: the direct slots before the first
    negative one, and through `double_indirect_block` either the entries of a tag-6 table
    or the entries of every table a double table lists. The first failing check ends the
    pass with status 1; a live inode that passed its own-bit check has its two lock bits
    cleared on the spot, without a new digest.
 */
module Fsck {
  import opened Codec
  import opened Blocks
  import opened Container
  import opened Allocator
  import Mkfs

  // ---------------------------------------------------------------------------
  // Regions and reference predicates

  predicate InInodeRegion(g: Geo, b: int) {
    g.nb1 < b <= g.nb1 + g.nbi
  }

  predicate InDataRegion(g: Geo, b: int) {
    g.DataStart() <= b < g.nbb
  }

  /** The tag block i must carry for its region. */
  predicate TagOk(g: Geo, i: int, t: u32) {
    if i <= g.nb1 then t == TagBitmap
    else if i <= g.nb1 + g.nbi then t == TagInode
    else TagFree <= t <= TagDouble
  }

  /** The block numbers a loop reads before it meets a negative one. */
  function Live(w: seq<i32>): seq<i32> {
    if |w| == 0 || w[0] < 0 then [] else [w[0]] + Live(w[1..])
  }

  lemma {:induction false} LiveSpec(w: seq<i32>)
    ensures |Live(w)| <= |w| && Live(w) == w[..|Live(w)|]
    ensures forall k :: 0 <= k < |Live(w)| ==> Live(w)[k] >= 0
    ensures |Live(w)| < |w| ==> w[|Live(w)|] < 0
  {
    if |w| > 0 && w[0] >= 0 {
      LiveSpec(w[1..]);
    }
  }

  /** `check_bitmap_bit` would answer "allocated". */
  predicate Allocated(fs: Fs, b: int) {
    Addressable(fs, b) && !IsFree(fs, b)
  }

  predicate AllAllocated(fs: Fs, bs: seq<i32>) {
    forall k :: 0 <= k < |bs| ==> Allocated(fs, bs[k])
  }

  /** The table at x is readable and all the blocks it lists are allocated. */
  predicate TableOk(fs: Fs, x: int) {
    InRange(fs, x) && AllAllocated(fs, Live(WordsAt(fs, x)))
  }

  predicate AllTablesOk(fs: Fs, xs: seq<i32>) {
    forall k :: 0 <= k < |xs| ==> TableOk(fs, xs[k])
  }

  /** What the indirect part of an inode must satisfy: nothing without a table; the
      entries of a tag-6 table; otherwise the entries of every listed table. */
  predicate IndirectOk(fs: Fs, ind: int) {
    ind < 0 || (InRange(fs, ind) &&
      if fs.blocks[ind].tag == TagSingle then AllAllocated(fs, Live(WordsAt(fs, ind)))
      else AllTablesOk(fs, Live(WordsAt(fs, ind))))
  }

  // ---------------------------------------------------------------------------
  // The checks

  /** One loop over a slot array: every block before the first negative slot must be
      allocated; an unreachable bit is undefined behaviour. */
  function CheckRun(fs: Fs, w: seq<i32>): (r: Res<bool>)
    ensures r.Ok? ==> r.fs == fs
  {
    if |w| == 0 || w[0] < 0 then Ok(fs, true)
    else
      var c := CheckBitmapBit(fs, w[0]);
      if !c.Ok? then Fault
      else if !c.v then Ok(fs, false)
      else CheckRun(fs, w[1..])
  }

  /** The double-indirect loop: each listed table is read and its run checked. */
  function CheckDouble(fs: Fs, w: seq<i32>): (r: Res<bool>)
    ensures r.Ok? ==> r.fs == fs
  {
    if |w| == 0 || w[0] < 0 then Ok(fs, true)
    else if !InRange(fs, w[0]) then Fault
    else
      var c := CheckRun(fs, WordsAt(fs, w[0]));
      if !c.Ok? then Fault
      else if !c.v then Ok(fs, false)
      else CheckDouble(fs, w[1..])
  }

  /** The `double_indirect_block` branch: a tag-6 table is a single table, any other
      tag is read as a double one. */
  function CheckIndirect(fs: Fs, ind: int): (r: Res<bool>)
    ensures r.Ok? ==> r.fs == fs
  {
    if ind < 0 then Ok(fs, true)
    else if !InRange(fs, ind) then Fault
    else if fs.blocks[ind].tag == TagSingle then CheckRun(fs, WordsAt(fs, ind))
    else CheckDouble(fs, WordsAt(fs, ind))
  }

  /** `in->flags &= ~(1 << 3); in->flags &= ~(1 << 4)`. */
  function Unlocked(n: Inode): Inode {
    n.(flags := n.flags & !FlagReadLock & !FlagWriteLock)
  }

  /** The lock reset as written: the inode is rewritten and its digest left as it was. */
  function ClearLocks(fs: Fs, i: int): (r: Fs)
    requires InRange(fs, i)
    ensures |r.blocks| == |fs.blocks|
  {
    SetInode(fs, i, Unlocked(InodeAt(fs, i)))
  }

  /** A live inode: its own bit, then the lock reset, then its direct run and its
      indirect tables, read from the container as it is after the reset. */
  function CheckInode(fs: Fs, i: int): (r: Res<int>)
    requires InRange(fs, i)
  {
    var c := CheckBitmapBit(fs, i);
    if !c.Ok? then Fault
    else if !c.v then Ok(fs, 1)
    else
      var u := ClearLocks(fs, i);
      var d := CheckRun(u, InodeAt(u, i).direct);
      if !d.Ok? then Fault
      else if !d.v then Ok(u, 1)
      else
        var k := CheckIndirect(u, InodeAt(u, i).indirect);
        if !k.Ok? then Fault
        else if !k.v then Ok(u, 1)
        else Ok(u, 0)
  }

  /** One iteration of the block loop: status 0 to go on, 1 to stop. */
  function CheckBlock(fs: Fs, g: Geo, i: int): (r: Res<int>)
    requires InRange(fs, i)
  {
    var t := fs.blocks[i].tag;
    if i <= g.nb1 then Ok(fs, if t == TagBitmap then 0 else 1)
    else if i <= g.nb1 + g.nbi then
      if t != TagInode then Ok(fs, 1)
      else if !Has(InodeAt(fs, i).flags, FlagExists) then Ok(fs, 0)
      else CheckInode(fs, i)
    else Ok(fs, if TagFree <= t <= TagDouble then 0 else 1)
  }

  /** Blocks i .. nb_b - 1, with the geometry read once before the loop. */
  function FsckFrom(fs: Fs, g: Geo, i: int): (r: Res<int>)
    decreases g.nbb - i
  {
    if i >= g.nbb then Ok(fs, 0)
    else if !InRange(fs, i) then Fault
    else
      var c := CheckBlock(fs, g, i);
      if !c.Ok? then Fault
      else if c.v != 0 then c
      else FsckFrom(c.fs, g, i + 1)
  }

  /** `cmd_fsck` on an opened container: 1 for a wrong magic, then the pass from block 1. */
  function CmdFsck(fs: Fs): (r: Res<int>)
    ensures SuperOf(fs).magic != Mkfs.MagicText() ==> r == Ok(fs, 1)
  {
    if SuperOf(fs).magic != Mkfs.MagicText() then Ok(fs, 1)
    else FsckFrom(fs, Geom(fs), 1)
  }

  // ---------------------------------------------------------------------------
  // Each check against its reference predicate

  /** A run check says "all allocated" exactly when they are. */
  lemma {:induction false} CheckRunPass(fs: Fs, w: seq<i32>)
    ensures CheckRun(fs, w) == Ok(fs, true) <==> AllAllocated(fs, Live(w))
  {
    if |w| > 0 && w[0] >= 0 {
      CheckRunPass(fs, w[1..]);
      CheckRunStep(fs, w);
      AllAllocatedCons(fs, w);
    }
  }

  /** One iteration of a run check. */
  lemma CheckRunStep(fs: Fs, w: seq<i32>)
    requires |w| > 0 && w[0] >= 0
    ensures CheckRun(fs, w) ==
      if !Addressable(fs, w[0]) then Fault
      else if IsFree(fs, w[0]) then Ok(fs, false)
      else CheckRun(fs, w[1..])
  {
  }

  lemma AllAllocatedCons(fs: Fs, w: seq<i32>)
    requires |w| > 0 && w[0] >= 0
    ensures AllAllocated(fs, Live(w)) <==> Allocated(fs, w[0]) && AllAllocated(fs, Live(w[1..]))
  {
    AllAllocatedPrepend(fs, w[0], Live(w[1..]));
  }

  lemma AllAllocatedPrepend(fs: Fs, x: i32, s: seq<i32>)
    ensures AllAllocated(fs, [x] + s) <==> Allocated(fs, x) && AllAllocated(fs, s)
  {
    var bs := [x] + s;
    if Allocated(fs, x) && AllAllocated(fs, s) {
      forall k | 0 <= k < |bs|
        ensures Allocated(fs, bs[k])
      {
        if k > 0 {
          assert bs[k] == s[k - 1];
        }
      }
    }
    if AllAllocated(fs, bs) {
      assert Allocated(fs, bs[0]);
      forall k | 0 <= k < |s|
        ensures Allocated(fs, s[k])
      {
        assert bs[k + 1] == s[k];
      }
    }
  }

  /** A run check faults exactly when a block with an unreadable bit comes before any
      block marked free. */
  lemma {:induction false} CheckRunFault(fs: Fs, w: seq<i32>)
    ensures !CheckRun(fs, w).Ok? <==> exists k :: Unreadable(fs, Live(w), k)
  {
    if |w| > 0 && w[0] >= 0 {
      CheckRunFault(fs, w[1..]);
      CheckRunStep(fs, w);
      UnreadableCons(fs, w);
    } else {
      assert Live(w) == [];
    }
  }

  /** Entry k of bs is the first block check_bitmap_bit cannot answer for, all
      blocks before it being allocated. */
  predicate Unreadable(fs: Fs, bs: seq<i32>, k: int) {
    0 <= k < |bs| && !Addressable(fs, bs[k]) && AllAllocated(fs, bs[..k])
  }

  lemma UnreadableCons(fs: Fs, w: seq<i32>)
    requires |w| > 0 && w[0] >= 0
    ensures (exists k :: Unreadable(fs, Live(w), k)) <==>
      !Addressable(fs, w[0]) || (Allocated(fs, w[0]) && exists k :: Unreadable(fs, Live(w[1..]), k))
  {
    assert Live(w) == [w[0]] + Live(w[1..]);
    UnreadablePrepend(fs, w[0], Live(w[1..]));
  }

  lemma UnreadablePrepend(fs: Fs, x: i32, s: seq<i32>)
    ensures (exists k :: Unreadable(fs, [x] + s, k)) <==>
      !Addressable(fs, x) || (Allocated(fs, x) && exists k :: Unreadable(fs, s, k))
  {
    var bs := [x] + s;
    assert bs[0] == x;
    if !Addressable(fs, x) {
      assert bs[..0] == [];
      assert Unreadable(fs, bs, 0);
    } else if Allocated(fs, x) {
      if exists k :: Unreadable(fs, bs, k) {
        var k :| Unreadable(fs, bs, k);
        assert k > 0;
        assert bs[..k] == [x] + s[..k - 1];
        AllAllocatedPrepend(fs, x, s[..k - 1]);
        assert bs[k] == s[k - 1];
        assert Unreadable(fs, s, k - 1);
      }
      if exists k :: Unreadable(fs, s, k) {
        var k :| Unreadable(fs, s, k);
        assert bs[..k + 1] == [x] + s[..k];
        AllAllocatedPrepend(fs, x, s[..k]);
        assert bs[k + 1] == s[k];
        assert Unreadable(fs, bs, k + 1);
      }
    } else {
      forall k | Unreadable(fs, bs, k)
        ensures false
      {
      }
    }
  }

  predicate RunAddressable(fs: Fs, w: seq<i32>) {
    forall k :: 0 <= k < |Live(w)| ==> Addressable(fs, Live(w)[k])
  }

  lemma CheckRunNoFault(fs: Fs, w: seq<i32>)
    requires RunAddressable(fs, w)
    ensures CheckRun(fs, w).Ok?
  {
    CheckRunFault(fs, w);
  }

  /** A double check passes exactly when every listed table is readable and allocated. */
  lemma {:induction false} CheckDoubleSpec(fs: Fs, w: seq<i32>)
    ensures CheckDouble(fs, w) == Ok(fs, true) <==> AllTablesOk(fs, Live(w))
  {
    if |w| > 0 && w[0] >= 0 {
      CheckDoubleSpec(fs, w[1..]);
      CheckDoubleStep(fs, w);
      assert Live(w) == [w[0]] + Live(w[1..]);
      AllTablesOkPrepend(fs, w[0], Live(w[1..]));
    }
  }

  /** One iteration of the double loop, with the listed table's run check resolved. */
  lemma CheckDoubleStep(fs: Fs, w: seq<i32>)
    requires |w| > 0 && w[0] >= 0
    ensures CheckDouble(fs, w) == Ok(fs, true) <==> TableOk(fs, w[0]) && CheckDouble(fs, w[1..]) == Ok(fs, true)
  {
    if InRange(fs, w[0]) {
      CheckRunPass(fs, WordsAt(fs, w[0]));
    }
  }

  lemma AllTablesOkPrepend(fs: Fs, x: i32, s: seq<i32>)
    ensures AllTablesOk(fs, [x] + s) <==> TableOk(fs, x) && AllTablesOk(fs, s)
  {
    var xs := [x] + s;
    if TableOk(fs, x) && AllTablesOk(fs, s) {
      forall k | 0 <= k < |xs|
        ensures TableOk(fs, xs[k])
      {
        if k > 0 {
          assert xs[k] == s[k - 1];
        }
      }
    }
    if AllTablesOk(fs, xs) {
      assert TableOk(fs, xs[0]);
      forall k | 0 <= k < |s|
        ensures TableOk(fs, s[k])
      {
        assert xs[k + 1] == s[k];
      }
    }
  }

  /** A double check never faults when every listed table is in range and every block
      the tables list has a readable bit. */
  lemma {:induction false} CheckDoubleNoFault(fs: Fs, w: seq<i32>)
    requires forall k :: 0 <= k < |Live(w)| ==> InRange(fs, Live(w)[k])
    requires forall k :: 0 <= k < |Live(w)| ==> RunAddressable(fs, WordsAt(fs, Live(w)[k]))
    ensures CheckDouble(fs, w).Ok?
  {
    if |w| > 0 && w[0] >= 0 {
      var xs := Live(w);
      assert xs[0] == w[0];
      CheckRunNoFault(fs, WordsAt(fs, w[0]));
      assert forall k :: 0 <= k < |Live(w[1..])| ==> Live(w[1..])[k] == xs[k + 1];
      CheckDoubleNoFault(fs, w[1..]);
    }
  }

  /** The indirect check passes exactly when `IndirectOk` holds. */
  lemma CheckIndirectSpec(fs: Fs, ind: int)
    ensures CheckIndirect(fs, ind) == Ok(fs, true) <==> IndirectOk(fs, ind)
  {
    if ind >= 0 && InRange(fs, ind) {
      if fs.blocks[ind].tag == TagSingle {
        CheckRunPass(fs, WordsAt(fs, ind));
      } else {
        CheckDoubleSpec(fs, WordsAt(fs, ind));
      }
    }
  }

  // ---------------------------------------------------------------------------
  // One inode, one block

  /** What a live inode must satisfy: its own block allocated, then, in the container
      with its locks cleared, its direct run allocated and its indirect part sound. */
  predicate InodeSound(fs: Fs, i: int)
    requires InRange(fs, i)
  {
    && Allocated(fs, i)
    && AllAllocated(ClearLocks(fs, i), Live(InodeAt(fs, i).direct))
    && IndirectOk(ClearLocks(fs, i), InodeAt(fs, i).indirect)
  }

  /** What block i must satisfy for the pass to go on. */
  predicate BlockSound(fs: Fs, g: Geo, i: int)
    requires InRange(fs, i)
  {
    && TagOk(g, i, fs.blocks[i].tag)
    && (InInodeRegion(g, i) && Has(InodeAt(fs, i).flags, FlagExists) ==> InodeSound(fs, i))
  }

  lemma UnlockedRead(fs: Fs, i: int)
    requires InRange(fs, i)
    ensures InodeAt(ClearLocks(fs, i), i) == Unlocked(InodeAt(fs, i))
    ensures Unlocked(InodeAt(fs, i)).direct == InodeAt(fs, i).direct
    ensures Unlocked(InodeAt(fs, i)).indirect == InodeAt(fs, i).indirect
  {
  }

  /** The inode check answers 0 exactly for a sound inode; it leaves the locks cleared
      whenever the inode's own block is allocated. */
  lemma CheckInodeSpec(fs: Fs, i: int)
    requires InRange(fs, i)
    ensures var r := CheckInode(fs, i);
      r.Ok? ==> (r.v == 0 || r.v == 1) && r.fs == (if Allocated(fs, i) then ClearLocks(fs, i) else fs)
    ensures CheckInode(fs, i) == Ok(ClearLocks(fs, i), 0) <==> InodeSound(fs, i)
  {
    if Allocated(fs, i) {
      var u := ClearLocks(fs, i);
      UnlockedRead(fs, i);
      CheckRunPass(u, InodeAt(fs, i).direct);
      CheckIndirectSpec(u, InodeAt(fs, i).indirect);
    }
  }

  /** One iteration answers 0 exactly for a sound block, 1 otherwise; it changes the
      container only by the lock reset of block i. */
  lemma CheckBlockSpec(fs: Fs, g: Geo, i: int)
    requires InRange(fs, i)
    ensures var r := CheckBlock(fs, g, i);
      r.Ok? ==> (r.v == 0 || r.v == 1) && (r.v == 0 <==> BlockSound(fs, g, i))
    ensures var r := CheckBlock(fs, g, i);
      r.Ok? ==> r.fs == fs || (InInodeRegion(g, i) && r.fs == ClearLocks(fs, i))
  {
    if InInodeRegion(g, i) && fs.blocks[i].tag == TagInode && Has(InodeAt(fs, i).flags, FlagExists) {
      CheckInodeSpec(fs, i);
    }
  }

  // ---------------------------------------------------------------------------
  // The whole pass: what it changes

  /** Block c is block a, or block a with its inode's locks cleared and its digest kept. */
  predicate Touched(a: Block, c: Block) {
    c == a || c == a.(payload := InodeP(Unlocked(AsInode(a.payload))))
  }

  /** fs' differs from fs only by lock resets of inode-region blocks. */
  ghost predicate Unlocks(fs: Fs, fs': Fs, g: Geo) {
    && |fs'.blocks| == |fs.blocks|
    && (forall b :: 0 <= b < |fs.blocks| ==> Touched(fs.blocks[b], fs'.blocks[b]))
    && (forall b :: 0 <= b < |fs.blocks| && !InInodeRegion(g, b) ==> fs'.blocks[b] == fs.blocks[b])
  }

  /** fs' is what the pass may have made of fs before reaching block i: lock resets of
      inode-region blocks below i. */
  ghost predicate Agree(fs: Fs, fs': Fs, g: Geo, i: int) {
    && Unlocks(fs, fs', g)
    && |fs'.blocks| == |fs.blocks|
    && forall b :: 0 <= b < |fs.blocks| && b >= i ==> fs'.blocks[b] == fs.blocks[b]
  }

  lemma UnlockedIdempotent(n: Inode)
    ensures Unlocked(Unlocked(n)) == Unlocked(n)
  {
  }

  /** Clearing the locks of the untouched inode block i extends the agreement to i + 1. */
  lemma AgreeStep(fs: Fs, fs': Fs, g: Geo, i: int, r: Fs)
    requires Agree(fs, fs', g, i) && InRange(fs', i)
    requires r == fs' || (InInodeRegion(g, i) && r == ClearLocks(fs', i))
    ensures Agree(fs, r, g, i + 1)
  {
    assert fs'.blocks[i] == fs.blocks[i];
  }

  /** A pass that ends normally answers 0 or 1 and changes nothing but the lock bits of
      inode-region blocks from block i on; tags and stored digests all stay. */
  lemma {:induction false} FsckFromFrame(fs: Fs, g: Geo, i: int)
    ensures var r := FsckFrom(fs, g, i);
      r.Ok? ==> (r.v == 0 || r.v == 1) && Unlocks(fs, r.fs, g)
    decreases g.nbb - i
  {
    if i < g.nbb && InRange(fs, i) {
      var c := CheckBlock(fs, g, i);
      CheckBlockSpec(fs, g, i);
      if c.Ok? && c.v == 0 {
        FsckFromStep(fs, g, i);
        var r := FsckFrom(c.fs, g, i + 1);
        FsckFromFrame(c.fs, g, i + 1);
        if r.Ok? {
          UnlocksStep(fs, g, i, c.fs);
          UnlocksTrans(fs, c.fs, r.fs, g);
        }
      }
    }
  }

  /** A block that passes hands the rest of the pass the container it left. */
  lemma FsckFromStep(fs: Fs, g: Geo, i: int)
    requires i < g.nbb && InRange(fs, i)
    requires CheckBlock(fs, g, i).Ok? && CheckBlock(fs, g, i).v == 0
    ensures FsckFrom(fs, g, i) == FsckFrom(CheckBlock(fs, g, i).fs, g, i + 1)
  {
  }

  lemma UnlocksStep(fs: Fs, g: Geo, i: int, r: Fs)
    requires InRange(fs, i)
    requires r == fs || (InInodeRegion(g, i) && r == ClearLocks(fs, i))
    ensures Unlocks(fs, r, g)
  {
  }

  lemma UnlocksTrans(a: Fs, b: Fs, c: Fs, g: Geo)
    requires Unlocks(a, b, g) && Unlocks(b, c, g)
    ensures Unlocks(a, c, g)
  {
    forall k | 0 <= k < |a.blocks|
      ensures Touched(a.blocks[k], c.blocks[k])
    {
      UnlockedIdempotent(AsInode(a.blocks[k].payload));
    }
  }

  /** Lock resets keep every tag and every stored digest. */
  lemma UnlocksKeepTagsAndDigests(fs: Fs, fs': Fs, g: Geo)
    requires Unlocks(fs, fs', g)
    ensures forall b :: 0 <= b < |fs.blocks| ==> fs'.blocks[b].tag == fs.blocks[b].tag && fs'.blocks[b].hash == fs.blocks[b].hash
  {
    forall b | 0 <= b < |fs.blocks|
      ensures fs'.blocks[b].tag == fs.blocks[b].tag && fs'.blocks[b].hash == fs.blocks[b].hash
    {
      assert Touched(fs.blocks[b], fs'.blocks[b]);
    }
  }

  // ---------------------------------------------------------------------------
  // The whole pass: when it answers 0

  predicate InData(g: Geo, bs: seq<i32>) {
    forall k :: 0 <= k < |bs| ==> InDataRegion(g, bs[k])
  }

  /** The table at y lies in the data region and lists only data-region blocks. */
  predicate TableConfined(fs: Fs, g: Geo, y: int) {
    InRange(fs, y) && InDataRegion(g, y) && InData(g, Live(WordsAt(fs, y)))
  }

  /** The indirect table at x, and for a double table every table it lists, stay in the
      data region. */
  predicate ConfinedTable(fs: Fs, g: Geo, x: int) {
    && TableConfined(fs, g, x)
    && (fs.blocks[x].tag != TagSingle ==>
          forall k :: 0 <= k < |Live(WordsAt(fs, x))| ==> TableConfined(fs, g, Live(WordsAt(fs, x))[k]))
  }

  predicate ConfinedInode(fs: Fs, g: Geo, n: Inode) {
    InData(g, Live(n.direct)) && (n.indirect >= 0 ==> ConfinedTable(fs, g, n.indirect))
  }

  /** Every live inode of the inode region points only into the data region: the pass
      then reads no block it rewrites, and every bit it asks for exists. */
  ghost predicate Confined(fs: Fs) {
    forall k :: LiveInode(fs, Geom(fs), k) ==> ConfinedInode(fs, Geom(fs), InodeAt(fs, k))
  }

  /** Block k is an inode-region block tagged 3 whose inode is allocated. */
  predicate LiveInode(fs: Fs, g: Geo, k: int) {
    InRange(fs, k) && InInodeRegion(g, k) && fs.blocks[k].tag == TagInode && Has(InodeAt(fs, k).flags, FlagExists)
  }

  /** Block k as a consistent file system has it: the tag of its region, and for a live
      inode, its block and every block it reaches allocated. */
  predicate Clean(fs: Fs, g: Geo, k: int)
    requires InRange(fs, k)
  {
    && TagOk(g, k, fs.blocks[k].tag)
    && (InInodeRegion(g, k) && Has(InodeAt(fs, k).flags, FlagExists) ==>
          && Allocated(fs, k)
          && AllAllocated(fs, Live(InodeAt(fs, k).direct))
          && IndirectOk(fs, InodeAt(fs, k).indirect))
  }

  /** A block of a well-formed container has its bit in a bitmap block, which lock
      resets never touch. */
  lemma AllocatedSame(fs: Fs, u: Fs, g: Geo, b: int)
    requires WellFormed(fs) && g == Geom(fs) && Unlocks(fs, u, g) && 0 <= b < g.nbb
    ensures Addressable(u, b) && (Allocated(u, b) <==> Allocated(fs, b))
  {
    AddressableInWellFormed(fs, b);
    assert u.blocks[BitmapBlock(b)] == fs.blocks[BitmapBlock(b)];
  }

  lemma AllAllocatedSame(fs: Fs, u: Fs, g: Geo, bs: seq<i32>)
    requires WellFormed(fs) && g == Geom(fs) && Unlocks(fs, u, g) && InData(g, bs)
    ensures AllAllocated(u, bs) <==> AllAllocated(fs, bs)
    ensures forall k :: 0 <= k < |bs| ==> Addressable(u, bs[k])
  {
    forall k | 0 <= k < |bs|
      ensures Addressable(u, bs[k]) && (Allocated(u, bs[k]) <==> Allocated(fs, bs[k]))
    {
      AllocatedSame(fs, u, g, bs[k]);
    }
  }

  /** A confined table reads the same after lock resets; so does the whole indirect
      check, which cannot fault. */
  lemma TableSame(fs: Fs, u: Fs, g: Geo, y: int)
    requires WellFormed(fs) && g == Geom(fs) && Unlocks(fs, u, g) && TableConfined(fs, g, y)
    ensures InRange(u, y) && u.blocks[y] == fs.blocks[y]
    ensures TableOk(u, y) <==> TableOk(fs, y)
    ensures RunAddressable(u, WordsAt(u, y))
  {
    assert u.blocks[y] == fs.blocks[y];
    AllAllocatedSame(fs, u, g, Live(WordsAt(fs, y)));
  }

  lemma IndirectSame(fs: Fs, u: Fs, g: Geo, ind: int)
    requires WellFormed(fs) && g == Geom(fs) && Unlocks(fs, u, g)
    requires ind >= 0 ==> ConfinedTable(fs, g, ind)
    ensures IndirectOk(u, ind) <==> IndirectOk(fs, ind)
    ensures CheckIndirect(u, ind).Ok?
  {
    if ind >= 0 {
      TableSame(fs, u, g, ind);
      var xs := Live(WordsAt(fs, ind));
      if fs.blocks[ind].tag == TagSingle {
        CheckRunNoFault(u, WordsAt(u, ind));
      } else {
        forall k | 0 <= k < |xs|
          ensures InRange(u, xs[k]) && (TableOk(u, xs[k]) <==> TableOk(fs, xs[k]))
          ensures RunAddressable(u, WordsAt(u, xs[k]))
        {
          TableSame(fs, u, g, xs[k]);
        }
        CheckDoubleNoFault(u, WordsAt(u, ind));
      }
    }
  }

  lemma CheckInodeOk(fs: Fs, i: int)
    requires InRange(fs, i) && Addressable(fs, i)
    requires RunAddressable(ClearLocks(fs, i), InodeAt(fs, i).direct)
    requires CheckIndirect(ClearLocks(fs, i), InodeAt(fs, i).indirect).Ok?
    ensures CheckInode(fs, i).Ok?
  {
    UnlockedRead(fs, i);
    CheckRunNoFault(ClearLocks(fs, i), InodeAt(fs, i).direct);
  }

  /** Block i of a confined container, met by the pass in the state fs' it reached:
      the check cannot fault, answers 0 exactly for a clean block, and keeps the
      agreement one block further. */
  lemma BlockClean(fs: Fs, fs': Fs, g: Geo, i: int)
    requires WellFormed(fs) && g == Geom(fs) && Confined(fs) && Agree(fs, fs', g, i)
    requires 1 <= i < g.nbb
    ensures InRange(fs', i)
    ensures var c := CheckBlock(fs', g, i);
      c.Ok? && (c.v == 0 <==> Clean(fs, g, i)) && Agree(fs, c.fs, g, i + 1)
  {
    assert fs'.blocks[i] == fs.blocks[i];
    var c := CheckBlock(fs', g, i);
    CheckBlockSpec(fs', g, i);
    if InInodeRegion(g, i) && fs.blocks[i].tag == TagInode && Has(InodeAt(fs, i).flags, FlagExists) {
      assert LiveInode(fs, g, i);
      var n := InodeAt(fs, i);
      AllocatedSame(fs, fs', g, i);
      var u := ClearLocks(fs', i);
      UnlocksStep(fs', g, i, u);
      UnlocksTrans(fs, fs', u, g);
      UnlockedRead(fs', i);
      AllAllocatedSame(fs, u, g, Live(n.direct));
      IndirectSame(fs, u, g, n.indirect);
      CheckInodeOk(fs', i);
    }
    AgreeStep(fs, fs', g, i, c.fs);
  }

  lemma {:induction false} FsckFromClean(fs: Fs, fs': Fs, g: Geo, i: int)
    requires WellFormed(fs) && g == Geom(fs) && Confined(fs) && Agree(fs, fs', g, i) && 1 <= i
    ensures FsckFrom(fs', g, i).Ok?
    ensures FsckFrom(fs', g, i).v == 0 <==> forall k :: i <= k < |fs.blocks| ==> Clean(fs, g, k)
    decreases g.nbb - i
  {
    if i < g.nbb {
      BlockClean(fs, fs', g, i);
      var c := CheckBlock(fs', g, i);
      if c.v == 0 {
        FsckFromStep(fs', g, i);
        FsckFromClean(fs, c.fs, g, i + 1);
        assert (forall k :: i <= k < |fs.blocks| ==> Clean(fs, g, k))
          <==> Clean(fs, g, i) && forall k :: i + 1 <= k < |fs.blocks| ==> Clean(fs, g, k);
      }
    }
  }

  /** `cmd_fsck` on a well-formed container with the right magic whose live inodes
      point only into the data region: it runs to the end of the pass, answers 0
      exactly when every block from 1 on is clean, and changes nothing but lock bits
      of inode-region blocks. */
  lemma FsckClean(fs: Fs)
    requires WellFormed(fs) && SuperOf(fs).magic == Mkfs.MagicText() && Confined(fs)
    ensures var r := CmdFsck(fs);
      && r.Ok?
      && (r.v == 0 <==> forall k :: 1 <= k < |fs.blocks| ==> Clean(fs, Geom(fs), k))
      && Unlocks(fs, r.fs, Geom(fs))
  {
    AgreeInit(fs, Geom(fs));
    FsckFromClean(fs, fs, Geom(fs), 1);
    FsckFromFrame(fs, Geom(fs), 1);
  }

  lemma AgreeInit(fs: Fs, g: Geo)
    ensures Agree(fs, fs, g, 1)
  {
  }

  /** A freshly formatted container passes: `cmd_fsck` answers 0 on what `cmd_mkfs`
      writes. */
  lemma MkfsPassesFsck(nbi: i32, nba: i32, nb1: int, nbb: i32)
    requires nbi >= 0 && nba >= 0 && nb1 >= 1 && nbb == 1 + nb1 + nbi + nba && nbb <= 32000 * nb1
    ensures CmdFsck(Mkfs.Format(nbi, nba, nb1, nbb)).Ok?
    ensures CmdFsck(Mkfs.Format(nbi, nba, nb1, nbb)).v == 0
  {
    var fs := Mkfs.Format(nbi, nba, nb1, nbb);
    var g := Geom(fs);
    Mkfs.FormatLayout(nbi, nba, nb1, nbb);
    forall k | 0 <= k < |fs.blocks| && InInodeRegion(g, k)
      ensures !Has(InodeAt(fs, k).flags, FlagExists)
    {
      assert InodeAt(fs, k) == Mkfs.ZeroInode();
    }
    forall k | 1 <= k < |fs.blocks|
      ensures Clean(fs, g, k)
    {
    }
    FsckClean(fs);
  }

  // ---------------------------------------------------------------------------
  // The lock reset and the digest

  /** The defect: on a live inode whose block was sealed and had a lock bit set, the
      inode check that gets past the own-bit test leaves the block with a digest that
      no longer matches it, so the next `check_sha1` on it reports corruption. */
  lemma UnlockLeavesStaleDigest(fs: Fs, i: int)
    requires InRange(fs, i) && fs.blocks[i].payload.InodeP? && Sealed(fs.blocks[i])
    requires Has(InodeAt(fs, i).flags, FlagReadLock) || Has(InodeAt(fs, i).flags, FlagWriteLock)
    ensures var r := CheckInode(fs, i);
      r.Ok? && Allocated(fs, i) ==> !Sealed(r.fs.blocks[i])
  {
    var n := InodeAt(fs, i);
    CheckInodeSpec(fs, i);
    assert Unlocked(n) != n by {
      assert Unlocked(n).flags & FlagReadLock == 0 && Unlocked(n).flags & FlagWriteLock == 0;
    }
    if InodeBytes(Unlocked(n)) == InodeBytes(n) {
      InodeRoundTrip(Unlocked(n));
      InodeRoundTrip(n);
    }
  }

  /** The reset as intended: clear the locks, then recompute the digest. */
  function ClearLocksSealed(fs: Fs, i: int): (r: Fs)
    requires InRange(fs, i)
    ensures |r.blocks| == |fs.blocks|
  {
    Rehash(ClearLocks(fs, i), i)
  }

  /** The intended reset leaves the inode unlocked, everything else in it alone, every
      other block untouched and the block sealed. */
  lemma ClearLocksSealedSpec(fs: Fs, i: int)
    requires InRange(fs, i)
    ensures var r := ClearLocksSealed(fs, i);
      && Sealed(r.blocks[i]) && r.blocks[i].tag == fs.blocks[i].tag
      && !Has(InodeAt(r, i).flags, FlagReadLock) && !Has(InodeAt(r, i).flags, FlagWriteLock)
      && InodeAt(r, i).flags & !(FlagReadLock | FlagWriteLock) == InodeAt(fs, i).flags & !(FlagReadLock | FlagWriteLock)
      && InodeAt(r, i).(flags := 0) == InodeAt(fs, i).(flags := 0)
      && (forall b :: 0 <= b < |fs.blocks| && b != i ==> r.blocks[b] == fs.blocks[b])
  {
  }
}
