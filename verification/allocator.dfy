/** The free-space bitmap and the first-fit data-block allocator (src/utilitaires.c).

    A bit set to 1 marks a free block. `alloc_data_block` scans the data region
    `[1 + nb1 + nbi, nbb)` from its lowest index and takes the first free block.
 */
module Allocator {
  import opened Codec
  import opened Blocks
  import opened Container

  /** Two blocks with the same bitmap block and the same bit are the same block. */
  lemma BitAddressInjective(b: int, c: int)
    requires BitmapBlock(b) == BitmapBlock(c) && BitmapBit(b) == BitmapBit(c)
    ensures b == c
  {
  }

  /** `check_bitmap_bit`: true when the block's bit is 0 (allocated). */
  function CheckBitmapBit(fs: Fs, b: int): (r: Res<bool>)
    ensures r.Ok? <==> Addressable(fs, b)
    ensures r.Ok? ==> r.fs == fs && (r.v <==> !IsFree(fs, b))
  {
    if !Addressable(fs, b) then Fault else Ok(fs, !IsFree(fs, b))
  }

  /** Write bit value `free` for block b and rehash its bitmap block. */
  function WriteBit(fs: Fs, b: int, free: bool): (r: Fs)
    requires Addressable(fs, b)
    ensures |r.blocks| == |fs.blocks|
  {
    var k := BitmapBlock(b);
    var bits := AsBits(fs.blocks[k].payload);
    Rehash(SetPayload(fs, k, BitsP(bits[BitmapBit(b) := free])), k)
  }

  /** Only the written bit changes, and only the bitmap block holding it is touched. */
  lemma WriteBitEffect(fs: Fs, b: int, free: bool)
    requires Addressable(fs, b)
    ensures var fs' := WriteBit(fs, b, free);
      && Addressable(fs', b) && IsFree(fs', b) == free
      && (forall c :: c != b ==> FreeAt(fs', c) == FreeAt(fs, c))
      && (forall c :: 0 <= c < |fs.blocks| && c != BitmapBlock(b) ==> fs'.blocks[c] == fs.blocks[c])
      && fs'.blocks[BitmapBlock(b)].tag == fs.blocks[BitmapBlock(b)].tag
      && Sealed(fs'.blocks[BitmapBlock(b)])
  {
    var fs' := WriteBit(fs, b, free);
    forall c | c != b
      ensures FreeAt(fs', c) == FreeAt(fs, c)
    {
      if Addressable(fs, c) && BitmapBlock(c) == BitmapBlock(b) {
        if BitmapBit(c) == BitmapBit(b) {
          BitAddressInjective(b, c);
        }
      }
    }
  }

  /** `bitmap_alloc`: clear the bit, rehash, and retag the bitmap block 2. */
  function BitmapAlloc(fs: Fs, b: int): (r: Res<()>)
    ensures r.Ok? <==> Addressable(fs, b)
    ensures r.Ok? ==> |r.fs.blocks| == |fs.blocks|
    ensures r.Ok? ==> Addressable(r.fs, b) && !IsFree(r.fs, b) && !FreeAt(r.fs, b) && (forall c :: c != b ==> FreeAt(r.fs, c) == FreeAt(fs, c))
    ensures r.Ok? ==> r.fs.blocks[BitmapBlock(b)].tag == TagBitmap && Sealed(r.fs.blocks[BitmapBlock(b)])
    ensures r.Ok? ==> forall c :: 0 <= c < |fs.blocks| && c != BitmapBlock(b) ==> r.fs.blocks[c] == fs.blocks[c]
  {
    if !Addressable(fs, b) then Fault
    else
      WriteBitEffect(fs, b, false);
      Ok(SetTag(WriteBit(fs, b, false), BitmapBlock(b), TagBitmap), ())
  }

  /** `bitmap_dealloc`: set the bit and rehash; the tag is left alone. */
  function BitmapDealloc(fs: Fs, b: int): (r: Res<()>)
    ensures r.Ok? <==> Addressable(fs, b)
    ensures r.Ok? ==> |r.fs.blocks| == |fs.blocks|
    ensures r.Ok? ==> Addressable(r.fs, b) && IsFree(r.fs, b) && (forall c :: c != b ==> FreeAt(r.fs, c) == FreeAt(fs, c))
    ensures r.Ok? ==> Sealed(r.fs.blocks[BitmapBlock(b)]) && r.fs.blocks[BitmapBlock(b)].tag == fs.blocks[BitmapBlock(b)].tag
    ensures r.Ok? ==> forall c :: 0 <= c < |fs.blocks| && c != BitmapBlock(b) ==> r.fs.blocks[c] == fs.blocks[c]
  {
    if !Addressable(fs, b) then Fault
    else
      WriteBitEffect(fs, b, true);
      Ok(WriteBit(fs, b, true), ())
  }

  /** The round trips the bit operations promise: allocating then checking says
      "allocated", deallocating then checking says "free". */
  lemma AllocThenCheck(fs: Fs, b: int)
    requires Addressable(fs, b)
    ensures BitmapAlloc(fs, b).Ok?
    ensures CheckBitmapBit(BitmapAlloc(fs, b).fs, b) == Ok(BitmapAlloc(fs, b).fs, true)
    ensures BitmapDealloc(fs, b).Ok?
    ensures CheckBitmapBit(BitmapDealloc(fs, b).fs, b) == Ok(BitmapDealloc(fs, b).fs, false)
  {
  }

  /** `a` is what a first-fit scan of [lo, hi) must answer: the lowest free block, or
      -1 when there is none. */
  predicate FirstFit(fs: Fs, lo: int, hi: int, a: int) {
    if a == -1 then forall c :: lo <= c < hi ==> !FreeAt(fs, c)
    else lo <= a < hi && FreeAt(fs, a) && forall c :: lo <= c < a ==> !FreeAt(fs, c)
  }

  /** The scan loop of `alloc_data_block`: the lowest free block in [lo, hi), or -1. */
  function FirstFree(fs: Fs, lo: int, hi: int): (r: Res<int>)
    ensures r.Ok? ==> r.fs == fs && (r.v == -1 || (lo <= r.v < hi && Addressable(fs, r.v)))
    decreases hi - lo
  {
    if lo >= hi then Ok(fs, -1)
    else if !Addressable(fs, lo) then Fault
    else if IsFree(fs, lo) then Ok(fs, lo)
    else FirstFree(fs, lo + 1, hi)
  }

  /** A block that is not free does not change the answer of a scan that starts just past it. */
  lemma FirstFitSkip(fs: Fs, lo: int, hi: int, a: int)
    requires lo < hi && !FreeAt(fs, lo)
    requires FirstFit(fs, lo + 1, hi, a)
    ensures FirstFit(fs, lo, hi, a)
  {
  }

  /** First fit: the scan returns a block exactly when one is free, and it is the lowest. */
  lemma {:induction false} FirstFreeIsFirst(fs: Fs, lo: int, hi: int)
    requires 0 <= lo && hi <= |fs.blocks|
    ensures FirstFree(fs, lo, hi).Ok? ==> FirstFit(fs, lo, hi, FirstFree(fs, lo, hi).v)
    decreases hi - lo
  {
    if lo < hi && Addressable(fs, lo) && !IsFree(fs, lo) {
      FirstFreeIsFirst(fs, lo + 1, hi);
      FirstFreePast(fs, lo, hi);
    } else if lo < hi && Addressable(fs, lo) {
      FirstFreeHere(fs, lo, hi);
    } else if lo >= hi {
      assert FirstFree(fs, lo, hi) == Ok(fs, -1);
    } else {
      assert FirstFree(fs, lo, hi) == Fault;
    }
  }

  /** A scan that meets a free block first answers it. */
  lemma FirstFreeHere(fs: Fs, lo: int, hi: int)
    requires 0 <= lo < hi <= |fs.blocks| && Addressable(fs, lo) && IsFree(fs, lo)
    ensures FirstFree(fs, lo, hi) == Ok(fs, lo) && FirstFit(fs, lo, hi, lo)
  {
    assert FreeAt(fs, lo);
  }

  /** A scan that meets a used block first answers what the scan past it answers. */
  lemma FirstFreePast(fs: Fs, lo: int, hi: int)
    requires 0 <= lo < hi <= |fs.blocks| && Addressable(fs, lo) && !IsFree(fs, lo)
    requires FirstFree(fs, lo + 1, hi).Ok? ==> FirstFit(fs, lo + 1, hi, FirstFree(fs, lo + 1, hi).v)
    ensures FirstFree(fs, lo, hi) == FirstFree(fs, lo + 1, hi)
    ensures FirstFree(fs, lo, hi).Ok? ==> FirstFit(fs, lo, hi, FirstFree(fs, lo, hi).v)
  {
    var r := FirstFree(fs, lo + 1, hi);
    if r.Ok? {
      FirstFitSkip(fs, lo, hi, r.v);
    }
  }

  /** Every block below 32000 times the number of bitmap blocks the container could
      hold has a reachable bit. */
  lemma AddressableBelow(fs: Fs, c: int)
    requires 0 <= c < 32000 * (|fs.blocks| - 1)
    ensures Addressable(fs, c)
  {
    CDivModNonNegative(c, 32000);
  }

  /** The scan cannot fault when every bit it may look at is reachable. */
  lemma {:induction false} FirstFreeSucceeds(fs: Fs, lo: int, hi: int)
    requires 0 <= lo && hi <= 32000 * (|fs.blocks| - 1)
    ensures FirstFree(fs, lo, hi).Ok?
    decreases hi - lo
  {
    if lo < hi {
      AddressableBelow(fs, lo);
      if !IsFree(fs, lo) {
        FirstFreeSucceeds(fs, lo + 1, hi);
        assert FirstFree(fs, lo, hi) == FirstFree(fs, lo + 1, hi);
      } else {
        assert FirstFree(fs, lo, hi) == Ok(fs, lo);
      }
    } else {
      assert FirstFree(fs, lo, hi) == Ok(fs, -1);
    }
  }

  /** A block whose bit can be reached is numbered above -64000. */
  lemma AddressableAbove(fs: Fs, b: int)
    requires Addressable(fs, b)
    ensures b > -64000
  {
  }

  /** `alloc_data_block`: take the first free data block, clear its bit and decrement nb_l. */
  function AllocDataBlock(fs: Fs): (r: Res<i32>)
    ensures !r.Exit?
    ensures r.Ok? ==> |r.fs.blocks| == |fs.blocks|
  {
    var g := Geom(fs);
    var s := FirstFree(fs, g.DataStart(), g.nbb);
    if !s.Ok? then Fault
    else if s.v == -1 then Ok(fs, -1)
    else
      var a := s.v;
      AddressableAbove(fs, a);
      Ok(DecFree(BitmapAlloc(fs, a).fs), a)
  }

  /** What a first-fit allocation must do to a well-formed container: `a` is the lowest
      free block of the data region or -1 when there is none; -1 changes nothing;
      otherwise exactly a's bit is cleared, nb_l goes down by one and every inode and data
      block is left as it was. */
  ghost predicate AllocatedFirstFit(fs: Fs, fs': Fs, a: int) {
    var g := Geom(fs);
    && |fs'.blocks| == |fs.blocks|
    && FirstFit(fs, g.DataStart(), g.nbb, a)
    && (a == -1 ==> fs' == fs)
    && (a != -1 ==>
          && !FreeAt(fs', a)
          && (forall c :: c != a ==> FreeAt(fs', c) == FreeAt(fs, c))
          && SuperOf(fs') == SuperOf(fs).(nbL := WrapI32(SuperOf(fs).nbL - 1))
          && (forall c :: 0 <= c < |fs.blocks| && c >= g.InodeStart() ==> fs'.blocks[c] == fs.blocks[c]))
  }

  /** On a well-formed container `alloc_data_block` never faults, makes exactly the
      first-fit change and keeps the geometry. */
  lemma AllocDataBlockSpec(fs: Fs)
    requires WellFormed(fs)
    ensures AllocDataBlock(fs).Ok?
    ensures AllocatedFirstFit(fs, AllocDataBlock(fs).fs, AllocDataBlock(fs).v)
    ensures WellFormed(AllocDataBlock(fs).fs) && Geom(AllocDataBlock(fs).fs) == Geom(fs)
  {
    var g := Geom(fs);
    FirstFreeSucceeds(fs, g.DataStart(), g.nbb);
    FirstFreeIsFirst(fs, g.DataStart(), g.nbb);
    var s := FirstFree(fs, g.DataStart(), g.nbb);
    assert s.Ok? && s.fs == fs;
    if s.v != -1 {
      AllocTakes(fs, s.v);
    }
  }

  /** Taking the data block a: its bit is cleared, nb_l goes down, nothing else changes. */
  lemma TakeEffect(fs: Fs, a: int)
    requires WellFormed(fs)
    requires Geom(fs).DataStart() <= a < Geom(fs).nbb
    ensures BitmapAlloc(fs, a).Ok?
    ensures var fs' := DecFree(BitmapAlloc(fs, a).fs);
      && |fs'.blocks| == |fs.blocks|
      && !FreeAt(fs', a)
      && (forall c :: c != a ==> FreeAt(fs', c) == FreeAt(fs, c))
  {
    AddressableInWellFormed(fs, a);
    CounterWritesKeepBits(BitmapAlloc(fs, a).fs);
  }

  lemma TakeKeepsGeometry(fs: Fs, a: int)
    requires WellFormed(fs)
    requires Geom(fs).DataStart() <= a < Geom(fs).nbb
    ensures BitmapAlloc(fs, a).Ok?
    ensures var fs' := DecFree(BitmapAlloc(fs, a).fs);
      && SuperOf(fs') == SuperOf(fs).(nbL := WrapI32(SuperOf(fs).nbL - 1))
      && WellFormed(fs') && Geom(fs') == Geom(fs)
      && (forall c :: 0 <= c < |fs.blocks| && c >= Geom(fs).InodeStart() ==> fs'.blocks[c] == fs.blocks[c])
  {
    AddressableInWellFormed(fs, a);
    var fs1 := BitmapAlloc(fs, a).fs;
    assert fs1.blocks[0] == fs.blocks[0];
    SuperCountersOnly(fs1);
  }

  /** The second half of `alloc_data_block` once the scan found the free data block a. */
  lemma AllocTakes(fs: Fs, a: int)
    requires WellFormed(fs)
    requires var g := Geom(fs); FirstFree(fs, g.DataStart(), g.nbb) == Ok(fs, a) && a != -1
    requires FirstFit(fs, Geom(fs).DataStart(), Geom(fs).nbb, a)
    ensures AllocDataBlock(fs) == Ok(DecFree(BitmapAlloc(fs, a).fs), a)
    ensures AllocatedFirstFit(fs, AllocDataBlock(fs).fs, a)
    ensures WellFormed(AllocDataBlock(fs).fs) && Geom(AllocDataBlock(fs).fs) == Geom(fs)
  {
    TakeEffect(fs, a);
    TakeKeepsGeometry(fs, a);
  }

  /** Allocation keeps the counters honest: nb_l still counts the free data blocks and
      nb_f the live inodes. */
  lemma AllocKeepsCounted(fs: Fs)
    requires WellFormed(fs) && Counted(fs)
    ensures AllocDataBlock(fs).Ok? && Counted(AllocDataBlock(fs).fs)
  {
    AllocDataBlockSpec(fs);
    var r := AllocDataBlock(fs);
    FirstFitKeepsCounted(fs, r.fs, r.v);
  }

  lemma FirstFitKeepsCounted(fs: Fs, fs': Fs, a: int)
    requires WellFormed(fs) && Counted(fs)
    requires AllocatedFirstFit(fs, fs', a)
    requires Geom(fs') == Geom(fs)
    ensures Counted(fs')
  {
    var g := Geom(fs);
    if a != -1 {
      FreeCountOne(fs, fs', a, g.DataStart(), g.nbb);
      LiveCountFrame(fs, fs', g.InodeStart(), g.DataStart());
    }
  }
}
