/** The container: a sequence of 4096-byte blocks whose block 0 is the superblock.

    The container is the memory-mapped file the commands work on. Every operation of the
    storage engine is a function from a container to a `Res`: either the new container
    with a value, `Exit` when the code calls `fatal_error` (the mapping is shared, so
    every write made before the exit stays in the file), or `Fault` when the code would
    read or write outside the mapping or outside an array (undefined behaviour).
 */
module Container {
  import opened Codec
  import opened Blocks

  function ZeroData(): Data {
    seq(4000, _ => 0 as byte)
  }

  datatype Disk = Disk(blocks: seq<Block>)

  /** A mapped container always has its superblock. */
  type Fs = c: Disk | |c.blocks| > 0
    witness Disk([Block(BytesP(ZeroData()), Sha1(ZeroData()), TagSuper)])

  datatype Res<T> = Ok(fs: Fs, v: T) | Exit(fs: Fs) | Fault
  {
    predicate IsFailure() {
      !Ok?
    }

    function PropagateFailure<U>(): Res<U>
      requires !Ok?
    {
      if Exit? then Exit(fs) else Fault
    }

    function Extract(): (Fs, T)
      requires Ok?
    {
      (fs, v)
    }
  }

  /** Storing `x` into an `int32_t`: two's complement wrap-around. */
  function WrapI32(x: int): (r: i32)
    ensures (r - x) % TWO32 == 0
    ensures IsI32(x) ==> r == x
  {
    var u := x % TWO32;
    if u >= TWO31 then u - TWO32 else u
  }

  /** C's `/` on ints: the quotient truncated toward zero. */
  function CDiv(a: int, d: int): int
    requires d > 0
  {
    if a >= 0 then a / d else -((-a) / d)
  }

  /** C's `%` on ints: the remainder takes the sign of the dividend. */
  function CMod(a: int, d: int): int
    requires d > 0
  {
    a - d * CDiv(a, d)
  }

  lemma CDivModNonNegative(a: int, d: int)
    requires a >= 0 && d > 0
    ensures CDiv(a, d) == a / d && CMod(a, d) == a % d
  {
  }

  predicate InRange(fs: Fs, b: int) {
    0 <= b < |fs.blocks|
  }

  function SuperOf(fs: Fs): Super {
    AsSuper(fs.blocks[0].payload)
  }

  /** The four geometry numbers `get_conteneur_data` derives from the superblock. */
  datatype Geo = Geo(nb1: int, nbi: int, nba: int, nbb: int)
  {
    function InodeStart(): int {
      1 + nb1
    }

    function DataStart(): int {
      1 + nb1 + nbi
    }
  }

  function Geom(fs: Fs): (g: Geo)
    ensures g.nbb == 1 + g.nb1 + g.nbi + g.nba
  {
    var s := SuperOf(fs);
    Geo(s.nbB - 1 - s.nbI - s.nbA, s.nbI, s.nbA, s.nbB)
  }

  /** The container is laid out as `mkfs` leaves it: its size matches `nb_b`, every region
      is non-negative, and every block has a bit in the bitmap. */
  predicate WellFormed(fs: Fs) {
    var g := Geom(fs);
    g.nbb == |fs.blocks| && g.nb1 >= 1 && g.nbi >= 0 && g.nba >= 0 && g.nbb <= 32000 * g.nb1
  }

  // ---------------------------------------------------------------------------
  // Writes

  function Put(fs: Fs, b: int, blk: Block): (r: Fs)
    requires InRange(fs, b)
    ensures |r.blocks| == |fs.blocks|
  {
    Disk(fs.blocks[b := blk])
  }

  /** Replace a block's payload; its stored digest and tag stay as they were. */
  function SetPayload(fs: Fs, b: int, p: Payload): (r: Fs)
    requires InRange(fs, b)
    ensures |r.blocks| == |fs.blocks|
  {
    Put(fs, b, fs.blocks[b].(payload := p))
  }

  /** `calcul_sha1` over block b's payload into its digest field. */
  function Rehash(fs: Fs, b: int): (r: Fs)
    requires InRange(fs, b)
    ensures |r.blocks| == |fs.blocks|
  {
    Put(fs, b, fs.blocks[b].(hash := Hash(fs.blocks[b].payload)))
  }

  function SetTag(fs: Fs, b: int, t: u32): (r: Fs)
    requires InRange(fs, b)
    ensures |r.blocks| == |fs.blocks|
  {
    Put(fs, b, fs.blocks[b].(tag := t))
  }

  function InodeAt(fs: Fs, b: int): Inode
    requires InRange(fs, b)
  {
    AsInode(fs.blocks[b].payload)
  }

  function WordsAt(fs: Fs, b: int): Addresses
    requires InRange(fs, b)
  {
    AsWords(fs.blocks[b].payload)
  }

  function DataAt(fs: Fs, b: int): Data
    requires InRange(fs, b)
  {
    AsBytes(fs.blocks[b].payload)
  }

  /** Write through a `struct inode *` at block b. */
  function SetInode(fs: Fs, b: int, n: Inode): (r: Fs)
    requires InRange(fs, b)
    ensures |r.blocks| == |fs.blocks|
  {
    SetPayload(fs, b, InodeP(n))
  }

  function SetWords(fs: Fs, b: int, w: Addresses): (r: Fs)
    requires InRange(fs, b)
    ensures |r.blocks| == |fs.blocks|
  {
    SetPayload(fs, b, WordsP(w))
  }

  function SetData(fs: Fs, b: int, d: Data): (r: Fs)
    requires InRange(fs, b)
    ensures |r.blocks| == |fs.blocks|
  {
    SetPayload(fs, b, BytesP(d))
  }

  /** Change one superblock counter and rehash block 0, as `decremente_lbl` and friends do. */
  function SetSuper(fs: Fs, s: Super): (r: Fs)
    ensures |r.blocks| == |fs.blocks|
  {
    Rehash(SetPayload(fs, 0, SuperP(s)), 0)
  }

  /** `decremente_lbl`: nb_l - 1. */
  function DecFree(fs: Fs): Fs {
    var s := SuperOf(fs);
    SetSuper(fs, s.(nbL := WrapI32(s.nbL - 1)))
  }

  /** `incremente_lbl`: nb_l + 1. */
  function IncFree(fs: Fs): Fs {
    var s := SuperOf(fs);
    SetSuper(fs, s.(nbL := WrapI32(s.nbL + 1)))
  }

  /** `decrement_nb_f`. */
  function DecFiles(fs: Fs): Fs {
    var s := SuperOf(fs);
    SetSuper(fs, s.(nbF := WrapI32(s.nbF - 1)))
  }

  /** `increment_nb_f`. */
  function IncFiles(fs: Fs): Fs {
    var s := SuperOf(fs);
    SetSuper(fs, s.(nbF := WrapI32(s.nbF + 1)))
  }

  lemma SuperCountersOnly(fs: Fs)
    ensures Geom(DecFree(fs)) == Geom(fs) && Geom(IncFree(fs)) == Geom(fs)
    ensures Geom(DecFiles(fs)) == Geom(fs) && Geom(IncFiles(fs)) == Geom(fs)
    ensures SuperOf(DecFree(fs)).nbL == WrapI32(SuperOf(fs).nbL - 1)
    ensures SuperOf(IncFree(fs)).nbL == WrapI32(SuperOf(fs).nbL + 1)
    ensures SuperOf(DecFiles(fs)).nbF == WrapI32(SuperOf(fs).nbF - 1)
    ensures SuperOf(IncFiles(fs)).nbF == WrapI32(SuperOf(fs).nbF + 1)
    ensures SuperOf(DecFree(fs)).nbF == SuperOf(fs).nbF && SuperOf(IncFree(fs)).nbF == SuperOf(fs).nbF
    ensures SuperOf(DecFiles(fs)).nbL == SuperOf(fs).nbL && SuperOf(IncFiles(fs)).nbL == SuperOf(fs).nbL
    ensures forall b :: 1 <= b < |fs.blocks| ==> DecFree(fs).blocks[b] == fs.blocks[b]
    ensures forall b :: 1 <= b < |fs.blocks| ==> IncFree(fs).blocks[b] == fs.blocks[b]
    ensures forall b :: 1 <= b < |fs.blocks| ==> DecFiles(fs).blocks[b] == fs.blocks[b]
    ensures forall b :: 1 <= b < |fs.blocks| ==> IncFiles(fs).blocks[b] == fs.blocks[b]
  {
  }

  // ---------------------------------------------------------------------------
  // Bitmap addressing: block b owns bit b % 32000 of bitmap block b / 32000 + 1

  function BitmapBlock(b: int): int {
    CDiv(b, 32000) + 1
  }

  function BitmapBit(b: int): int {
    CMod(b, 32000)
  }

  /** The bit of block b can be reached without leaving the mapping or the bit array. */
  predicate Addressable(fs: Fs, b: int) {
    BitmapBit(b) >= 0 && InRange(fs, BitmapBlock(b))
  }

  /** Bit value 1: the block is free. */
  predicate IsFree(fs: Fs, b: int)
    requires Addressable(fs, b)
  {
    AsBits(fs.blocks[BitmapBlock(b)].payload)[BitmapBit(b)]
  }

  /** Block b of the container is marked free. */
  predicate FreeAt(fs: Fs, b: int) {
    InRange(fs, b) && Addressable(fs, b) && IsFree(fs, b)
  }

  /** The bit seen by `check_bitmap_bit`, `bitmap_alloc` and `bitmap_dealloc` is bit
      `(b % 32000) % 8` of byte `(b % 32000) / 8` of the bitmap block's payload. */
  lemma BitIsByteBit(fs: Fs, b: int)
    requires Addressable(fs, b)
    ensures IsFree(fs, b) == BitOf(AsBytes(fs.blocks[BitmapBlock(b)].payload)[BitmapBit(b) / 8], BitmapBit(b) % 8)
  {
    ViewsAgreeWithImage(fs.blocks[BitmapBlock(b)].payload);
  }

  lemma AddressableInWellFormed(fs: Fs, b: int)
    requires WellFormed(fs)
    requires 0 <= b < Geom(fs).nbb
    ensures Addressable(fs, b)
    ensures 1 <= BitmapBlock(b) <= Geom(fs).nb1
  {
    CDivModNonNegative(b, 32000);
  }

  /** Counter updates touch only block 0, which holds no block's bit. */
  lemma CounterWritesKeepBits(fs: Fs)
    ensures forall c :: FreeAt(DecFree(fs), c) == FreeAt(fs, c)
    ensures forall c :: FreeAt(IncFree(fs), c) == FreeAt(fs, c)
    ensures forall c :: FreeAt(DecFiles(fs), c) == FreeAt(fs, c)
    ensures forall c :: FreeAt(IncFiles(fs), c) == FreeAt(fs, c)
  {
    SuperCountersOnly(fs);
    forall c | 0 <= c
      ensures BitmapBlock(c) >= 1
    {
      CDivModNonNegative(c, 32000);
    }
  }

  /** Writing one block past the bitmap keeps the geometry and every bit of the bitmap. */
  lemma WriteAboveHeader(fs: Fs, fs': Fs, b: int)
    requires WellFormed(fs) && InRange(fs, b) && b > Geom(fs).nb1
    requires |fs'.blocks| == |fs.blocks|
    requires forall c :: 0 <= c < |fs.blocks| && c != b ==> fs'.blocks[c] == fs.blocks[c]
    ensures WellFormed(fs') && Geom(fs') == Geom(fs)
    ensures forall c :: FreeAt(fs', c) == FreeAt(fs, c)
  {
    assert fs'.blocks[0] == fs.blocks[0];
    forall c | InRange(fs, c)
      ensures FreeAt(fs', c) == FreeAt(fs, c)
    {
      AddressableInWellFormed(fs, c);
    }
  }

  // ---------------------------------------------------------------------------
  // Counters

  /** Number of free bits among blocks lo..hi-1. */
  function FreeCount(fs: Fs, lo: int, hi: int): nat
    decreases hi - lo
  {
    if lo >= hi then 0 else (if FreeAt(fs, lo) then 1 else 0) + FreeCount(fs, lo + 1, hi)
  }

  predicate LiveAt(fs: Fs, b: int) {
    InRange(fs, b) && Has(InodeAt(fs, b).flags, FlagExists)
  }

  /** Number of inodes with the exists bit among blocks lo..hi-1. */
  function LiveCount(fs: Fs, lo: int, hi: int): nat
    decreases hi - lo
  {
    if lo >= hi then 0 else (if LiveAt(fs, lo) then 1 else 0) + LiveCount(fs, lo + 1, hi)
  }

  /** The superblock counters agree with the bitmap and the inode table:
      nb_l counts the free bits of the data region, nb_f the live inodes. */
  predicate Counted(fs: Fs) {
    var g := Geom(fs);
    SuperOf(fs).nbL == FreeCount(fs, g.DataStart(), g.nbb)
      && SuperOf(fs).nbF == LiveCount(fs, g.InodeStart(), g.DataStart())
  }

  lemma {:induction false} FreeCountFrame(fs: Fs, fs': Fs, lo: int, hi: int)
    requires forall c :: lo <= c < hi ==> FreeAt(fs, c) == FreeAt(fs', c)
    ensures FreeCount(fs, lo, hi) == FreeCount(fs', lo, hi)
    decreases hi - lo
  {
    if lo < hi {
      FreeCountFrame(fs, fs', lo + 1, hi);
    }
  }

  /** Changing the bit of one block a changes the count by exactly that bit's change. */
  lemma {:induction false} FreeCountOne(fs: Fs, fs': Fs, a: int, lo: int, hi: int)
    requires lo <= a < hi
    requires forall c :: lo <= c < hi && c != a ==> FreeAt(fs, c) == FreeAt(fs', c)
    ensures FreeCount(fs', lo, hi) + (if FreeAt(fs, a) then 1 else 0)
         == FreeCount(fs, lo, hi) + (if FreeAt(fs', a) then 1 else 0)
    decreases hi - lo
  {
    if lo == a {
      FreeCountFrame(fs, fs', lo + 1, hi);
    } else {
      FreeCountOne(fs, fs', a, lo + 1, hi);
    }
  }

  lemma {:induction false} LiveCountFrame(fs: Fs, fs': Fs, lo: int, hi: int)
    requires forall c :: lo <= c < hi ==> LiveAt(fs, c) == LiveAt(fs', c)
    ensures LiveCount(fs, lo, hi) == LiveCount(fs', lo, hi)
    decreases hi - lo
  {
    if lo < hi {
      LiveCountFrame(fs, fs', lo + 1, hi);
    }
  }

  lemma {:induction false} LiveCountOne(fs: Fs, fs': Fs, a: int, lo: int, hi: int)
    requires lo <= a < hi
    requires forall c :: lo <= c < hi && c != a ==> LiveAt(fs, c) == LiveAt(fs', c)
    ensures LiveCount(fs', lo, hi) + (if LiveAt(fs, a) then 1 else 0)
         == LiveCount(fs, lo, hi) + (if LiveAt(fs', a) then 1 else 0)
    decreases hi - lo
  {
    if lo == a {
      LiveCountFrame(fs, fs', lo + 1, hi);
    } else {
      LiveCountOne(fs, fs', a, lo + 1, hi);
    }
  }

  lemma {:induction false} FreeCountBound(fs: Fs, lo: int, hi: int)
    ensures FreeCount(fs, lo, hi) <= if lo < hi then hi - lo else 0
    decreases hi - lo
  {
    if lo < hi {
      FreeCountBound(fs, lo + 1, hi);
    }
  }
}
