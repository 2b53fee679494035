/** `cmd_mkfs` (src/cmd_mkfs.c): size the bitmap so that it has a bit for every block,
    then lay out a fresh container: the superblock, the bitmap marking the inode and
    data regions free, zeroed inodes and zeroed data blocks, every block hashed.

    Opening, sizing and mapping the file are left out: the container is the value the
    layout produces, one block per 4096 bytes of the `nbb * 4096`-byte file.
 */
module Mkfs {
  import opened Codec
  import opened Blocks
  import opened Container
  import opened Entries
  import opened DirTree

  /** The bytes of "pignoufs". */
  function MagicText(): (m: Magic) {
    [112, 105, 103, 110, 111, 117, 102, 115]
  }

  /** `(int32_t)ceil(a / 32000.0)` for a non-negative a below 2^31: the double quotient
      never rounds across an integer there, so this is the exact ceiling. */
  function CeilDiv(a: nat, d: nat): (q: nat)
    requires d > 0
    ensures q * d >= a && (q == 0 || (q - 1) * d < a)
  {
    (a + d - 1) / d
  }

  /** The largest inode plus data count the computation handles without an `int32_t`
      overflow of `nbb`. */
  const MaxEntries: int := 2_000_000_000

  /** x bitmap blocks have a bit for each of the 1 + x + nbi + nba blocks and no spare
      bitmap block. */
  predicate IsNb1(x: int, nbi: nat, nba: nat) {
    x >= 0 && x == CeilDiv(1 + x + nbi + nba, 32000)
  }

  lemma CeilDivMonotone(a: nat, b: nat, d: nat)
    requires d > 0 && a <= b
    ensures CeilDiv(a, d) <= CeilDiv(b, d)
  {
    var x, y := a + d - 1, b + d - 1;
    var qx, qy := x / d, y / d;
    assert x == d * qx + x % d && 0 <= x % d < d;
    assert y == d * qy + y % d && 0 <= y % d < d;
    assert d * qx <= y < d * qy + d;
    assert d * qy + d == d * (qy + 1);
    MulCancel(d, qx, qy + 1);
  }

  /** Multiplying by a positive d keeps a strict order only between a smaller and a
      larger factor. */
  lemma MulCancel(d: nat, a: int, b: int)
    requires d > 0
    ensures d * a < d * b ==> a < b
  {
    if a >= b {
      MulMonotone(d, b, a);
    }
  }

  lemma {:induction false} MulMonotone(d: nat, m: int, n: int)
    requires m <= n
    ensures d * m <= d * n
    decreases n - m
  {
    if m < n {
      MulMonotone(d, m + 1, n);
      assert d * (m + 1) == d * m + d;
    }
  }

  /** The fixed-point loop at the top of `cmd_mkfs`: start from the bitmap size for the
      blocks without bitmap, recompute it for the total until it stops changing. It
      stops, at the least bitmap size that covers the whole container. */
  method Nb1FixedPoint(nbi: nat, nba: nat) returns (nb1: int, nbb: int)
    requires nbi + nba <= MaxEntries
    ensures IsNb1(nb1, nbi, nba) && nbb == 1 + nb1 + nbi + nba && nb1 >= 1
    ensures forall x :: IsNb1(x, nbi, nba) ==> nb1 <= x
    ensures IsI32(nbb) && nbb <= 32000 * nb1
  {
    nb1 := CeilDiv(1 + nbi + nba, 32000);
    nbb := 1 + nb1 + nbi + nba;
    CeilDivMonotone(1 + nbi + nba, nbb, 32000);
    forall x | IsNb1(x, nbi, nba)
      ensures nb1 <= x
    {
      CeilDivMonotone(1 + nbi + nba, 1 + x + nbi + nba, 32000);
    }
    while true
      invariant nbb == 1 + nb1 + nbi + nba && 1 <= nb1 <= 1 + nbi + nba
      invariant nb1 <= CeilDiv(nbb, 32000)
      invariant forall x :: IsNb1(x, nbi, nba) ==> nb1 <= x
      decreases 1 + nbi + nba - nb1
    {
      var nb1New := CeilDiv(nbb, 32000);
      if nb1New == nb1 {
        break;
      }
      forall x | IsNb1(x, nbi, nba)
        ensures nb1New <= x
      {
        CeilDivMonotone(nbb, 1 + x + nbi + nba, 32000);
      }
      CeilDivMonotone(nbb, 1 + nb1New + nbi + nba, 32000);
      nb1 := nb1New;
      nbb := 1 + nb1 + nbi + nba;
    }
  }

  // ---------------------------------------------------------------------------
  // The initial image

  /** An inode block after `memset(in, 0, sizeof(*in))`: every field zero, so no exists
      bit and every pointer 0. */
  function ZeroInode(): (n: Inode)
    ensures !Exists(n) && !IsDir(n)
  {
    Inode(0, 0, 0, 0, 0, seq(256, _ => 0), seq(900, _ => 0), 0, 0, seq(116, _ => 0))
  }

  /** A block holding payload p, hashed, with tag t. */
  function SealedBlock(p: Payload, t: u32): (blk: Block)
    ensures Sealed(blk) && blk.tag == t && blk.payload == p
  {
    Block(p, Hash(p), t)
  }

  /** The superblock `cmd_mkfs` writes: the magic, the counts, nb_l = nba free data
      blocks and nb_f = 0 files. */
  function FormatSuper(nbi: i32, nba: i32, nbb: i32): Super {
    Super(MagicText(), nbb, nbi, nba, nba, 0, seq(3972, _ => 0))
  }

  /** Bitmap block i + 1: bit j is 1 (free) exactly for the blocks i * 32000 + j of the
      inode and data regions. */
  function FormatBits(i: int, nb1: int, nbb: int): Bitmap {
    seq(32000, j => 1 + nb1 <= i * 32000 + j < nbb)
  }

  /** Block b of the fresh container. */
  function FormatBlock(b: int, nbi: i32, nba: i32, nb1: int, nbb: i32): Block {
    if b == 0 then SealedBlock(SuperP(FormatSuper(nbi, nba, nbb)), TagSuper)
    else if b <= nb1 then SealedBlock(BitsP(FormatBits(b - 1, nb1, nbb)), TagBitmap)
    else if b <= nb1 + nbi then SealedBlock(InodeP(ZeroInode()), TagInode)
    else SealedBlock(BytesP(ZeroData()), TagFree)
  }

  /** The container `cmd_mkfs` leaves behind for a bitmap of nb1 blocks. */
  function Format(nbi: i32, nba: i32, nb1: int, nbb: i32): (fs: Fs)
    requires nbi >= 0 && nba >= 0 && nb1 >= 1 && nbb == 1 + nb1 + nbi + nba
  {
    Disk(seq(nbb, b => FormatBlock(b, nbi, nba, nb1, nbb)))
  }

  /** The layout of the fresh container: its geometry is the one asked for, every block
      is sealed, blocks 1..nb1 are bitmap blocks, the inode blocks are zeroed and free,
      the data blocks zeroed and tagged free. */
  lemma FormatLayout(nbi: i32, nba: i32, nb1: int, nbb: i32)
    requires nbi >= 0 && nba >= 0 && nb1 >= 1 && nbb == 1 + nb1 + nbi + nba && nbb <= 32000 * nb1
    ensures var fs := Format(nbi, nba, nb1, nbb);
      && WellFormed(fs) && Geom(fs) == Geo(nb1, nbi, nba, nbb)
      && SuperOf(fs) == FormatSuper(nbi, nba, nbb) && SuperOf(fs).magic == MagicText()
      && SuperOf(fs).nbL == nba && SuperOf(fs).nbF == 0 && fs.blocks[0].tag == TagSuper
    ensures var fs := Format(nbi, nba, nb1, nbb);
      forall b :: 0 <= b < nbb ==> Sealed(fs.blocks[b])
    ensures var fs := Format(nbi, nba, nb1, nbb);
      forall b :: 1 <= b <= nb1 ==> fs.blocks[b].tag == TagBitmap
    ensures var fs := Format(nbi, nba, nb1, nbb);
      forall b :: 1 + nb1 <= b < 1 + nb1 + nbi ==> fs.blocks[b].tag == TagInode && InodeAt(fs, b) == ZeroInode()
    ensures var fs := Format(nbi, nba, nb1, nbb);
      forall b :: 1 + nb1 + nbi <= b < nbb ==> fs.blocks[b].tag == TagFree && DataAt(fs, b) == ZeroData()
  {
    var fs := Format(nbi, nba, nb1, nbb);
    assert fs.blocks[0] == FormatBlock(0, nbi, nba, nb1, nbb);
  }

  /** The fresh bitmap marks exactly the inode and data regions free. */
  lemma FormatBitmap(nbi: i32, nba: i32, nb1: int, nbb: i32)
    requires nbi >= 0 && nba >= 0 && nb1 >= 1 && nbb == 1 + nb1 + nbi + nba && nbb <= 32000 * nb1
    ensures var fs := Format(nbi, nba, nb1, nbb);
      forall b :: FreeAt(fs, b) <==> 1 + nb1 <= b < nbb
  {
    var fs := Format(nbi, nba, nb1, nbb);
    FormatLayout(nbi, nba, nb1, nbb);
    forall b | 0 <= b < nbb
      ensures FreeAt(fs, b) <==> 1 + nb1 <= b
    {
      AddressableInWellFormed(fs, b);
      CDivModNonNegative(b, 32000);
      var i := BitmapBlock(b) - 1;
      assert fs.blocks[i + 1] == FormatBlock(i + 1, nbi, nba, nb1, nbb);
      assert i * 32000 + BitmapBit(b) == b;
    }
  }

  /** Every block of lo..hi-1 free: all of them are counted. */
  lemma {:induction false} FreeCountAll(fs: Fs, lo: int, hi: int)
    requires lo <= hi && forall b :: lo <= b < hi ==> FreeAt(fs, b)
    ensures FreeCount(fs, lo, hi) == hi - lo
    decreases hi - lo
  {
    if lo < hi {
      FreeCountAll(fs, lo + 1, hi);
    }
  }

  /** No inode of lo..hi-1 live: none is counted. */
  lemma {:induction false} LiveCountNone(fs: Fs, lo: int, hi: int)
    requires forall b :: lo <= b < hi ==> !LiveAt(fs, b)
    ensures LiveCount(fs, lo, hi) == 0
    decreases hi - lo
  {
    if lo < hi {
      LiveCountNone(fs, lo + 1, hi);
    }
  }

  /** Right after the format the counters are honest: nb_l = nba free data blocks,
      nb_f = 0 live inodes. */
  lemma FormatCounted(nbi: i32, nba: i32, nb1: int, nbb: i32)
    requires nbi >= 0 && nba >= 0 && nb1 >= 1 && nbb == 1 + nb1 + nbi + nba && nbb <= 32000 * nb1
    ensures Counted(Format(nbi, nba, nb1, nbb))
  {
    FormatLayout(nbi, nba, nb1, nbb);
    FormatBitmap(nbi, nba, nb1, nbb);
    FormatNoLive(nbi, nba, nb1, nbb);
    CountedWhenEmpty(Format(nbi, nba, nb1, nbb));
  }

  /** No inode of the fresh container is live. */
  lemma FormatNoLive(nbi: i32, nba: i32, nb1: int, nbb: i32)
    requires nbi >= 0 && nba >= 0 && nb1 >= 1 && nbb == 1 + nb1 + nbi + nba && nbb <= 32000 * nb1
    ensures forall b :: 1 + nb1 <= b < 1 + nb1 + nbi ==> !LiveAt(Format(nbi, nba, nb1, nbb), b)
  {
    var fs := Format(nbi, nba, nb1, nbb);
    forall b | 1 + nb1 <= b < 1 + nb1 + nbi
      ensures !LiveAt(fs, b)
    {
      assert fs.blocks[b] == FormatBlock(b, nbi, nba, nb1, nbb);
    }
  }

  /** A container whose data region is all free and whose inodes are all dead has honest
      counters when nb_l is the size of the data region and nb_f is 0. */
  lemma CountedWhenEmpty(fs: Fs)
    requires Geom(fs).nba >= 0 && Geom(fs).nbi >= 0
    requires forall b :: Geom(fs).DataStart() <= b < Geom(fs).nbb ==> FreeAt(fs, b)
    requires forall b :: Geom(fs).InodeStart() <= b < Geom(fs).DataStart() ==> !LiveAt(fs, b)
    requires SuperOf(fs).nbL == Geom(fs).nba && SuperOf(fs).nbF == 0
    ensures Counted(fs)
  {
    var g := Geom(fs);
    FreeCountAll(fs, g.DataStart(), g.nbb);
    LiveCountNone(fs, g.InodeStart(), g.DataStart());
  }

  /** Right after the format no inode is a directory, so none lists anything. */
  lemma FormatTidy(nbi: i32, nba: i32, nb1: int, nbb: i32)
    requires nbi >= 0 && nba >= 0 && nb1 >= 1 && nbb == 1 + nb1 + nbi + nba && nbb <= 32000 * nb1
    ensures Tidy(Format(nbi, nba, nb1, nbb))
  {
    var fs := Format(nbi, nba, nb1, nbb);
    FormatLayout(nbi, nba, nb1, nbb);
    forall b | InRange(fs, b) && InInodes(fs, b)
      ensures !IsDir(InodeAt(fs, b))
    {
      assert InodeAt(fs, b) == ZeroInode();
    }
  }

  /** `cmd_mkfs(nbi, nba)`: the least bitmap covering the container, then the fresh
      layout, well formed, with honest counters, every block sealed and exactly the inode
      and data regions free. */
  method CmdMkfs(nbi: i32, nba: i32) returns (fs: Fs)
    requires nbi >= 0 && nba >= 0 && nbi + nba <= MaxEntries
    ensures WellFormed(fs) && Counted(fs) && Tidy(fs)
    ensures Geom(fs).nbi == nbi && Geom(fs).nba == nba && IsNb1(Geom(fs).nb1, nbi, nba)
    ensures forall x :: IsNb1(x, nbi, nba) ==> Geom(fs).nb1 <= x
    ensures SuperOf(fs).magic == MagicText() && SuperOf(fs).nbL == nba && SuperOf(fs).nbF == 0
    ensures forall b :: 0 <= b < |fs.blocks| ==> Sealed(fs.blocks[b])
    ensures forall b :: FreeAt(fs, b) <==> Geom(fs).InodeStart() <= b < |fs.blocks|
  {
    var nb1, nbb := Nb1FixedPoint(nbi, nba);
    fs := Format(nbi, nba, nb1, nbb);
    FormatLayout(nbi, nba, nb1, nbb);
    FormatBitmap(nbi, nba, nb1, nbb);
    FormatCounted(nbi, nba, nb1, nbb);
    FormatTidy(nbi, nba, nb1, nbb);
  }
}
