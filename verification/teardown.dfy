/** Tearing a file down: `dealloc_data_block` and `delete_inode` of src/utilitaires.c.

    Every data or address block reachable from the inode is released leaf-first: direct
    blocks up to the first negative slot, then the entries of a single-indirect table up
    to the first negative entry, or, under a double-indirect table, the entries of each
    second-level table followed by that table, and finally the top table itself. A
    released block is tagged 4, rehashed and marked free, its slot is set to -1 and nb_l
    goes up by one. The loops re-read the container after every write, as the code does
    through its pointers.
 */
module Teardown {
  import opened Codec
  import opened Blocks
  import opened Container
  import opened Allocator
  import opened Growth

  /** `db->type = 4`, the digest recomputed, then `bitmap_dealloc(b)`. */
  function Release(fs: Fs, b: int): (r: Res<()>)
    ensures r.Ok? ==> |r.fs.blocks| == |fs.blocks|
  {
    if !InRange(fs, b) then Fault
    else BitmapDealloc(Rehash(SetTag(fs, b, TagFree), b), b)
  }

  /** The direct loop from slot i: release each block up to the first negative slot,
      clearing the slot and counting the block free. */
  function FreeDirect(fs: Fs, ino: int, i: int): (r: Res<()>)
    requires InRange(fs, ino) && 0 <= i <= 900
    ensures r.Ok? ==> |r.fs.blocks| == |fs.blocks|
    decreases 900 - i
  {
    if i == 900 then Ok(fs, ())
    else
      var b := InodeAt(fs, ino).direct[i];
      if b < 0 then Ok(fs, ())
      else
        var t := Release(fs, b);
        if !t.Ok? then Fault else FreeDirect(ClearSlot(t.fs, ino, i), ino, i + 1)
  }

  /** `in->direct_blocks[i] = -1` followed by `incremente_lbl`. */
  function ClearSlot(fs: Fs, ino: int, i: int): (r: Fs)
    requires InRange(fs, ino) && 0 <= i < 900
    ensures |r.blocks| == |fs.blocks|
  {
    var n := InodeAt(fs, ino);
    IncFree(SetInode(fs, ino, n.(direct := n.direct[i := NoBlock])))
  }

  /** `tbl->addresses[i] = -1` followed by `incremente_lbl`. */
  function ClearEntry(fs: Fs, d: int, i: int): (r: Fs)
    requires InRange(fs, d) && 0 <= i < 1000
    ensures |r.blocks| == |fs.blocks|
  {
    IncFree(SetWords(fs, d, WordsAt(fs, d)[i := NoBlock]))
  }

  /** The entry loop over table d from entry i: the single-indirect case, and the inner
      loop of the double-indirect case. */
  function FreeEntries(fs: Fs, d: int, i: int): (r: Res<()>)
    requires InRange(fs, d) && 0 <= i <= 1000
    ensures r.Ok? ==> |r.fs.blocks| == |fs.blocks|
    decreases 1000 - i
  {
    if i == 1000 then Ok(fs, ())
    else
      var b := WordsAt(fs, d)[i];
      if b < 0 then Ok(fs, ())
      else
        var t := Release(fs, b);
        if !t.Ok? then Fault
        else FreeEntries(ClearEntry(t.fs, d, i), d, i + 1)
  }

  /** The outer loop of the double-indirect case from entry i of d: empty each
      second-level table, release it, clear its entry and count it free. */
  function FreeTables(fs: Fs, d: int, i: int): (r: Res<()>)
    requires InRange(fs, d) && 0 <= i <= 1000
    ensures r.Ok? ==> |r.fs.blocks| == |fs.blocks|
    decreases 1000 - i
  {
    if i == 1000 || WordsAt(fs, d)[i] < 0 then Ok(fs, ())
    else
      var t := DropTable(fs, d, i);
      if !t.Ok? then Fault else FreeTables(t.fs, d, i + 1)
  }

  /** One turn of the outer loop: empty the second-level table e named by entry i of d,
      tag it 4, rehash it, release the block entry i names now, clear the entry and
      count it free. */
  function DropTable(fs: Fs, d: int, i: int): (r: Res<()>)
    requires InRange(fs, d) && 0 <= i < 1000
    ensures r.Ok? ==> |r.fs.blocks| == |fs.blocks|
  {
    var e := WordsAt(fs, d)[i];
    if !InRange(fs, e) then Fault
    else
      var t := FreeEntries(fs, e, 0);
      if !t.Ok? then Fault
      else
        var fs1 := Rehash(SetTag(t.fs, e, TagFree), e);
        var u := BitmapDealloc(fs1, WordsAt(fs1, d)[i]);
        if !u.Ok? then Fault else Ok(ClearEntry(u.fs, d, i), ())
  }

  /** The indirect part: empty table d by its tag, then rehash it, tag it 4, release the
      block the inode still names and count it free. */
  function FreeIndirect(fs: Fs, ino: int, d: int): (r: Res<()>)
    requires InRange(fs, ino)
    ensures r.Ok? ==> |r.fs.blocks| == |fs.blocks|
  {
    if !InRange(fs, d) then Fault
    else
      var t := if fs.blocks[d].tag == TagSingle then FreeEntries(fs, d, 0) else FreeTables(fs, d, 0);
      if !t.Ok? then Fault
      else
        var fs1 := SetTag(Rehash(t.fs, d), d, TagFree);
        var u := BitmapDealloc(fs1, InodeAt(fs1, ino).indirect);
        if !u.Ok? then Fault else Ok(IncFree(u.fs), ())
  }

  /** `dealloc_data_block`: release every block of inode ino, then set its indirect
      pointer to -1, its size to 0 and its modification time to `now`, and rehash it. */
  function DeallocDataBlock(fs: Fs, ino: int, now: u32): (r: Res<()>)
    requires InRange(fs, ino)
    ensures r.Ok? ==> |r.fs.blocks| == |fs.blocks|
  {
    var t := FreeDirect(fs, ino, 0);
    if !t.Ok? then Fault
    else
      var d := InodeAt(t.fs, ino).indirect;
      var u := if d < 0 then Ok(t.fs, ()) else FreeIndirect(t.fs, ino, d);
      if !u.Ok? then Fault
      else
        var n := InodeAt(u.fs, ino);
        Ok(Rehash(SetInode(u.fs, ino, n.(indirect := NoBlock, size := 0, mtime := now)), ino), ())
  }

  /** A name area cleared with `memset(..., 0, ...)`. */
  function NoName(): (s: Name)
    ensures forall i :: 0 <= i < 256 ==> s[i] == 0
  {
    seq(256, _ => 0 as byte)
  }

  /** An extension area cleared with `memset(..., 0, ...)`. */
  function NoExtension(): (s: Extension)
    ensures forall i :: 0 <= i < 116 ==> s[i] == 0
  {
    seq(116, _ => 0 as byte)
  }

  /** The field clearing of `delete_inode`: flags, size, the three times, the name and
      the extension area go to zero; addresses and depth are left alone. */
  function Wiped(n: Inode): Inode {
    n.(flags := 0, size := 0, ctime := 0, atime := 0, mtime := 0, name := NoName(), ext := NoExtension())
  }

  /** `delete_inode(in, pos)` with `in` the inode at block pos, as every caller passes:
      tear the file down, clear flags, times, name and extension area, free the inode's
      own bit, decrement nb_f and rehash. */
  function DeleteInode(fs: Fs, ino: int, now: u32): (r: Res<()>)
    requires InRange(fs, ino)
    ensures r.Ok? ==> |r.fs.blocks| == |fs.blocks|
  {
    var t := DeallocDataBlock(fs, ino, now);
    if !t.Ok? then Fault
    else
      var fs1 := SetInode(t.fs, ino, Wiped(InodeAt(t.fs, ino)));
      var u := BitmapDealloc(fs1, ino);
      if !u.Ok? then Fault else Ok(Rehash(DecFiles(u.fs), ino), ())
  }

  // ---------------------------------------------------------------------------
  // Which blocks a file owns, in the order the teardown releases them

  /** Entries s[i], s[i+1], ... up to (not including) the first negative one. */
  function Run(s: seq<int>, i: int): (r: seq<int>)
    requires 0 <= i <= |s|
    decreases |s| - i
  {
    if i == |s| || s[i] < 0 then [] else [s[i]] + Run(s, i + 1)
  }

  /** The entries of second-level table e, when e is inside the container. */
  function Leaves(fs: Fs, e: int): seq<int> {
    if InRange(fs, e) then Run(WordsAt(fs, e), 0) else []
  }

  /** Under a double-indirect table with entries w, from entry i: each second-level
      table's leaves followed by the table itself, up to the first negative entry. */
  function TablesRun(fs: Fs, w: seq<int>, i: int): seq<int>
    requires 0 <= i <= |w|
    decreases |w| - i
  {
    if i == |w| || w[i] < 0 then [] else Leaves(fs, w[i]) + [w[i]] + TablesRun(fs, w, i + 1)
  }

  /** The blocks below indirect pointer d, then d itself. */
  function IndirectBlocks(fs: Fs, d: int): seq<int> {
    if !InRange(fs, d) then [d]
    else if fs.blocks[d].tag == TagSingle then Run(WordsAt(fs, d), 0) + [d]
    else TablesRun(fs, WordsAt(fs, d), 0) + [d]
  }

  /** Every block the teardown of inode ino releases, in release order. */
  function FileBlocks(fs: Fs, ino: int): seq<int>
    requires InRange(fs, ino)
  {
    var n := InodeAt(fs, ino);
    Run(n.direct, 0) + (if n.indirect < 0 then [] else IndirectBlocks(fs, n.indirect))
  }

  predicate Distinct(L: seq<int>) {
    forall x, y :: 0 <= x < y < |L| ==> L[x] != L[y]
  }

  /** L names each block once, and every block of L is a used data block outside S. */
  predicate Releasable(fs: Fs, L: seq<int>, S: set<int>) {
    Distinct(L) && forall b :: b in L ==> Owned(fs, b) && b !in S
  }

  /** The bits of the blocks of L are set, and no other bit changed. */
  ghost predicate BitsReleased(fs: Fs, fs': Fs, L: seq<int>) {
    && (forall b :: b in L ==> FreeAt(fs', b))
    && (forall c :: c !in L ==> FreeAt(fs', c) == FreeAt(fs, c))
  }

  /** Each block of L is a data block tagged 4 with a matching digest, and no block past
      the bitmap changed except those of L and the tables S. */
  ghost predicate BlocksReleased(fs: Fs, fs': Fs, L: seq<int>, S: set<int>)
    requires |fs'.blocks| == |fs.blocks|
  {
    var g := Geom(fs);
    && (forall b :: b in L ==> InRange(fs, b) && g.DataStart() <= b && fs'.blocks[b].tag == TagFree)
    && (forall c :: InRange(fs, c) && g.InodeStart() <= c && c !in L && c !in S ==> fs'.blocks[c] == fs.blocks[c])
  }

  /** nb_l went up by |L|, the count of free data blocks with it, and nb_f is as it was. */
  predicate CountReleased(fs: Fs, fs': Fs, L: seq<int>) {
    var g := Geom(fs);
    && FreeCount(fs', g.DataStart(), g.nbb) == FreeCount(fs, g.DataStart(), g.nbb) + |L|
    && SuperOf(fs').nbL == WrapI32(SuperOf(fs).nbL + |L|)
    && SuperOf(fs').nbF == SuperOf(fs).nbF
  }

  /** fs' is fs with the blocks of L released: each is free, tagged 4 and sealed, no
      other bit changed, nb_l went up by |L| and the count of free data blocks with it,
      and no block past the bitmap changed except those of L and the tables S. */
  ghost predicate Released(fs: Fs, fs': Fs, L: seq<int>, S: set<int>) {
    && WellFormed(fs') && Geom(fs') == Geom(fs) && |fs'.blocks| == |fs.blocks|
    && BitsReleased(fs, fs', L) && BlocksReleased(fs, fs', L, S) && CountReleased(fs, fs', L)
  }

  // ---------------------------------------------------------------------------
  // Lemmas about the reference lists

  /** Run(s, i) is exactly the non-negative entries from i up to the first negative
      one (or the end). */
  lemma {:induction false} RunShape(s: seq<int>, i: int)
    requires 0 <= i <= |s|
    ensures i + |Run(s, i)| <= |s|
    ensures forall k :: 0 <= k < |Run(s, i)| ==> Run(s, i)[k] == s[i + k] && s[i + k] >= 0
    ensures i + |Run(s, i)| < |s| ==> s[i + |Run(s, i)|] < 0
    decreases |s| - i
  {
    if i < |s| && s[i] >= 0 {
      RunShape(s, i + 1);
      var r, r1 := Run(s, i), Run(s, i + 1);
      assert r == [s[i]] + r1;
      forall k | 0 <= k < |r|
        ensures r[k] == s[i + k] && s[i + k] >= 0
      {
        if k > 0 {
          assert r[k] == r1[k - 1];
          assert i + k == (i + 1) + (k - 1);
        }
      }
      assert i + |r| == (i + 1) + |r1|;
    } else {
      assert Run(s, i) == [];
    }
  }

  lemma {:induction false} RunUpdate(s: seq<int>, i: int, j: int, v: int)
    requires 0 <= j < i <= |s|
    ensures Run(s[j := v], i) == Run(s, i)
    decreases |s| - i
  {
    if i < |s| && s[i] >= 0 {
      RunUpdate(s, i + 1, j, v);
    }
  }

  lemma {:induction false} TablesRunUpdate(fs: Fs, w: seq<int>, i: int, j: int, v: int)
    requires 0 <= j < i <= |w|
    ensures TablesRun(fs, w[j := v], i) == TablesRun(fs, w, i)
    decreases |w| - i
  {
    if i < |w| && w[i] >= 0 {
      TablesRunUpdate(fs, w, i + 1, j, v);
    }
  }

  /** The list below a double-indirect table depends only on the blocks it names. */
  lemma {:induction false} TablesRunFrame(fs: Fs, fs': Fs, w: seq<int>, i: int)
    requires 0 <= i <= |w| && |fs'.blocks| == |fs.blocks|
    requires forall c :: c in TablesRun(fs, w, i) && InRange(fs, c) ==> fs'.blocks[c] == fs.blocks[c]
    ensures TablesRun(fs', w, i) == TablesRun(fs, w, i)
    decreases |w| - i
  {
    if i < |w| && w[i] >= 0 {
      assert w[i] in TablesRun(fs, w, i);
      TablesRunFrame(fs, fs', w, i + 1);
    }
  }

  lemma IndirectBlocksFrame(fs: Fs, fs': Fs, d: int)
    requires |fs'.blocks| == |fs.blocks|
    requires forall c :: c in IndirectBlocks(fs, d) && InRange(fs, c) ==> fs'.blocks[c] == fs.blocks[c]
    ensures IndirectBlocks(fs', d) == IndirectBlocks(fs, d)
  {
    if InRange(fs, d) {
      assert d in IndirectBlocks(fs, d);
      if fs.blocks[d].tag != TagSingle {
        TablesRunFrame(fs, fs', WordsAt(fs, d), 0);
      }
    }
  }

  lemma DistinctSplit(A: seq<int>, B: seq<int>)
    requires Distinct(A + B)
    ensures Distinct(A) && Distinct(B)
    ensures forall x :: x in A ==> x !in B
  {
    forall x, y | 0 <= x < y < |A|
      ensures A[x] != A[y]
    {
      assert A[x] == (A + B)[x] && A[y] == (A + B)[y];
    }
    forall x, y | 0 <= x < y < |B|
      ensures B[x] != B[y]
    {
      assert B[x] == (A + B)[|A| + x] && B[y] == (A + B)[|A| + y];
    }
    forall x | x in A
      ensures x !in B
    {
      var p :| 0 <= p < |A| && A[p] == x;
      assert (A + B)[p] == x;
      forall q | 0 <= q < |B|
        ensures B[q] != x
      {
        assert (A + B)[|A| + q] == B[q];
      }
    }
  }

  // ---------------------------------------------------------------------------
  // One release, and how releases compose

  lemma WrapI32Shift(x: int, k: int)
    ensures WrapI32(WrapI32(x) + k) == WrapI32(x + k)
  {
    var m := (x - WrapI32(x)) / TWO32;
    assert x - WrapI32(x) == m * TWO32;
    assert (WrapI32(x) + k) % TWO32 == (x + k - m * TWO32) % TWO32;
  }

  lemma NothingReleased(fs: Fs, S: set<int>)
    requires WellFormed(fs)
    ensures Released(fs, fs, [], S)
  {
  }

  /** What `Release` does to an owned block b: only b and its bitmap block change; b is
      tagged 4, sealed and free afterwards. */
  lemma ReleaseCore(fs: Fs, b: int)
    requires WellFormed(fs) && InRange(fs, b) && b > Geom(fs).nb1
    ensures Release(fs, b).Ok?
    ensures var fs' := Release(fs, b).fs;
      && WellFormed(fs') && Geom(fs') == Geom(fs) && fs'.blocks[0] == fs.blocks[0]
      && FreeAt(fs', b) && (forall c :: c != b ==> FreeAt(fs', c) == FreeAt(fs, c))
      && fs'.blocks[b].tag == TagFree && Sealed(fs'.blocks[b])
      && (forall c :: InRange(fs, c) && Geom(fs).InodeStart() <= c && c != b ==> fs'.blocks[c] == fs.blocks[c])
  {
    var fsT := Rehash(SetTag(fs, b, TagFree), b);
    WriteAboveHeader(fs, fsT, b);
    AddressableInWellFormed(fsT, b);
    var fsR := Release(fs, b).fs;
    assert fsR.blocks[0] == fsT.blocks[0];
    assert fsR.blocks[b] == fsT.blocks[b];
  }

  /** A counted release: the block's bit was clear and is now set, so the free count of
      the data region and nb_l go up by one together. */
  lemma CountOne(fs: Fs, fsW: Fs, b: int)
    requires WellFormed(fs) && Owned(fs, b) && WellFormed(fsW) && Geom(fsW) == Geom(fs)
    requires SuperOf(fsW) == SuperOf(fs)
    requires FreeAt(fsW, b) && forall c :: c != b ==> FreeAt(fsW, c) == FreeAt(fs, c)
    ensures CountReleased(fs, IncFree(fsW), [b])
  {
    var g := Geom(fs);
    IncFreeKeeps(fsW);
    FreeCountOne(fs, IncFree(fsW), b, g.DataStart(), g.nbb);
  }

  /** Two containers of one layout whose bitmap blocks agree have the same bits. */
  lemma HeaderKeepsBits(x: Fs, y: Fs)
    requires WellFormed(x) && |y.blocks| == |x.blocks|
    requires forall k :: 1 <= k <= Geom(x).nb1 ==> y.blocks[k] == x.blocks[k]
    ensures forall c :: FreeAt(y, c) == FreeAt(x, c)
  {
    forall c | InRange(x, c)
      ensures FreeAt(y, c) == FreeAt(x, c)
    {
      AddressableInWellFormed(x, c);
    }
  }

  /** Releasing an owned block b and counting it free, where the code also rewrote one
      block T past the bitmap (the slot that named b): fs2 is that outcome. */
  lemma StepReleased(fs: Fs, b: int, T: int, fs2: Fs)
    requires WellFormed(fs) && Owned(fs, b)
    requires InRange(fs, T) && T >= Geom(fs).InodeStart() && T != b
    requires Release(fs, b).Ok?
    requires |fs2.blocks| == |fs.blocks|
    requires forall c :: 1 <= c < |fs.blocks| && c != T ==> fs2.blocks[c] == Release(fs, b).fs.blocks[c]
    requires SuperOf(fs2) == SuperOf(fs).(nbL := WrapI32(SuperOf(fs).nbL + 1))
    ensures Released(fs, fs2, [b], {T})
  {
    ReleaseCore(fs, b);
    StepShape(fs, Release(fs, b).fs, b, T, fs2);
    OneBitCount(fs, fs2, b);
  }

  /** The release t of b followed by a write of table T and block 0 (fs2): fs2 is well
      formed with b's bit set and tag 4, and no other block past the bitmap changed. */
  lemma StepShape(fs: Fs, t: Fs, b: int, T: int, fs2: Fs)
    requires WellFormed(fs) && Owned(fs, b)
    requires InRange(fs, T) && T >= Geom(fs).InodeStart() && T != b
    requires WellFormed(t) && Geom(t) == Geom(fs) && t.blocks[0] == fs.blocks[0] && |t.blocks| == |fs.blocks|
    requires FreeAt(t, b) && (forall c :: c != b ==> FreeAt(t, c) == FreeAt(fs, c)) && t.blocks[b].tag == TagFree
    requires forall c :: InRange(fs, c) && Geom(fs).InodeStart() <= c && c != b ==> t.blocks[c] == fs.blocks[c]
    requires |fs2.blocks| == |fs.blocks|
    requires forall c :: 1 <= c < |fs.blocks| && c != T ==> fs2.blocks[c] == t.blocks[c]
    requires SuperOf(fs2) == SuperOf(fs).(nbL := WrapI32(SuperOf(fs).nbL + 1))
    ensures WellFormed(fs2) && Geom(fs2) == Geom(fs)
    ensures BitsReleased(fs, fs2, [b]) && BlocksReleased(fs, fs2, [b], {T})
  {
    assert Geom(fs2) == Geom(fs);
    StepBits(fs, t, b, T, fs2);
    StepBlocks(fs, t, b, T, fs2);
  }

  lemma StepBits(fs: Fs, t: Fs, b: int, T: int, fs2: Fs)
    requires WellFormed(t) && Geom(t) == Geom(fs) && |t.blocks| == |fs.blocks| && |fs2.blocks| == |fs.blocks|
    requires T >= Geom(fs).InodeStart()
    requires FreeAt(t, b) && forall c :: c != b ==> FreeAt(t, c) == FreeAt(fs, c)
    requires forall c :: 1 <= c < |fs.blocks| && c != T ==> fs2.blocks[c] == t.blocks[c]
    ensures BitsReleased(fs, fs2, [b])
  {
    HeaderKeepsBits(t, fs2);
  }

  lemma StepBlocks(fs: Fs, t: Fs, b: int, T: int, fs2: Fs)
    requires WellFormed(fs) && Owned(fs, b) && T >= Geom(fs).InodeStart() && T != b
    requires |t.blocks| == |fs.blocks| && |fs2.blocks| == |fs.blocks| && t.blocks[b].tag == TagFree
    requires forall c :: InRange(fs, c) && Geom(fs).InodeStart() <= c && c != b ==> t.blocks[c] == fs.blocks[c]
    requires forall c :: 1 <= c < |fs.blocks| && c != T ==> fs2.blocks[c] == t.blocks[c]
    ensures BlocksReleased(fs, fs2, [b], {T})
  {
    assert fs2.blocks[b] == t.blocks[b];
  }

  /** Setting the bit of one used data block raises the free count by one. */
  lemma OneBitCount(fs: Fs, fs2: Fs, b: int)
    requires WellFormed(fs) && Geom(fs2) == Geom(fs) && |fs2.blocks| == |fs.blocks|
    requires Owned(fs, b) && BitsReleased(fs, fs2, [b])
    ensures FreeCount(fs2, Geom(fs).DataStart(), Geom(fs).nbb) == FreeCount(fs, Geom(fs).DataStart(), Geom(fs).nbb) + 1
  {
    forall c | c != b
      ensures FreeAt(fs, c) == FreeAt(fs2, c)
    {
      assert c !in [b];
    }
    assert b in [b];
    FreeCountOne(fs, fs2, b, Geom(fs).DataStart(), Geom(fs).nbb);
  }

  /** `in->direct_blocks[i] = -1; incremente_lbl()`: only the inode and block 0 change. */
  lemma ClearSlotSpec(fs: Fs, ino: int, i: int)
    requires InRange(fs, ino) && ino >= 1 && 0 <= i < 900
    ensures var fs2 := ClearSlot(fs, ino, i);
      && (forall c :: 1 <= c < |fs.blocks| && c != ino ==> fs2.blocks[c] == fs.blocks[c])
      && InodeAt(fs2, ino) == InodeAt(fs, ino).(direct := InodeAt(fs, ino).direct[i := NoBlock])
      && SuperOf(fs2) == SuperOf(fs).(nbL := WrapI32(SuperOf(fs).nbL + 1))
  {
    var n := InodeAt(fs, ino);
    var fsW := SetInode(fs, ino, n.(direct := n.direct[i := NoBlock]));
    SuperCountersOnly(fsW);
    assert fsW.blocks[0] == fs.blocks[0];
  }

  /** `tbl->addresses[i] = -1; incremente_lbl()`: only table d and block 0 change. */
  lemma ClearEntrySpec(fs: Fs, d: int, i: int)
    requires InRange(fs, d) && d >= 1 && 0 <= i < 1000
    ensures var fs2 := ClearEntry(fs, d, i);
      && (forall c :: 1 <= c < |fs.blocks| && c != d ==> fs2.blocks[c] == fs.blocks[c])
      && WordsAt(fs2, d) == WordsAt(fs, d)[i := NoBlock]
      && SuperOf(fs2) == SuperOf(fs).(nbL := WrapI32(SuperOf(fs).nbL + 1))
  {
    var fsW := SetWords(fs, d, WordsAt(fs, d)[i := NoBlock]);
    SuperCountersOnly(fsW);
    assert fsW.blocks[0] == fs.blocks[0];
  }

  /** Releasing an owned block b and counting it free, with no other write. */
  lemma ReleaseSpec(fs: Fs, b: int)
    requires WellFormed(fs) && Owned(fs, b)
    ensures Release(fs, b).Ok?
    ensures Released(fs, IncFree(Release(fs, b).fs), [b], {})
  {
    ReleaseCore(fs, b);
    var fsR := Release(fs, b).fs;
    CountOne(fs, fsR, b);
    IncFreeKeeps(fsR);
    IncFreeReleased(fs, fsR, b);
  }

  /** The release t of b followed by the write of block 0 alone sets b's bit, tags b 4
      and changes no other bit and no other block past the bitmap. */
  lemma IncFreeReleased(fs: Fs, t: Fs, b: int)
    requires WellFormed(fs) && Owned(fs, b)
    requires WellFormed(t) && Geom(t) == Geom(fs) && |t.blocks| == |fs.blocks|
    requires FreeAt(t, b) && (forall c :: c != b ==> FreeAt(t, c) == FreeAt(fs, c)) && t.blocks[b].tag == TagFree
    requires forall c :: InRange(fs, c) && Geom(fs).InodeStart() <= c && c != b ==> t.blocks[c] == fs.blocks[c]
    ensures BitsReleased(fs, IncFree(t), [b]) && BlocksReleased(fs, IncFree(t), [b], {})
  {
    IncFreeKeeps(t);
  }

  /** `incremente_lbl` keeps the layout, every bit and every block but block 0. */
  lemma IncFreeKeeps(x: Fs)
    requires WellFormed(x)
    ensures WellFormed(IncFree(x)) && Geom(IncFree(x)) == Geom(x) && |IncFree(x).blocks| == |x.blocks|
    ensures forall c :: FreeAt(IncFree(x), c) == FreeAt(x, c)
    ensures forall c :: 1 <= c < |x.blocks| ==> IncFree(x).blocks[c] == x.blocks[c]
    ensures SuperOf(IncFree(x)).nbL == WrapI32(SuperOf(x).nbL + 1) && SuperOf(IncFree(x)).nbF == SuperOf(x).nbF
  {
    SuperCountersOnly(x);
    CounterWritesKeepBits(x);
  }

  lemma ReleasedTrans(a: Fs, b: Fs, c: Fs, L1: seq<int>, L2: seq<int>, S1: set<int>, S2: set<int>, S: set<int>)
    requires Released(a, b, L1, S1) && Released(b, c, L2, S2)
    requires forall x :: x in L1 ==> x !in L2 && x !in S2
    requires forall x :: x in S1 + S2 ==> x in S || x in L1 || x in L2
    ensures Released(a, c, L1 + L2, S)
  {
    BitsTrans(a, b, c, L1, L2);
    BlocksTrans(a, b, c, L1, L2, S1, S2, S);
    CountTrans(a, b, c, L1, L2);
  }

  lemma BitsTrans(a: Fs, b: Fs, c: Fs, L1: seq<int>, L2: seq<int>)
    requires BitsReleased(a, b, L1) && BitsReleased(b, c, L2)
    requires forall x :: x in L1 ==> x !in L2
    ensures BitsReleased(a, c, L1 + L2)
  {
  }

  lemma BlocksTrans(a: Fs, b: Fs, c: Fs, L1: seq<int>, L2: seq<int>, S1: set<int>, S2: set<int>, S: set<int>)
    requires WellFormed(a) && |b.blocks| == |a.blocks| && |c.blocks| == |a.blocks| && Geom(b) == Geom(a)
    requires BlocksReleased(a, b, L1, S1) && BlocksReleased(b, c, L2, S2)
    requires forall x :: x in L1 ==> x !in L2 && x !in S2
    requires forall x :: x in S1 + S2 ==> x in S || x in L1 || x in L2
    ensures BlocksReleased(a, c, L1 + L2, S)
  {
  }

  lemma CountTrans(a: Fs, b: Fs, c: Fs, L1: seq<int>, L2: seq<int>)
    requires Geom(b) == Geom(a)
    requires CountReleased(a, b, L1) && CountReleased(b, c, L2)
    ensures CountReleased(a, c, L1 + L2)
  {
    WrapI32Shift(SuperOf(a).nbL + |L1|, |L2|);
  }

  /** After the blocks of L1 are released, the rest of a releasable list still is. */
  lemma ReleasableRest(fs: Fs, fs': Fs, L1: seq<int>, L2: seq<int>, S: set<int>)
    requires Releasable(fs, L1 + L2, S)
    requires Geom(fs') == Geom(fs) && |fs'.blocks| == |fs.blocks| && BitsReleased(fs, fs', L1)
    ensures Releasable(fs', L2, S)
    ensures forall x :: x in L1 ==> x !in L2
  {
    DistinctSplit(L1, L2);
    forall x | x in L2
      ensures Owned(fs', x) && x !in S
    {
      assert x in L1 + L2;
      assert FreeAt(fs', x) == FreeAt(fs, x);
    }
  }

  /** A later write to one block past the bitmap, outside L, keeps what was released. */
  lemma WriteReleased(fs: Fs, fs': Fs, fs'': Fs, L: seq<int>, S: set<int>, T: int, S': set<int>)
    requires Released(fs, fs', L, S) && S <= S' && T in S'
    requires InRange(fs, T) && T >= Geom(fs).InodeStart() && T !in L
    requires |fs''.blocks| == |fs.blocks| && forall c :: 0 <= c < |fs.blocks| && c != T ==> fs''.blocks[c] == fs'.blocks[c]
    ensures Released(fs, fs'', L, S')
  {
    WriteAboveHeader(fs', fs'', T);
    assert fs''.blocks[0] == fs'.blocks[0];
    FreeCountFrame(fs', fs'', Geom(fs).DataStart(), Geom(fs).nbb);
  }

  // ---------------------------------------------------------------------------
  // The loops

  /** What the direct loop leaves in inode n from slot i on: the slots of the run are
      -1, every other slot and field is as it was. */
  predicate DirectCleared(n: Inode, n': Inode, i: int)
    requires 0 <= i <= 900
  {
    var m := |Run(n.direct, i)|;
    && n' == n.(direct := n'.direct)
    && forall k :: 0 <= k < 900 ==> n'.direct[k] == if i <= k < i + m then NoBlock else n.direct[k]
  }

  /** One turn of the direct loop: block b = direct[i] is released and its slot
      cleared; the rest of the run is still releasable. */
  lemma DirectStep(fs: Fs, ino: int, i: int)
    requires WellFormed(fs) && InRange(fs, ino) && Geom(fs).InodeStart() <= ino && 0 <= i < 900
    requires InodeAt(fs, ino).direct[i] >= 0
    requires Releasable(fs, Run(InodeAt(fs, ino).direct, i), {ino})
    ensures Release(fs, InodeAt(fs, ino).direct[i]).Ok?
    ensures var n := InodeAt(fs, ino);
      var fs2 := ClearSlot(Release(fs, n.direct[i]).fs, ino, i);
      && Released(fs, fs2, [n.direct[i]], {ino})
      && InodeAt(fs2, ino) == n.(direct := n.direct[i := NoBlock])
      && Releasable(fs2, Run(n.direct, i + 1), {ino})
  {
    var n := InodeAt(fs, ino);
    var b := n.direct[i];
    var tail := Run(n.direct, i + 1);
    assert Run(n.direct, i) == [b] + tail;
    assert b in Run(n.direct, i);
    DirectRelease(fs, ino, i, b);
    ReleasableRest(fs, ClearSlot(Release(fs, b).fs, ino, i), [b], tail, {ino});
  }

  /** Releasing direct slot i's block and clearing the slot releases exactly that block. */
  lemma DirectRelease(fs: Fs, ino: int, i: int, b: int)
    requires WellFormed(fs) && InRange(fs, ino) && Geom(fs).InodeStart() <= ino && 0 <= i < 900
    requires b == InodeAt(fs, ino).direct[i] && Owned(fs, b) && b != ino
    ensures Release(fs, b).Ok?
    ensures var fs2 := ClearSlot(Release(fs, b).fs, ino, i);
      && Released(fs, fs2, [b], {ino})
      && InodeAt(fs2, ino) == InodeAt(fs, ino).(direct := InodeAt(fs, ino).direct[i := NoBlock])
  {
    ReleaseCore(fs, b);
    var t := Release(fs, b).fs;
    assert t.blocks[ino] == fs.blocks[ino];
    assert SuperOf(t) == SuperOf(fs);
    ClearSlotSpec(t, ino, i);
    StepReleased(fs, b, ino, ClearSlot(t, ino, i));
  }

  /** The direct loop releases exactly the run of direct blocks from slot i and clears
      their slots. */
  lemma {:induction false} FreeDirectSpec(fs: Fs, ino: int, i: int)
    requires WellFormed(fs) && InRange(fs, ino) && Geom(fs).InodeStart() <= ino && 0 <= i <= 900
    requires Releasable(fs, Run(InodeAt(fs, ino).direct, i), {ino})
    ensures FreeDirect(fs, ino, i).Ok?
    ensures Released(fs, FreeDirect(fs, ino, i).fs, Run(InodeAt(fs, ino).direct, i), {ino})
    ensures DirectCleared(InodeAt(fs, ino), InodeAt(FreeDirect(fs, ino, i).fs, ino), i)
    decreases 900 - i
  {
    var n := InodeAt(fs, ino);
    if i == 900 || n.direct[i] < 0 {
      NothingReleased(fs, {ino});
    } else {
      var b := n.direct[i];
      var tail := Run(n.direct, i + 1);
      assert Run(n.direct, i) == [b] + tail;
      DirectStep(fs, ino, i);
      var fs2 := ClearSlot(Release(fs, b).fs, ino, i);
      RunUpdate(n.direct, i + 1, i, NoBlock);
      FreeDirectSpec(fs2, ino, i + 1);
      var r := FreeDirect(fs2, ino, i + 1).fs;
      ReleasedTrans(fs, fs2, r, [b], tail, {ino}, {ino}, {ino});
      DirectClearedStep(n, InodeAt(fs2, ino), InodeAt(r, ino), i);
    }
  }

  lemma DirectClearedStep(n: Inode, n2: Inode, n': Inode, i: int)
    requires 0 <= i < 900 && n.direct[i] >= 0 && n2 == n.(direct := n.direct[i := NoBlock])
    requires DirectCleared(n2, n', i + 1)
    ensures DirectCleared(n, n', i)
  {
    RunUpdate(n.direct, i + 1, i, NoBlock);
  }

  /** One turn of the entry loop over table d: b = entry i is released and the entry
      cleared; the rest of the run is still releasable. */
  lemma EntryStep(fs: Fs, d: int, i: int)
    requires WellFormed(fs) && InRange(fs, d) && Geom(fs).InodeStart() <= d && 0 <= i < 1000
    requires WordsAt(fs, d)[i] >= 0
    requires Releasable(fs, Run(WordsAt(fs, d), i), {d})
    ensures Release(fs, WordsAt(fs, d)[i]).Ok?
    ensures var w := WordsAt(fs, d);
      var fs2 := ClearEntry(Release(fs, w[i]).fs, d, i);
      && Released(fs, fs2, [w[i]], {d})
      && WordsAt(fs2, d) == w[i := NoBlock]
      && Releasable(fs2, Run(w, i + 1), {d})
  {
    var w := WordsAt(fs, d);
    var b := w[i];
    var tail := Run(w, i + 1);
    assert Run(w, i) == [b] + tail;
    assert b in Run(w, i);
    EntryRelease(fs, d, i, b);
    ReleasableRest(fs, ClearEntry(Release(fs, b).fs, d, i), [b], tail, {d});
  }

  /** The entry loop releases exactly the run of entries of table d from entry i. */
  lemma {:induction false} FreeEntriesSpec(fs: Fs, d: int, i: int)
    requires WellFormed(fs) && InRange(fs, d) && Geom(fs).InodeStart() <= d && 0 <= i <= 1000
    requires Releasable(fs, Run(WordsAt(fs, d), i), {d})
    ensures FreeEntries(fs, d, i).Ok?
    ensures Released(fs, FreeEntries(fs, d, i).fs, Run(WordsAt(fs, d), i), {d})
    decreases 1000 - i
  {
    var w := WordsAt(fs, d);
    if i == 1000 || w[i] < 0 {
      NothingReleased(fs, {d});
    } else {
      var b := w[i];
      var tail := Run(w, i + 1);
      assert Run(w, i) == [b] + tail;
      EntryStep(fs, d, i);
      var fs2 := ClearEntry(Release(fs, b).fs, d, i);
      RunUpdate(w, i + 1, i, NoBlock);
      FreeEntriesSpec(fs2, d, i + 1);
      ReleasedTrans(fs, fs2, FreeEntries(fs2, d, i + 1).fs, [b], tail, {d}, {d}, {d});
    }
  }

  /** One turn of the outer loop over double-indirect table d: the second-level table
      e = entry i is emptied, tagged 4, rehashed and released, and its entry cleared;
      the rest of the list is unchanged and still releasable. */
  lemma DropTableSpec(fs: Fs, d: int, i: int) returns (fs2: Fs)
    requires WellFormed(fs) && InRange(fs, d) && Geom(fs).InodeStart() <= d && 0 <= i < 1000
    requires WordsAt(fs, d)[i] >= 0
    requires Releasable(fs, TablesRun(fs, WordsAt(fs, d), i), {d})
    ensures DropTable(fs, d, i).Ok? && DropTable(fs, d, i).fs == fs2
    ensures var w := WordsAt(fs, d);
      && Released(fs, fs2, Leaves(fs, w[i]) + [w[i]], {d})
      && TablesRun(fs2, WordsAt(fs2, d), i + 1) == TablesRun(fs, w, i + 1)
      && Releasable(fs2, TablesRun(fs, w, i + 1), {d})
  {
    var w := WordsAt(fs, d);
    var e := w[i];
    var rest := TablesRun(fs, w, i + 1);
    var L := Leaves(fs, e) + [e];
    assert TablesRun(fs, w, i) == L + rest;
    assert e in TablesRun(fs, w, i);
    var t := EmptyTable(fs, d, i);
    fs2 := TableRelease(fs, d, i, t);
    ReleasedTrans(fs, t, fs2, Leaves(fs, e), [e], {e}, {d}, {d});
    TablesRunUpdate(fs2, w, i + 1, i, NoBlock);
    DistinctSplit(L, rest);
    forall c | c in rest && InRange(fs, c)
      ensures fs2.blocks[c] == fs.blocks[c]
    {
      assert c in TablesRun(fs, w, i);
    }
    TablesRunFrame(fs, fs2, w, i + 1);
    ReleasableRest(fs, fs2, L, rest, {d});
  }

  /** The second half of a turn of the outer loop: once the leaves of e = entry i of d
      are released (container t), e is tagged 4, rehashed and released and entry i of d
      cleared. */
  lemma TableRelease(fs: Fs, d: int, i: int, t: Fs) returns (fs2: Fs)
    requires WellFormed(fs) && InRange(fs, d) && Geom(fs).InodeStart() <= d && 0 <= i < 1000
    requires WordsAt(fs, d)[i] >= 0 && InRange(fs, WordsAt(fs, d)[i])
    requires FreeEntries(fs, WordsAt(fs, d)[i], 0).Ok? && FreeEntries(fs, WordsAt(fs, d)[i], 0).fs == t
    requires WellFormed(t) && Geom(t) == Geom(fs) && |t.blocks| == |fs.blocks| && t.blocks[d] == fs.blocks[d]
    requires Owned(t, WordsAt(fs, d)[i]) && WordsAt(fs, d)[i] != d
    ensures DropTable(fs, d, i).Ok? && DropTable(fs, d, i).fs == fs2
    ensures Released(t, fs2, [WordsAt(fs, d)[i]], {d})
    ensures WordsAt(fs2, d) == WordsAt(fs, d)[i := NoBlock]
  {
    fs2 := ReleaseTable(t, d, i);
  }

  /** Tagging table e = entry i of d 4, rehashing it, releasing it and clearing the entry
      releases e alone. */
  lemma ReleaseTable(t: Fs, d: int, i: int) returns (fs2: Fs)
    requires WellFormed(t) && InRange(t, d) && Geom(t).InodeStart() <= d && 0 <= i < 1000
    requires Owned(t, WordsAt(t, d)[i]) && WordsAt(t, d)[i] != d
    ensures var e := WordsAt(t, d)[i];
      var fs1 := Rehash(SetTag(t, e, TagFree), e);
      && BitmapDealloc(fs1, WordsAt(fs1, d)[i]).Ok?
      && fs2 == ClearEntry(BitmapDealloc(fs1, WordsAt(fs1, d)[i]).fs, d, i)
      && Released(t, fs2, [e], {d})
      && WordsAt(fs2, d) == WordsAt(t, d)[i := NoBlock]
  {
    var e := WordsAt(t, d)[i];
    var fs1 := Rehash(SetTag(t, e, TagFree), e);
    assert fs1.blocks[d] == t.blocks[d];
    EntryRelease(t, d, i, e);
    fs2 := ClearEntry(Release(t, e).fs, d, i);
  }

  /** Releasing entry i's block e and clearing the entry releases e alone. */
  lemma EntryRelease(t: Fs, d: int, i: int, e: int)
    requires WellFormed(t) && InRange(t, d) && Geom(t).InodeStart() <= d && 0 <= i < 1000
    requires e == WordsAt(t, d)[i] && Owned(t, e) && e != d
    ensures Release(t, e).Ok?
    ensures var fs2 := ClearEntry(Release(t, e).fs, d, i);
      && Released(t, fs2, [e], {d})
      && WordsAt(fs2, d) == WordsAt(t, d)[i := NoBlock]
  {
    ReleaseCore(t, e);
    var u := Release(t, e).fs;
    assert u.blocks[d] == t.blocks[d];
    ClearEntrySpec(u, d, i);
    assert SuperOf(u) == SuperOf(t);
    StepReleased(t, e, d, ClearEntry(u, d, i));
  }

  /** The first half of a turn of the outer loop: the leaves of e = entry i of d are
      released, d is untouched and e is still a used block. */
  lemma EmptyTable(fs: Fs, d: int, i: int) returns (t: Fs)
    requires WellFormed(fs) && InRange(fs, d) && Geom(fs).InodeStart() <= d && 0 <= i < 1000
    requires WordsAt(fs, d)[i] >= 0
    requires Releasable(fs, TablesRun(fs, WordsAt(fs, d), i), {d})
    ensures var e := WordsAt(fs, d)[i];
      && InRange(fs, e) && FreeEntries(fs, e, 0).Ok? && FreeEntries(fs, e, 0).fs == t
      && Released(fs, t, Leaves(fs, e), {e})
      && t.blocks[d] == fs.blocks[d] && Owned(t, e) && e != d
  {
    var w := WordsAt(fs, d);
    var e := w[i];
    var L := Leaves(fs, e) + [e];
    assert TablesRun(fs, w, i) == L + TablesRun(fs, w, i + 1);
    DistinctSplit(L, TablesRun(fs, w, i + 1));
    DistinctSplit(Leaves(fs, e), [e]);
    assert e in TablesRun(fs, w, i);
    forall x | x in Leaves(fs, e)
      ensures Owned(fs, x) && x != e && x != d
    {
      assert x in TablesRun(fs, w, i);
    }
    FreeEntriesSpec(fs, e, 0);
    t := FreeEntries(fs, e, 0).fs;
    assert e !in Leaves(fs, e);
  }

  /** The outer loop releases exactly the list TablesRun from entry i: every leaf and
      every second-level table, leaves first. */
  lemma {:induction false} FreeTablesSpec(fs: Fs, d: int, i: int)
    requires WellFormed(fs) && InRange(fs, d) && Geom(fs).InodeStart() <= d && 0 <= i <= 1000
    requires Releasable(fs, TablesRun(fs, WordsAt(fs, d), i), {d})
    ensures FreeTables(fs, d, i).Ok?
    ensures Released(fs, FreeTables(fs, d, i).fs, TablesRun(fs, WordsAt(fs, d), i), {d})
    decreases 1000 - i
  {
    var w := WordsAt(fs, d);
    if i == 1000 || w[i] < 0 {
      NothingReleased(fs, {d});
    } else {
      var e := w[i];
      var fs2 := DropTableSpec(fs, d, i);
      FreeTablesSpec(fs2, d, i + 1);
      assert TablesRun(fs, w, i) == (Leaves(fs, e) + [e]) + TablesRun(fs, w, i + 1);
      DistinctSplit(Leaves(fs, e) + [e], TablesRun(fs, w, i + 1));
      ReleasedTrans(fs, fs2, FreeTables(fs2, d, i + 1).fs, Leaves(fs, e) + [e], TablesRun(fs, w, i + 1), {d}, {d}, {d});
    }
  }

  /** The end of the indirect part: the top table d, still named by the inode, is
      rehashed, tagged 4, released and counted free. */
  lemma ReleaseTop(t: Fs, ino: int, d: int)
    requires WellFormed(t) && Owned(t, d) && InRange(t, ino) && ino != d
    requires InodeAt(t, ino).indirect == d
    ensures var fs1 := SetTag(Rehash(t, d), d, TagFree);
      && BitmapDealloc(fs1, InodeAt(fs1, ino).indirect).Ok?
      && Released(t, IncFree(BitmapDealloc(fs1, InodeAt(fs1, ino).indirect).fs), [d], {})
  {
    var fs1 := SetTag(Rehash(t, d), d, TagFree);
    assert fs1 == Rehash(SetTag(t, d, TagFree), d);
    assert fs1.blocks[ino] == t.blocks[ino];
    ReleaseSpec(t, d);
  }

  /** The blocks below the top table d: the entries of a single-indirect d, or every
      table with its entries under a double-indirect d. */
  function Below(fs: Fs, d: int): seq<int>
    requires InRange(fs, d)
  {
    if fs.blocks[d].tag == TagSingle then Run(WordsAt(fs, d), 0) else TablesRun(fs, WordsAt(fs, d), 0)
  }

  /** The first half of `free_indirect`: everything below d is released, d is left as
      it was and still owned. */
  lemma FreeBelow(fs: Fs, ino: int, d: int) returns (t: Fs)
    requires WellFormed(fs) && InRange(fs, ino) && Geom(fs).InodeStart() <= ino
    requires InRange(fs, d) && Owned(fs, d) && d != ino
    requires Releasable(fs, Below(fs, d), {ino}) && d !in Below(fs, d)
    ensures var x := if fs.blocks[d].tag == TagSingle then FreeEntries(fs, d, 0) else FreeTables(fs, d, 0);
      x.Ok? && x.fs == t
    ensures Released(fs, t, Below(fs, d), {d})
    ensures t.blocks[ino] == fs.blocks[ino] && Owned(t, d)
  {
    var body := Below(fs, d);
    if fs.blocks[d].tag == TagSingle {
      FreeEntriesSpec(fs, d, 0);
      t := FreeEntries(fs, d, 0).fs;
    } else {
      FreeTablesSpec(fs, d, 0);
      t := FreeTables(fs, d, 0).fs;
    }
  }

  /** The release of everything below d composed with the release of d itself. */
  lemma BelowThenTop(fs: Fs, ino: int, d: int) returns (t: Fs, r: Fs)
    requires WellFormed(fs) && InRange(fs, ino) && Geom(fs).InodeStart() <= ino
    requires InRange(fs, d) && InodeAt(fs, ino).indirect == d
    requires Releasable(fs, Below(fs, d) + [d], {ino})
    ensures var x := if fs.blocks[d].tag == TagSingle then FreeEntries(fs, d, 0) else FreeTables(fs, d, 0);
      x.Ok? && x.fs == t
    ensures var fs1 := SetTag(Rehash(t, d), d, TagFree);
      && BitmapDealloc(fs1, InodeAt(fs1, ino).indirect).Ok?
      && r == IncFree(BitmapDealloc(fs1, InodeAt(fs1, ino).indirect).fs)
    ensures Released(fs, r, IndirectBlocks(fs, d), {})
  {
    assert IndirectBlocks(fs, d) == Below(fs, d) + [d];
    assert d in Below(fs, d) + [d];
    DistinctSplit(Below(fs, d), [d]);
    t := FreeBelow(fs, ino, d);
    ReleaseTop(t, ino, d);
    var fs1 := SetTag(Rehash(t, d), d, TagFree);
    r := IncFree(BitmapDealloc(fs1, InodeAt(fs1, ino).indirect).fs);
    ReleasedTrans(fs, t, r, Below(fs, d), [d], {d}, {}, {});
  }

  /** `free_indirect` unfolded once, given the results of its two halves. */
  lemma FreeIndirectSteps(fs: Fs, ino: int, d: int, t: Fs, r: Fs)
    requires InRange(fs, ino) && InRange(fs, d)
    requires var x := if fs.blocks[d].tag == TagSingle then FreeEntries(fs, d, 0) else FreeTables(fs, d, 0);
      x.Ok? && x.fs == t
    requires var fs1 := SetTag(Rehash(t, d), d, TagFree);
      && BitmapDealloc(fs1, InodeAt(fs1, ino).indirect).Ok?
      && r == IncFree(BitmapDealloc(fs1, InodeAt(fs1, ino).indirect).fs)
    ensures FreeIndirect(fs, ino, d).Ok? && FreeIndirect(fs, ino, d).fs == r
  {
  }

  /** The indirect part releases exactly the blocks below d, then d. */
  lemma FreeIndirectSpec(fs: Fs, ino: int, d: int) returns (r: Fs)
    requires WellFormed(fs) && InRange(fs, ino) && Geom(fs).InodeStart() <= ino
    requires InodeAt(fs, ino).indirect == d
    requires Releasable(fs, IndirectBlocks(fs, d), {ino})
    ensures FreeIndirect(fs, ino, d).Ok? && FreeIndirect(fs, ino, d).fs == r
    ensures Released(fs, r, IndirectBlocks(fs, d), {})
  {
    var L := IndirectBlocks(fs, d);
    assert d in L;
    assert L == Below(fs, d) + [d];
    var t;
    t, r := BelowThenTop(fs, ino, d);
    FreeIndirectSteps(fs, ino, d, t, r);
  }

  /** The indirect half of `dealloc_data_block` after the direct loop: with the direct
      blocks L1 released, the blocks of the indirect tree are still what they were and
      are released next. */
  lemma IndirectHalf(fs: Fs, t: Fs, ino: int) returns (u: Fs)
    requires WellFormed(fs) && InRange(fs, ino) && Geom(fs).InodeStart() <= ino
    requires Releasable(fs, FileBlocks(fs, ino), {ino})
    requires Released(fs, t, Run(InodeAt(fs, ino).direct, 0), {ino})
    requires InodeAt(t, ino).indirect == InodeAt(fs, ino).indirect
    ensures var d := InodeAt(t, ino).indirect;
      var x := if d < 0 then Ok(t, ()) else FreeIndirect(t, ino, d);
      x.Ok? && x.fs == u
    ensures Released(fs, u, FileBlocks(fs, ino), {ino})
    ensures InodeAt(u, ino) == InodeAt(t, ino)
  {
    var n := InodeAt(fs, ino);
    var L1 := Run(n.direct, 0);
    var L2 := if n.indirect < 0 then [] else IndirectBlocks(fs, n.indirect);
    assert FileBlocks(fs, ino) == L1 + L2;
    ReleasableRest(fs, t, L1, L2, {ino});
    if n.indirect < 0 {
      u := t;
      assert L1 + L2 == L1;
    } else {
      var d := n.indirect;
      forall c | c in IndirectBlocks(fs, d) && InRange(fs, c)
        ensures t.blocks[c] == fs.blocks[c]
      {
        assert c in L2;
      }
      IndirectBlocksFrame(fs, t, d);
      u := FreeIndirectSpec(t, ino, d);
      ReleasedTrans(fs, t, u, L1, L2, {ino}, {}, {ino});
    }
  }

  /** What `dealloc_data_block` leaves in the inode: the direct run cleared, no
      indirect block, size 0, modification time `now`; nothing else changed. */
  predicate DataCleared(n: Inode, n': Inode, now: int) {
    && n'.indirect == NoBlock && n'.size == 0 && n'.mtime == now
    && DirectCleared(n, n'.(indirect := n.indirect, size := n.size, mtime := n.mtime), 0)
  }

  /** `dealloc_data_block` unfolded once, given the results of its two loops. */
  lemma DeallocSteps(fs: Fs, ino: int, now: u32, t: Fs, u: Fs)
    requires InRange(fs, ino)
    requires FreeDirect(fs, ino, 0).Ok? && FreeDirect(fs, ino, 0).fs == t
    requires var d := InodeAt(t, ino).indirect;
      var x := if d < 0 then Ok(t, ()) else FreeIndirect(t, ino, d);
      x.Ok? && x.fs == u
    ensures DeallocDataBlock(fs, ino, now).Ok?
    ensures DeallocDataBlock(fs, ino, now).fs
      == Rehash(SetInode(u, ino, InodeAt(u, ino).(indirect := NoBlock, size := 0, mtime := now)), ino)
  {
  }

  /** The last statements of `dealloc_data_block`: the inode write after both loops
      keeps the release and completes the inode's clearing. */
  lemma DeallocTail(fs: Fs, u: Fs, ino: int, now: u32) returns (r: Fs)
    requires InRange(fs, ino) && Geom(fs).InodeStart() <= ino
    requires Releasable(fs, FileBlocks(fs, ino), {ino})
    requires Released(fs, u, FileBlocks(fs, ino), {ino})
    requires DirectCleared(InodeAt(fs, ino), InodeAt(u, ino), 0)
    ensures r == Rehash(SetInode(u, ino, InodeAt(u, ino).(indirect := NoBlock, size := 0, mtime := now)), ino)
    ensures Released(fs, r, FileBlocks(fs, ino), {ino})
    ensures DataCleared(InodeAt(fs, ino), InodeAt(r, ino), now)
    ensures r.blocks[ino].hash == Hash(r.blocks[ino].payload)
  {
    r := Rehash(SetInode(u, ino, InodeAt(u, ino).(indirect := NoBlock, size := 0, mtime := now)), ino);
    assert ino !in FileBlocks(fs, ino);
    WriteReleased(fs, u, r, FileBlocks(fs, ino), {ino}, ino, {ino});
  }

  /** `dealloc_data_block` on an inode whose blocks are all owned and distinct releases
      exactly those blocks (each tagged free, its bit set, nb_l counted up once per
      block), clears the inode's addresses, size and modification time, rehashes the
      inode and touches no other block. */
  lemma DeallocSpec(fs: Fs, ino: int, now: u32) returns (r: Fs)
    requires WellFormed(fs) && InRange(fs, ino) && Geom(fs).InodeStart() <= ino
    requires Releasable(fs, FileBlocks(fs, ino), {ino})
    ensures DeallocDataBlock(fs, ino, now).Ok? && DeallocDataBlock(fs, ino, now).fs == r
    ensures Released(fs, r, FileBlocks(fs, ino), {ino})
    ensures DataCleared(InodeAt(fs, ino), InodeAt(r, ino), now)
    ensures r.blocks[ino].hash == Hash(r.blocks[ino].payload)
  {
    var n := InodeAt(fs, ino);
    DistinctSplit(Run(n.direct, 0), if n.indirect < 0 then [] else IndirectBlocks(fs, n.indirect));
    FreeDirectSpec(fs, ino, 0);
    var t := FreeDirect(fs, ino, 0).fs;
    var u := IndirectHalf(fs, t, ino);
    DeallocSteps(fs, ino, now, t, u);
    r := DeallocTail(fs, u, ino, now);
  }

  // ---------------------------------------------------------------------------
  // delete_inode

  /** The statements of `delete_inode` after `dealloc_data_block`: the inode is wiped,
      its own bit set, nb_f decremented and the inode rehashed; no other block above the
      bitmap changes and no other bit. */
  lemma InodeFinish(t: Fs, ino: int) returns (r: Fs)
    requires WellFormed(t) && InRange(t, ino) && ino > Geom(t).nb1
    ensures var fs1 := SetInode(t, ino, Wiped(InodeAt(t, ino)));
      && BitmapDealloc(fs1, ino).Ok?
      && r == Rehash(DecFiles(BitmapDealloc(fs1, ino).fs), ino)
    ensures WellFormed(r) && Geom(r) == Geom(t) && |r.blocks| == |t.blocks|
    ensures FreeAt(r, ino) && forall c :: c != ino ==> FreeAt(r, c) == FreeAt(t, c)
    ensures forall c :: InRange(t, c) && c > Geom(t).nb1 && c != ino ==> r.blocks[c] == t.blocks[c]
    ensures InodeAt(r, ino) == Wiped(InodeAt(t, ino)) && Sealed(r.blocks[ino])
    ensures SuperOf(r).nbL == SuperOf(t).nbL && SuperOf(r).nbF == WrapI32(SuperOf(t).nbF - 1)
  {
    var fs1 := SetInode(t, ino, Wiped(InodeAt(t, ino)));
    WriteAboveHeader(t, fs1, ino);
    AddressableInWellFormed(fs1, ino);
    var u := BitmapDealloc(fs1, ino).fs;
    assert u.blocks[0] == fs1.blocks[0];
    assert Geom(u) == Geom(t);
    var v := DecFiles(u);
    SuperCountersOnly(u);
    CounterWritesKeepBits(u);
    r := Rehash(v, ino);
    WriteAboveHeader(v, r, ino);
    assert r.blocks[0] == v.blocks[0];
    assert r.blocks[ino].payload == fs1.blocks[ino].payload;
  }

  /** The state `delete_inode` promises: every block of the file L tagged free with its
      bit set, the inode's own bit set, no other bit and no other block above the bitmap
      changed, and the inode wiped with its direct run cleared and no indirect block. */
  ghost predicate Deleted(fs: Fs, r: Fs, ino: int, L: seq<int>)
    requires |r.blocks| == |fs.blocks| && InRange(fs, ino)
  {
    var n := InodeAt(fs, ino);
    var n' := InodeAt(r, ino);
    && WellFormed(r) && Geom(r) == Geom(fs)
    && (forall b :: b in L ==> FreeAt(r, b) && r.blocks[b].tag == TagFree)
    && FreeAt(r, ino)
    && (forall c :: c !in L && c != ino ==> FreeAt(r, c) == FreeAt(fs, c))
    && (forall c :: InRange(fs, c) && Geom(fs).InodeStart() <= c && c !in L && c != ino ==> r.blocks[c] == fs.blocks[c])
    && n' == Wiped(n).(direct := n'.direct, indirect := NoBlock)
    && DirectCleared(n, n.(direct := n'.direct), 0)
    && Sealed(r.blocks[ino])
  }

  /** `delete_inode` unfolded once, given the result of `dealloc_data_block`. */
  lemma DeleteSteps(fs: Fs, ino: int, now: u32, t: Fs)
    requires InRange(fs, ino)
    requires DeallocDataBlock(fs, ino, now).Ok? && DeallocDataBlock(fs, ino, now).fs == t
    requires BitmapDealloc(SetInode(t, ino, Wiped(InodeAt(t, ino))), ino).Ok?
    ensures DeleteInode(fs, ino, now).Ok?
    ensures DeleteInode(fs, ino, now).fs
      == Rehash(DecFiles(BitmapDealloc(SetInode(t, ino, Wiped(InodeAt(t, ino))), ino).fs), ino)
  {
  }

  /** The two halves of `delete_inode` together give the deleted state. */
  lemma DeletedFrom(fs: Fs, t: Fs, r: Fs, ino: int, now: u32)
    requires WellFormed(fs) && InRange(fs, ino) && Geom(fs).InodeStart() <= ino
    requires ino !in FileBlocks(fs, ino)
    requires Released(fs, t, FileBlocks(fs, ino), {ino}) && DataCleared(InodeAt(fs, ino), InodeAt(t, ino), now)
    requires WellFormed(r) && Geom(r) == Geom(t) && |r.blocks| == |t.blocks|
    requires FreeAt(r, ino) && forall c :: c != ino ==> FreeAt(r, c) == FreeAt(t, c)
    requires forall c :: InRange(t, c) && c > Geom(t).nb1 && c != ino ==> r.blocks[c] == t.blocks[c]
    requires InodeAt(r, ino) == Wiped(InodeAt(t, ino)) && Sealed(r.blocks[ino])
    ensures Deleted(fs, r, ino, FileBlocks(fs, ino))
  {
    var L := FileBlocks(fs, ino);
    DeletedBits(fs, t, r, ino, L);
    DeletedBlocks(fs, t, r, ino, L);
    WipedAfterCleared(InodeAt(fs, ino), InodeAt(t, ino), InodeAt(r, ino), now);
  }

  lemma WipedAfterCleared(n: Inode, m: Inode, n': Inode, now: int)
    requires DataCleared(n, m, now) && n' == Wiped(m)
    ensures n' == Wiped(n).(direct := n'.direct, indirect := NoBlock)
    ensures DirectCleared(n, n.(direct := n'.direct), 0)
  {
  }

  lemma DeletedBits(fs: Fs, t: Fs, r: Fs, ino: int, L: seq<int>)
    requires ino !in L && |t.blocks| == |fs.blocks| && |r.blocks| == |t.blocks|
    requires BitsReleased(fs, t, L)
    requires FreeAt(r, ino) && forall c :: c != ino ==> FreeAt(r, c) == FreeAt(t, c)
    ensures forall b :: b in L ==> FreeAt(r, b)
    ensures forall c :: c !in L && c != ino ==> FreeAt(r, c) == FreeAt(fs, c)
  {
  }

  lemma DeletedBlocks(fs: Fs, t: Fs, r: Fs, ino: int, L: seq<int>)
    requires WellFormed(fs) && InRange(fs, ino) && ino !in L && |t.blocks| == |fs.blocks| && |r.blocks| == |t.blocks|
    requires Geom(t) == Geom(fs)
    requires BlocksReleased(fs, t, L, {ino})
    requires forall c :: InRange(t, c) && c > Geom(t).nb1 && c != ino ==> r.blocks[c] == t.blocks[c]
    ensures forall b :: b in L ==> r.blocks[b].tag == TagFree
    ensures forall c :: InRange(fs, c) && Geom(fs).InodeStart() <= c && c !in L && c != ino ==> r.blocks[c] == fs.blocks[c]
  {
  }

  /** nb_l after `delete_inode`: it grew by the released blocks, which cannot wrap since
      the free count of the data region is below 2^31, and ino's bit lies outside it. */
  lemma DeleteKeepsFree(fs: Fs, t: Fs, r: Fs, ino: int, L: seq<int>)
    requires WellFormed(fs) && SuperOf(fs).nbL == FreeCount(fs, Geom(fs).DataStart(), Geom(fs).nbb)
    requires ino < Geom(fs).DataStart() && |t.blocks| == |fs.blocks|
    requires CountReleased(fs, t, L)
    requires forall c :: c != ino ==> FreeAt(r, c) == FreeAt(t, c)
    requires SuperOf(r).nbL == SuperOf(t).nbL
    ensures SuperOf(r).nbL == FreeCount(r, Geom(fs).DataStart(), Geom(fs).nbb)
  {
    var g := Geom(fs);
    FreeCountFrame(t, r, g.DataStart(), g.nbb);
    FreeCountBound(r, g.DataStart(), g.nbb);
    assert IsI32(SuperOf(fs).nbL + |L|);
  }

  /** nb_f after `delete_inode`: the other inodes of the region are untouched and ino
      is no longer live. */
  lemma DeleteKeepsLive(fs: Fs, t: Fs, r: Fs, ino: int, L: seq<int>)
    requires WellFormed(fs) && LiveAt(fs, ino)
    requires SuperOf(fs).nbF == LiveCount(fs, Geom(fs).InodeStart(), Geom(fs).DataStart())
    requires Geom(fs).InodeStart() <= ino < Geom(fs).DataStart()
    requires |t.blocks| == |fs.blocks| && |r.blocks| == |t.blocks| && Geom(t) == Geom(fs)
    requires BlocksReleased(fs, t, L, {ino}) && SuperOf(t).nbF == SuperOf(fs).nbF
    requires !LiveAt(r, ino)
    requires forall c :: InRange(t, c) && c > Geom(t).nb1 && c != ino ==> r.blocks[c] == t.blocks[c]
    requires SuperOf(r).nbF == WrapI32(SuperOf(t).nbF - 1)
    ensures SuperOf(r).nbF == LiveCount(r, Geom(fs).InodeStart(), Geom(fs).DataStart())
  {
    var g := Geom(fs);
    forall c | g.InodeStart() <= c < g.DataStart() && c != ino
      ensures LiveAt(fs, c) == LiveAt(r, c)
    {
      if InRange(fs, c) {
        assert c !in L;
        assert r.blocks[c] == fs.blocks[c];
      }
    }
    LiveCountOne(fs, r, ino, g.InodeStart(), g.DataStart());
  }

  /** `delete_inode` on a file whose blocks are owned and distinct reaches the deleted
      state, and keeps the counters honest when the inode was live in the inode region. */
  lemma DeleteInodeSpec(fs: Fs, ino: int, now: u32) returns (r: Fs)
    requires WellFormed(fs) && InRange(fs, ino) && Geom(fs).InodeStart() <= ino
    requires Releasable(fs, FileBlocks(fs, ino), {ino})
    ensures DeleteInode(fs, ino, now).Ok? && DeleteInode(fs, ino, now).fs == r
    ensures Deleted(fs, r, ino, FileBlocks(fs, ino))
    ensures !LiveAt(r, ino)
    ensures Counted(fs) && LiveAt(fs, ino) && ino < Geom(fs).DataStart() ==> Counted(r)
  {
    var t := DeallocSpec(fs, ino, now);
    r := InodeFinish(t, ino);
    DeleteSteps(fs, ino, now, t);
    var L := FileBlocks(fs, ino);
    assert ino !in L;
    DeletedFrom(fs, t, r, ino, now);
    if Counted(fs) && LiveAt(fs, ino) && ino < Geom(fs).DataStart() {
      DeleteKeepsFree(fs, t, r, ino, L);
      DeleteKeepsLive(fs, t, r, ino, L);
    }
  }

  // ---------------------------------------------------------------------------
  // A directory torn down as if it were a file

  /** The direct loop over a directory whose one child slot names inode c: c is
      released as if it were a data block. */
  lemma ChildSlotReleased(fs: Fs, dir: int, c: int) returns (t1: Fs)
    requires WellFormed(fs) && InRange(fs, dir) && dir > Geom(fs).nb1
    requires InRange(fs, c) && c > Geom(fs).nb1 && c != dir
    requires InodeAt(fs, dir).direct[0] == c && InodeAt(fs, dir).direct[1] < 0
    ensures FreeDirect(fs, dir, 0).Ok? && FreeDirect(fs, dir, 0).fs == t1
    ensures WellFormed(t1) && Geom(t1) == Geom(fs)
    ensures t1.blocks[c].tag == TagFree && FreeAt(t1, c)
    ensures forall x :: x != c ==> FreeAt(t1, x) == FreeAt(fs, x)
    ensures InodeAt(t1, dir).indirect == InodeAt(fs, dir).indirect
    ensures SuperOf(t1).nbL == WrapI32(SuperOf(fs).nbL + 1)
  {
    ReleaseCore(fs, c);
    var t0 := Release(fs, c).fs;
    ClearSlotSpec(t0, dir, 0);
    t1 := ClearSlot(t0, dir, 0);
    assert InodeAt(t1, dir).direct[1] == InodeAt(fs, dir).direct[1];
    assert FreeDirect(t1, dir, 1) == Ok(t1, ());
    assert Geom(t1) == Geom(t0);
    HeaderKeepsBits(t0, t1);
  }

  /** After the direct loop, the rest of `delete_inode` on a directory without an
      indirect block: the inode write and the inode's own release keep c's state. */
  lemma DirectoryRest(fs: Fs, dir: int, c: int, now: u32, t1: Fs) returns (r: Fs)
    requires WellFormed(fs) && InRange(fs, dir) && dir > Geom(fs).nb1 && InodeAt(fs, dir).indirect < 0
    requires FreeDirect(fs, dir, 0).Ok? && FreeDirect(fs, dir, 0).fs == t1
    requires WellFormed(t1) && Geom(t1) == Geom(fs) && InodeAt(t1, dir).indirect == InodeAt(fs, dir).indirect
    requires InRange(fs, c) && c > Geom(fs).nb1 && c != dir
    ensures DeleteInode(fs, dir, now).Ok? && DeleteInode(fs, dir, now).fs == r
    ensures r.blocks[c] == t1.blocks[c] && SuperOf(r).nbL == SuperOf(t1).nbL
    ensures forall x :: x != dir ==> FreeAt(r, x) == FreeAt(t1, x)
    ensures Geom(r) == Geom(fs) && |r.blocks| == |fs.blocks|
  {
    DeallocSteps(fs, dir, now, t1, t1);
    var t2 := Rehash(SetInode(t1, dir, InodeAt(t1, dir).(indirect := NoBlock, size := 0, mtime := now)), dir);
    WriteAboveHeader(t1, t2, dir);
    assert t2.blocks[0] == t1.blocks[0];
    r := InodeFinish(t2, dir);
    DeleteSteps(fs, dir, now, t2);
  }

  /** `delete_inode` on a directory whose slot 0 names child inode c (the defect of
      utilitaires.c:333-352 reached through 431): the child's inode block is tagged free
      and its bit set as if it were data, and nb_l, counted up for it, no longer equals
      the free count of the data region. */
  lemma DirectoryChildFreed(fs: Fs, dir: int, c: int, now: u32)
    requires WellFormed(fs) && Counted(fs)
    requires InRange(fs, dir) && InRange(fs, c) && dir != c
    requires Geom(fs).InodeStart() <= dir < Geom(fs).DataStart()
    requires Geom(fs).InodeStart() <= c < Geom(fs).DataStart()
    requires InodeAt(fs, dir).direct[0] == c && InodeAt(fs, dir).direct[1] < 0 && InodeAt(fs, dir).indirect < 0
    ensures DeleteInode(fs, dir, now).Ok?
    ensures var r := DeleteInode(fs, dir, now).fs;
      r.blocks[c].tag == TagFree && FreeAt(r, c) && !Counted(r)
  {
    var g := Geom(fs);
    var t1 := ChildSlotReleased(fs, dir, c);
    var r := DirectoryRest(fs, dir, c, now, t1);
    FreeCountFrame(fs, r, g.DataStart(), g.nbb);
    FreeCountBound(fs, g.DataStart(), g.nbb);
    assert IsI32(SuperOf(fs).nbL + 1);
  }
}
