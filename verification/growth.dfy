/** What `get_last_data_block_null` does to a file, stated against the reference
    addressing function `Resolve`: on a container whose addressing of the inode is tidy,
    growing the file by one block and then resolving logical block `size / 4000` gives
    back exactly the block the growth returned, no used block is released, no other
    inode changes, and the addressing stays tidy.
 */
module Growth {
  import opened Codec
  import opened Blocks
  import opened Container
  import opened Allocator
  import opened Resolver

  /** Block b is a data-region block the bitmap marks as used. */
  predicate Owned(fs: Fs, b: int) {
    var g := Geom(fs);
    InRange(fs, b) && g.DataStart() <= b < g.nbb && !FreeAt(fs, b)
  }

  /** No block is named by two entries of the address table w. */
  predicate Unshared(w: Addresses) {
    forall i, i' :: 0 <= i < i' < 1000 && w[i] != NoBlock ==> w[i] != w[i']
  }

  /** Every entry of the address table w is -1 or a used data block other than d, and no
      block is named twice. */
  predicate EntriesOwned(fs: Fs, w: Addresses, d: int) {
    && (forall i :: 0 <= i < 1000 ==> w[i] == NoBlock || (Owned(fs, w[i]) && w[i] != d))
    && Unshared(w)
  }

  /** Inode ino sits in the inode region and its indirect pointer is -1 or a used data
      block; when that block is read as double-indirect, its entries are -1 or used data
      blocks other than itself. */
  predicate Tidy(fs: Fs, ino: int) {
    var g := Geom(fs);
    WellFormed(fs) && InRange(fs, ino) && g.InodeStart() <= ino < g.DataStart()
      && var d := InodeAt(fs, ino).indirect;
         d == NoBlock || (Owned(fs, d) && (fs.blocks[d].tag != TagSingle ==> EntriesOwned(fs, WordsAt(fs, d), d)))
  }

  /** fs' has the layout of fs and no block used in fs is free in fs'. */
  ghost predicate Kept(fs: Fs, fs': Fs) {
    && WellFormed(fs') && Geom(fs') == Geom(fs) && |fs'.blocks| == |fs.blocks|
    && (forall c :: FreeAt(fs', c) ==> FreeAt(fs, c))
  }

  /** Kept, and the whole inode region is untouched. */
  ghost predicate Grew(fs: Fs, fs': Fs) {
    && Kept(fs, fs')
    && (forall c :: 0 <= c < |fs.blocks| && Geom(fs).InodeStart() <= c < Geom(fs).DataStart() ==> fs'.blocks[c] == fs.blocks[c])
  }

  /** Kept, every inode other than ino untouched, and inode ino changed at most in its
      block pointers. */
  ghost predicate Extended(fs: Fs, fs': Fs, ino: int) {
    && Kept(fs, fs') && InRange(fs, ino)
    && (forall c :: 0 <= c < |fs.blocks| && Geom(fs).InodeStart() <= c < Geom(fs).DataStart() && c != ino ==> fs'.blocks[c] == fs.blocks[c])
    && InodeAt(fs', ino) == InodeAt(fs, ino).(direct := InodeAt(fs', ino).direct, indirect := InodeAt(fs', ino).indirect)
  }

  // ---------------------------------------------------------------------------
  // Frames

  lemma KeptTrans(a: Fs, b: Fs, c: Fs)
    requires Kept(a, b) && Kept(b, c)
    ensures Kept(a, c)
  {
  }

  lemma GrewTrans(a: Fs, b: Fs, c: Fs)
    requires Grew(a, b) && Grew(b, c)
    ensures Grew(a, c)
  {
  }

  lemma OwnedKept(fs: Fs, fs': Fs, b: int)
    requires Kept(fs, fs') && Owned(fs, b)
    ensures Owned(fs', b)
  {
  }

  lemma EntriesKept(fs: Fs, fs': Fs, w: Addresses, d: int)
    requires Kept(fs, fs') && EntriesOwned(fs, w, d)
    ensures EntriesOwned(fs', w, d)
  {
    forall i | 0 <= i < 1000 && w[i] != NoBlock
      ensures Owned(fs', w[i])
    {
      OwnedKept(fs, fs', w[i]);
    }
  }

  /** A write confined to one block past the bitmap keeps the layout and every bit. */
  lemma WriteKeeps(fs: Fs, fs': Fs, b: int)
    requires WellFormed(fs) && InRange(fs, b) && b > Geom(fs).nb1
    requires |fs'.blocks| == |fs.blocks|
    requires forall c :: 0 <= c < |fs.blocks| && c != b ==> fs'.blocks[c] == fs.blocks[c]
    ensures Kept(fs, fs')
  {
    WriteAboveHeader(fs, fs', b);
  }

  /** A write confined to one data-region block also leaves the inode region alone. */
  lemma WriteGrows(fs: Fs, fs': Fs, b: int)
    requires WellFormed(fs) && InRange(fs, b) && b >= Geom(fs).DataStart()
    requires |fs'.blocks| == |fs.blocks|
    requires forall c :: 0 <= c < |fs.blocks| && c != b ==> fs'.blocks[c] == fs.blocks[c]
    ensures Grew(fs, fs')
  {
    WriteAboveHeader(fs, fs', b);
  }

  /** `alloc_data_block` on a well-formed container: the block it returns was free and is
      now used, and nothing else of interest moves. */
  lemma AllocGrows(fs: Fs)
    requires WellFormed(fs)
    ensures AllocDataBlock(fs).Ok? && Grew(fs, AllocDataBlock(fs).fs)
    ensures AllocDataBlock(fs).v == NoBlock ==> AllocDataBlock(fs).fs == fs
    ensures AllocDataBlock(fs).v != NoBlock ==> FreeAt(fs, AllocDataBlock(fs).v) && Owned(AllocDataBlock(fs).fs, AllocDataBlock(fs).v)
    ensures forall c :: 0 <= c < |fs.blocks| && c >= Geom(fs).InodeStart() ==> AllocDataBlock(fs).fs.blocks[c] == fs.blocks[c]
  {
    AllocDataBlockSpec(fs);
  }

  // ---------------------------------------------------------------------------
  // Index arithmetic

  /** The C quotient and remainder by 1000 are both in 0..999 exactly for 0 <= j < 10^6,
      and for j >= 0 they are the mathematical ones. */
  lemma SplitIndex(j: int)
    ensures (0 <= CDiv(j, 1000) < 1000 && 0 <= CMod(j, 1000) < 1000) <==> 0 <= j < 1000000
    ensures 0 <= j ==> CDiv(j, 1000) == j / 1000 && CMod(j, 1000) == j % 1000
  {
    if 0 <= j {
      CDivModNonNegative(j, 1000);
    } else if (-j) / 1000 == 0 {
      assert CDiv(j, 1000) == 0 && CMod(j, 1000) == j;
    } else {
      assert CDiv(j, 1000) < 0;
    }
  }

  // ---------------------------------------------------------------------------
  // The two-level table under a double-indirect block

  /** Entry j of the two-level table under d: entry j % 1000 of the block named by entry
      j / 1000 of d. */
  function TwoLevel(fs: Fs, d: int, j: int): (r: Res<int>)
    requires InRange(fs, d)
    ensures r.Ok? ==> r.fs == fs && 0 <= j < 1000000
  {
    if !(0 <= j < 1000000) then Fault
    else
      var e := WordsAt(fs, d)[j / 1000];
      if InRange(fs, e) then Ok(fs, WordsAt(fs, e)[j % 1000]) else Fault
  }

  /** Every entry other than j of the two-level table under d that fs gives, fs' gives. */
  ghost predicate TwoOthers(fs: Fs, fs': Fs, d: int, j: int)
    requires InRange(fs, d) && InRange(fs', d)
  {
    forall j' :: j' != j && TwoLevel(fs, d, j').Ok? ==> TwoLevel(fs', d, j') == Ok(fs', TwoLevel(fs, d, j').v)
  }

  /** An entry of the two-level table reads the same where its outer entry and the table
      it names are the same. */
  lemma TwoLevelFrame(fs: Fs, fs': Fs, d: int, j: int)
    requires InRange(fs, d) && |fs'.blocks| == |fs.blocks| && 0 <= j < 1000000
    requires InRange(fs, WordsAt(fs, d)[j / 1000])
    requires WordsAt(fs', d)[j / 1000] == WordsAt(fs, d)[j / 1000]
    requires fs'.blocks[WordsAt(fs, d)[j / 1000]] == fs.blocks[WordsAt(fs, d)[j / 1000]]
    ensures TwoLevel(fs', d, j) == Ok(fs', TwoLevel(fs, d, j).v)
  {
  }

  // ---------------------------------------------------------------------------
  // The double-indirect step (label rec2)

  lemma SetEntrySpec(fs: Fs, d: int, i: int, a: int)
    requires WellFormed(fs) && InRange(fs, d) && d >= Geom(fs).DataStart() && 0 <= i < 1000 && IsI32(a)
    ensures Grew(fs, SetEntry(fs, d, i, a))
    ensures WordsAt(SetEntry(fs, d, i, a), d) == WordsAt(fs, d)[i := a]
    ensures SetEntry(fs, d, i, a).blocks[d].tag == fs.blocks[d].tag
    ensures forall c :: 0 <= c < |fs.blocks| && c != d ==> SetEntry(fs, d, i, a).blocks[c] == fs.blocks[c]
  {
    var fs1 := SetWords(fs, d, WordsAt(fs, d)[i := a]);
    WriteGrows(fs, fs1, d);
    WriteGrows(fs1, SetEntry(fs, d, i, a), d);
    GrewTrans(fs, fs1, SetEntry(fs, d, i, a));
  }

  /** Turning the used block a, named by no entry of d, into an empty single-indirect
      block and linking it at the empty entry `outer` of d. */
  lemma LinkFreshSpec(fs: Fs, d: int, outer: int, a: int)
    requires WellFormed(fs) && Owned(fs, d) && Owned(fs, a) && a != d && 0 <= outer < 1000
    requires EntriesOwned(fs, WordsAt(fs, d), d) && WordsAt(fs, d)[outer] == NoBlock
    requires forall i :: 0 <= i < 1000 ==> WordsAt(fs, d)[i] != a
    ensures var fs1 := SetWords(fs, d, WordsAt(fs, d)[outer := a]);
            var fs3 := Rehash(FreshAddressBlock(fs1, a, Unlinked(), TagSingle), d);
            && Grew(fs, fs3) && fs3.blocks[d].tag == fs.blocks[d].tag
            && WordsAt(fs3, d) == WordsAt(fs, d)[outer := a] && WordsAt(fs3, a) == Unlinked()
            && EntriesOwned(fs3, WordsAt(fs3, d), d)
            && forall c :: 0 <= c < |fs.blocks| && c != d && c != a ==> fs3.blocks[c] == fs.blocks[c]
  {
    var w := WordsAt(fs, d);
    var fs1 := SetWords(fs, d, w[outer := a]);
    WriteGrows(fs, fs1, d);
    var fs2 := FreshAddressBlock(fs1, a, Unlinked(), TagSingle);
    WriteGrows(fs1, fs2, a);
    var fs3 := Rehash(fs2, d);
    WriteGrows(fs2, fs3, d);
    GrewTrans(fs, fs1, fs2);
    GrewTrans(fs, fs2, fs3);
    assert WordsAt(fs3, d) == w[outer := a];
    assert WordsAt(fs3, a) == Unlinked();
    OwnedKept(fs, fs3, a);
    EntriesKept(fs, fs3, w, d);
    assert Unshared(w[outer := a]);
  }

  /** Filling an empty outer entry links a fresh used block holding an empty table; the
      table stays owned and every entry of the two-level table that could be read before
      reads the same. */
  lemma OuterSlotSpec(fs: Fs, d: int, outer: int)
    requires WellFormed(fs) && Owned(fs, d) && EntriesOwned(fs, WordsAt(fs, d), d)
    requires 0 <= outer < 1000
    ensures var r := OuterSlot(fs, d, outer);
            r.Ok? ==> && Grew(fs, r.fs) && r.fs.blocks[d].tag == fs.blocks[d].tag
                      && EntriesOwned(r.fs, WordsAt(r.fs, d), d)
                      && (WordsAt(fs, d)[outer] != NoBlock ==> r.fs == fs)
                      && (forall j :: TwoLevel(fs, d, j).Ok? ==> TwoLevel(r.fs, d, j) == Ok(r.fs, TwoLevel(fs, d, j).v))
                      && var e := WordsAt(r.fs, d)[outer];
                         InRange(r.fs, e) && (WordsAt(fs, d)[outer] == NoBlock ==> WordsAt(r.fs, e) == Unlinked())
  {
    var w := WordsAt(fs, d);
    if w[outer] == NoBlock {
      AllocGrows(fs);
      var t := AllocDataBlock(fs);
      if t.v != NoBlock {
        OuterFresh(fs, d, outer, t);
      }
    } else {
      assert Owned(fs, w[outer]);
    }
  }

  /** The allocation t into the empty entry `outer` of d, when it found a block. */
  lemma OuterFresh(fs: Fs, d: int, outer: int, t: Res<i32>)
    requires WellFormed(fs) && Owned(fs, d) && EntriesOwned(fs, WordsAt(fs, d), d)
    requires 0 <= outer < 1000 && WordsAt(fs, d)[outer] == NoBlock
    requires t == AllocDataBlock(fs) && t.Ok? && t.v != NoBlock
    ensures InRange(t.fs, d) && InRange(t.fs, t.v)
    ensures var fs3 := Rehash(FreshAddressBlock(SetWords(t.fs, d, WordsAt(t.fs, d)[outer := t.v]), t.v, Unlinked(), TagSingle), d);
            && Grew(fs, fs3) && fs3.blocks[d].tag == fs.blocks[d].tag
            && EntriesOwned(fs3, WordsAt(fs3, d), d)
            && (forall j :: TwoLevel(fs, d, j).Ok? ==> TwoLevel(fs3, d, j) == Ok(fs3, TwoLevel(fs, d, j).v))
            && WordsAt(fs3, d)[outer] == t.v && InRange(fs3, t.v) && WordsAt(fs3, t.v) == Unlinked()
  {
    OuterPrep(fs, d, outer, t);
    LinkFreshSpec(t.fs, d, outer, t.v);
    var fs3 := Rehash(FreshAddressBlock(SetWords(t.fs, d, WordsAt(t.fs, d)[outer := t.v]), t.v, Unlinked(), TagSingle), d);
    GrewTrans(fs, t.fs, fs3);
    OuterFrame(fs, fs3, d, outer, t.v);
  }

  /** The allocation t leaves d and its entries as they were and hands out a block that
      no entry of d names. */
  lemma OuterPrep(fs: Fs, d: int, outer: int, t: Res<i32>)
    requires WellFormed(fs) && Owned(fs, d) && EntriesOwned(fs, WordsAt(fs, d), d)
    requires 0 <= outer < 1000 && WordsAt(fs, d)[outer] == NoBlock
    requires t == AllocDataBlock(fs) && t.Ok? && t.v != NoBlock
    ensures WellFormed(t.fs) && Grew(fs, t.fs) && Owned(t.fs, d) && Owned(t.fs, t.v) && t.v != d
    ensures !Owned(fs, t.v) && WordsAt(t.fs, d) == WordsAt(fs, d)
    ensures EntriesOwned(t.fs, WordsAt(t.fs, d), d)
    ensures forall i :: 0 <= i < 1000 ==> WordsAt(fs, d)[i] != t.v
    ensures forall c :: 0 <= c < |fs.blocks| && c >= Geom(fs).InodeStart() ==> t.fs.blocks[c] == fs.blocks[c]
  {
    var w := WordsAt(fs, d);
    AllocGrows(fs);
    AllocDataBlockSpec(fs);
    assert t.fs.blocks[d] == fs.blocks[d];
    OwnedKept(fs, t.fs, d);
    EntriesKept(fs, t.fs, w, d);
    forall i | 0 <= i < 1000
      ensures w[i] != t.v
    {
      assert w[i] == NoBlock || !FreeAt(fs, w[i]);
    }
  }

  /** Linking a block that is not in use into the empty entry `outer` of d keeps every
      entry of the two-level table that could be read before. */
  lemma OuterFrame(fs: Fs, fs': Fs, d: int, outer: int, a: i32)
    requires InRange(fs, d) && |fs'.blocks| == |fs.blocks| && EntriesOwned(fs, WordsAt(fs, d), d)
    requires 0 <= outer < 1000 && WordsAt(fs, d)[outer] == NoBlock && !Owned(fs, a)
    requires WordsAt(fs', d) == WordsAt(fs, d)[outer := a]
    requires forall c :: 0 <= c < |fs.blocks| && c != d && Owned(fs, c) ==> fs'.blocks[c] == fs.blocks[c]
    ensures forall j :: TwoLevel(fs, d, j).Ok? ==> TwoLevel(fs', d, j) == Ok(fs', TwoLevel(fs, d, j).v)
  {
    forall j | TwoLevel(fs, d, j).Ok?
      ensures TwoLevel(fs', d, j) == Ok(fs', TwoLevel(fs, d, j).v)
    {
      var e := WordsAt(fs, d)[j / 1000];
      assert e != NoBlock && Owned(fs, e) && e != d;
      TwoLevelFrame(fs, fs', d, j);
    }
  }

  /** The inner step of `rec2` once entry j / 1000 of d names the used table e: a block
      is allocated into entry j % 1000 of e, and every other entry of the two-level table
      reads as before. */
  lemma InnerSpec(fs: Fs, d: int, e: int, j: int, t: Res<i32>)
    requires WellFormed(fs) && Owned(fs, d) && EntriesOwned(fs, WordsAt(fs, d), d) && 0 <= j < 1000000
    requires e == WordsAt(fs, d)[j / 1000] && Owned(fs, e)
    requires t == AllocDataBlock(fs) && t.Ok?
    ensures var r := SetEntry(t.fs, e, j % 1000, t.v);
            && Grew(fs, r) && r.blocks[d] == fs.blocks[d] && WordsAt(r, e)[j % 1000] == t.v
            && TwoOthers(fs, r, d, j)
  {
    AllocGrows(fs);
    var w := WordsAt(fs, d);
    SetEntrySpec(t.fs, e, j % 1000, t.v);
    var r := SetEntry(t.fs, e, j % 1000, t.v);
    GrewTrans(fs, t.fs, r);
    forall j' | j' != j && TwoLevel(fs, d, j').Ok?
      ensures TwoLevel(r, d, j') == Ok(r, TwoLevel(fs, d, j').v)
    {
      InnerFrame(fs, r, d, e, j, j');
    }
  }

  /** One entry j' other than j of the two-level table, across a write of entry j. */
  lemma InnerFrame(fs: Fs, r: Fs, d: int, e: int, j: int, j': int)
    requires InRange(fs, d) && EntriesOwned(fs, WordsAt(fs, d), d) && 0 <= j < 1000000
    requires e == WordsAt(fs, d)[j / 1000] && InRange(fs, e) && e != d
    requires |r.blocks| == |fs.blocks| && r.blocks[d] == fs.blocks[d]
    requires WordsAt(r, e) == WordsAt(fs, e)[j % 1000 := WordsAt(r, e)[j % 1000]]
    requires forall c :: 0 <= c < |fs.blocks| && c != e && Owned(fs, c) ==> r.blocks[c] == fs.blocks[c]
    requires j' != j && TwoLevel(fs, d, j').Ok?
    ensures TwoLevel(r, d, j') == Ok(r, TwoLevel(fs, d, j').v)
  {
    var w := WordsAt(fs, d);
    var e' := w[j' / 1000];
    assert e' != NoBlock && Owned(fs, e');
    if j' / 1000 == j / 1000 {
      assert j' % 1000 != j % 1000;
    } else {
      assert e' != e;
      TwoLevelFrame(fs, r, d, j');
    }
  }

  /** `rec2`: on an owned double-indirect table, the step returns entry j of the two-level
      table it leaves behind, keeps d's tag and keeps the table owned; every other entry
      reads as before, and the block returned is the one already recorded at j or one
      that was free. */
  lemma DoublySpec(fs: Fs, d: int, j: int)
    requires WellFormed(fs) && Owned(fs, d) && EntriesOwned(fs, WordsAt(fs, d), d)
    ensures var r := Doubly(fs, d, j);
            r.Ok? ==> && Grew(fs, r.fs) && r.fs.blocks[d].tag == fs.blocks[d].tag
                      && EntriesOwned(r.fs, WordsAt(r.fs, d), d)
                      && TwoLevel(r.fs, d, j) == Ok(r.fs, r.v)
                      && TwoOthers(fs, r.fs, d, j) && Handed(fs, TwoLevel(fs, d, j), r.v)
  {
    var outer := CDiv(j, 1000);
    var inner := CMod(j, 1000);
    SplitIndex(j);
    if 0 <= outer < 1000 && 0 <= inner < 1000 {
      OuterSlotSpec(fs, d, outer);
      var s := OuterSlot(fs, d, outer);
      if s.Ok? {
        var fs1 := s.fs;
        var e := WordsAt(fs1, d)[outer];
        var before := TwoLevel(fs, d, j);
        assert before.Ok? && before.v != NoBlock ==> fs1 == fs;
        if WordsAt(fs1, e)[inner] == NoBlock {
          var t := AllocDataBlock(fs1);
          AllocGrows(fs1);
          assert Owned(fs1, e);
          InnerSpec(fs1, d, e, j, t);
          var fs2 := SetEntry(t.fs, e, inner, t.v);
          assert Doubly(fs, d, j) == Ok(fs2, t.v);
          GrewTrans(fs, fs1, fs2);
          EntriesKept(fs1, fs2, WordsAt(fs1, d), d);
          assert !(before.Ok? && before.v != NoBlock);
          assert t.v == NoBlock || FreeAt(fs1, t.v);
        } else {
          assert Doubly(fs, d, j) == Ok(fs1, WordsAt(fs1, e)[inner]);
        }
      }
    }
  }

  // ---------------------------------------------------------------------------
  // Frames for one inode

  lemma GrewExtends(fs: Fs, fs': Fs, ino: int)
    requires Grew(fs, fs') && InRange(fs, ino) && Geom(fs).InodeStart() <= ino < Geom(fs).DataStart()
    ensures Extended(fs, fs', ino) && InodeAt(fs', ino) == InodeAt(fs, ino)
  {
  }

  lemma ExtendedTrans(a: Fs, b: Fs, c: Fs, ino: int)
    requires Extended(a, b, ino) && Extended(b, c, ino)
    ensures Extended(a, c, ino)
  {
  }

  // ---------------------------------------------------------------------------
  // The blocks of a file as a reader walks them

  /** Logical block k of inode ino as `cat` and `cp` walk a file: slot k of the direct
      array below 900, the reference addressing from 900 on. */
  function BlockOf(fs: Fs, ino: int, k: int): (r: Res<int>)
    ensures r.Ok? ==> r.fs == fs
  {
    if InRange(fs, ino) && 0 <= k < 900 then Ok(fs, InodeAt(fs, ino).direct[k]) else Resolve(fs, ino, k)
  }

  /** Every logical block of ino other than k that fs gives, fs' gives too. */
  ghost predicate Others(fs: Fs, fs': Fs, ino: int, k: int) {
    forall k' :: k' != k && BlockOf(fs, ino, k').Ok? ==> BlockOf(fs', ino, k') == Ok(fs', BlockOf(fs, ino, k').v)
  }

  /** v is what growth may hand out for a slot that held `before`: the block already
      recorded there, or, when the slot held -1 or could not be reached, -1 or a block
      that was free in fs. */
  ghost predicate Handed(fs: Fs, before: Res<int>, v: int) {
    if before.Ok? && before.v != NoBlock then v == before.v else v == NoBlock || FreeAt(fs, v)
  }

  /** What one successful growth at logical index k promises: only ino's block pointers
      changed and no used block was released, the addressing is still tidy, block k now
      resolves to v, every other block of the file reads as before, and v was free, or,
      past the direct blocks, already recorded at k. */
  ghost predicate GrewAt(fs: Fs, fs': Fs, ino: int, k: int, v: int) {
    && Extended(fs, fs', ino) && Tidy(fs', ino)
    && Resolve(fs', ino, k) == Ok(fs', v)
    && Others(fs, fs', ino, k)
    && (if k < 900 then v == NoBlock || FreeAt(fs, v) else Handed(fs, BlockOf(fs, ino, k), v))
  }

  lemma OthersTrans(a: Fs, b: Fs, c: Fs, ino: int, k: int)
    requires Others(a, b, ino, k) && Others(b, c, ino, k)
    ensures Others(a, c, ino, k)
  {
  }

  /** A reader of a tidy inode looks only at the inode, the block its indirect pointer
      names and, under a double-indirect table, the table one entry names. */
  lemma BlockOfFrame(fs: Fs, fs': Fs, ino: int, k: int)
    requires Tidy(fs, ino) && |fs'.blocks| == |fs.blocks| && BlockOf(fs, ino, k).Ok?
    requires forall c :: Geom(fs).InodeStart() <= c < |fs.blocks| ==> fs'.blocks[c] == fs.blocks[c]
    ensures BlockOf(fs', ino, k) == Ok(fs', BlockOf(fs, ino, k).v)
  {
    assert fs'.blocks[ino] == fs.blocks[ino];
    var d := InodeAt(fs, ino).indirect;
    if d != NoBlock {
      assert fs'.blocks[d] == fs.blocks[d];
      if fs.blocks[d].tag != TagSingle && 900 <= k < MaxBlocks {
        var e := WordsAt(fs, d)[(k - 900) / 1000];
        if InRange(fs, e) {
          assert Owned(fs, e);
          assert fs'.blocks[e] == fs.blocks[e];
        }
      }
    }
  }

  /** `alloc_data_block` moves no block of a tidy inode. */
  lemma AllocKeepsBlocks(fs: Fs, ino: int, k: int)
    requires Tidy(fs, ino)
    ensures AllocDataBlock(fs).Ok? && Others(fs, AllocDataBlock(fs).fs, ino, k)
  {
    AllocGrows(fs);
    forall k' | k' != k && BlockOf(fs, ino, k').Ok?
      ensures BlockOf(AllocDataBlock(fs).fs, ino, k') == Ok(AllocDataBlock(fs).fs, BlockOf(fs, ino, k').v)
    {
      BlockOfFrame(fs, AllocDataBlock(fs).fs, ino, k');
    }
  }

  /** In direct mode a reader sees only the direct array, which fs' keeps outside slot k. */
  lemma DirectOthers(fs: Fs, fs': Fs, ino: int, k: int)
    requires InRange(fs, ino) && InRange(fs', ino) && InodeAt(fs, ino).indirect == NoBlock
    requires forall i :: 0 <= i < 900 && i != k ==> InodeAt(fs', ino).direct[i] == InodeAt(fs, ino).direct[i]
    ensures Others(fs, fs', ino, k)
  {
  }

  /** Writing entry j of the single-indirect table moves only logical block j + 900. */
  lemma SingleOthers(fs: Fs, fs': Fs, ino: int, j: int)
    requires InRange(fs, ino) && |fs'.blocks| == |fs.blocks|
    requires InodeAt(fs', ino).direct == InodeAt(fs, ino).direct
    requires InodeAt(fs', ino).indirect == InodeAt(fs, ino).indirect
    requires InRange(fs, InodeAt(fs, ino).indirect)
    requires fs.blocks[InodeAt(fs, ino).indirect].tag == TagSingle
    requires fs'.blocks[InodeAt(fs, ino).indirect].tag == TagSingle
    requires forall i :: 0 <= i < 1000 && i != j ==>
      WordsAt(fs', InodeAt(fs, ino).indirect)[i] == WordsAt(fs, InodeAt(fs, ino).indirect)[i]
    ensures Others(fs, fs', ino, j + 900)
  {
  }

  /** Under a double-indirect table a reader past block 900 reads the two-level table. */
  lemma DoubleBlockOf(fs: Fs, ino: int, j: int)
    requires InRange(fs, ino) && InRange(fs, InodeAt(fs, ino).indirect)
    requires fs.blocks[InodeAt(fs, ino).indirect].tag != TagSingle && 0 <= j
    ensures BlockOf(fs, ino, j + 900) == TwoLevel(fs, InodeAt(fs, ino).indirect, j)
    ensures Resolve(fs, ino, j + 900) == TwoLevel(fs, InodeAt(fs, ino).indirect, j)
  {
  }

  /** A step that keeps every entry other than j of the two-level table keeps every
      logical block other than j + 900. */
  lemma DoubleOthers(fs: Fs, fs': Fs, ino: int, j: int)
    requires InRange(fs, ino) && |fs'.blocks| == |fs.blocks|
    requires InodeAt(fs', ino).direct == InodeAt(fs, ino).direct
    requires InodeAt(fs', ino).indirect == InodeAt(fs, ino).indirect
    requires InRange(fs, InodeAt(fs, ino).indirect)
    requires fs.blocks[InodeAt(fs, ino).indirect].tag != TagSingle
    requires fs'.blocks[InodeAt(fs, ino).indirect].tag != TagSingle
    requires TwoOthers(fs, fs', InodeAt(fs, ino).indirect, j)
    ensures Others(fs, fs', ino, j + 900)
  {
    forall k' | k' != j + 900 && BlockOf(fs, ino, k').Ok?
      ensures BlockOf(fs', ino, k') == Ok(fs', BlockOf(fs, ino, k').v)
    {
      if 900 <= k' {
        DoubleBlockOf(fs, ino, k' - 900);
        DoubleBlockOf(fs', ino, k' - 900);
      }
    }
  }

  /** Promotion keeps every block: the old single-indirect block d becomes entry 0 of the
      double-indirect table a, through which logical blocks 900..1899 are then read. */
  lemma PromoteOthers(fs: Fs, fs': Fs, ino: int, a: i32, k: int)
    requires InRange(fs, ino) && |fs'.blocks| == |fs.blocks| && InRange(fs, a)
    requires InRange(fs, InodeAt(fs, ino).indirect)
    requires fs.blocks[InodeAt(fs, ino).indirect].tag == TagSingle
    requires fs'.blocks[InodeAt(fs, ino).indirect] == fs.blocks[InodeAt(fs, ino).indirect]
    requires InodeAt(fs', ino) == InodeAt(fs, ino).(indirect := a)
    requires fs'.blocks[a].tag != TagSingle && WordsAt(fs', a) == Unlinked()[0 := InodeAt(fs, ino).indirect]
    ensures Others(fs, fs', ino, k)
  {
    forall k' | k' != k && BlockOf(fs, ino, k').Ok?
      ensures BlockOf(fs', ino, k') == Ok(fs', BlockOf(fs, ino, k').v)
    {
      if 900 <= k' {
        assert 900 <= k' < 1900;
        assert (k' - 900) / 1000 == 0 && (k' - 900) % 1000 == k' - 900;
        DoubleBlockOf(fs', ino, k' - 900);
      }
    }
  }

  // ---------------------------------------------------------------------------
  // rec1

  lemma SingleResolves(fs: Fs, ino: int, j: int)
    requires InRange(fs, ino) && InRange(fs, InodeAt(fs, ino).indirect)
    requires fs.blocks[InodeAt(fs, ino).indirect].tag == TagSingle && 0 <= j < 1000
    ensures Resolve(fs, ino, j + 900) == Ok(fs, WordsAt(fs, InodeAt(fs, ino).indirect)[j])
  {
  }

  /** Relinking inode ino to block a: the inode is rewritten as n', block a receives the
      table w with tag `tag`, the inode is rehashed, and no other block moves. */
  lemma RelinkSpec(fs: Fs, ino: int, n': Inode, a: int, w: Addresses, tag: u32)
    requires WellFormed(fs) && InRange(fs, ino) && Geom(fs).InodeStart() <= ino < Geom(fs).DataStart()
    requires Owned(fs, a)
    ensures var fs3 := Rehash(FreshAddressBlock(SetInode(fs, ino, n'), a, w, tag), ino);
            && Kept(fs, fs3) && InodeAt(fs3, ino) == n' && WordsAt(fs3, a) == w
            && fs3.blocks[a].tag == tag && Owned(fs3, a)
            && forall c :: 0 <= c < |fs.blocks| && c != ino && c != a ==> fs3.blocks[c] == fs.blocks[c]
  {
    var fs1 := SetInode(fs, ino, n');
    WriteKeeps(fs, fs1, ino);
    var fs2 := FreshAddressBlock(fs1, a, w, tag);
    WriteGrows(fs1, fs2, a);
    var fs3 := Rehash(fs2, ino);
    WriteKeeps(fs2, fs3, ino);
    KeptTrans(fs, fs1, fs2);
    KeptTrans(fs, fs2, fs3);
    assert InodeAt(fs3, ino) == n';
    assert WordsAt(fs3, a) == w;
    OwnedKept(fs, fs3, a);
  }

  lemma UnsharedFirst(d: int)
    requires IsI32(d)
    ensures Unshared(Unlinked()[0 := d])
  {
  }

  /** Promotion: block a becomes a double-indirect table whose entry 0 is the old
      single-indirect block d and whose other entries are -1, and the inode is relinked
      to it; d itself is not touched. */
  lemma PromoteSpec(fs: Fs, ino: int, a: i32)
    requires WellFormed(fs) && InRange(fs, ino) && Geom(fs).InodeStart() <= ino < Geom(fs).DataStart()
    requires Owned(fs, InodeAt(fs, ino).indirect) && Owned(fs, a) && a != InodeAt(fs, ino).indirect
    ensures var d := InodeAt(fs, ino).indirect;
            var fs1 := SetInode(fs, ino, InodeAt(fs, ino).(indirect := a));
            var fs3 := Rehash(FreshAddressBlock(fs1, a, Unlinked()[0 := d], TagDouble), ino);
            && Extended(fs, fs3, ino) && InodeAt(fs3, ino) == InodeAt(fs, ino).(indirect := a)
            && Owned(fs3, a) && fs3.blocks[a].tag == TagDouble
            && WordsAt(fs3, a) == Unlinked()[0 := d] && fs3.blocks[d] == fs.blocks[d]
            && EntriesOwned(fs3, WordsAt(fs3, a), a)
  {
    var d := InodeAt(fs, ino).indirect;
    RelinkSpec(fs, ino, InodeAt(fs, ino).(indirect := a), a, Unlinked()[0 := d], TagDouble);
    var fs3 := Rehash(FreshAddressBlock(SetInode(fs, ino, InodeAt(fs, ino).(indirect := a)), a, Unlinked()[0 := d], TagDouble), ino);
    OwnedKept(fs, fs3, d);
    UnsharedFirst(d);
  }

  /** The table d, promoted under the fresh block t.v, and the inode relinked to it. */
  function Promoted(fs: Fs, ino: int, t: Res<i32>): Fs
    requires InRange(fs, ino) && t.Ok? && |t.fs.blocks| == |fs.blocks| && InRange(fs, t.v)
  {
    var d := InodeAt(fs, ino).indirect;
    Rehash(FreshAddressBlock(SetInode(t.fs, ino, InodeAt(t.fs, ino).(indirect := t.v)), t.v, Unlinked()[0 := d], TagDouble), ino)
  }

  /** `rec1` on a full single-indirect table is the allocation of t, the promotion, then
      `rec2` in the new table. */
  lemma PromoteStep(fs: Fs, ino: int, j: int, t: Res<i32>)
    requires InRange(fs, ino) && InRange(fs, InodeAt(fs, ino).indirect)
    requires fs.blocks[InodeAt(fs, ino).indirect].tag == TagSingle && j >= 1000
    requires t == AllocDataBlock(fs) && t.Ok? && InRange(fs, t.v)
    requires InodeAt(t.fs, ino) == InodeAt(fs, ino)
    ensures Linked(fs, ino, j) == Doubly(Promoted(fs, ino, t), t.v, j)
  {
  }

  /** Promotion and `rec2` as growth performs them. */
  lemma PromoteGrew(fs: Fs, ino: int, j: int, t: Res<i32>)
    requires Tidy(fs, ino) && InodeAt(fs, ino).indirect != NoBlock
    requires fs.blocks[InodeAt(fs, ino).indirect].tag == TagSingle && j >= 1000
    requires t == AllocDataBlock(fs) && t.Ok? && InRange(fs, t.v)
    ensures var r := Doubly(Promoted(fs, ino, t), t.v, j);
            r.Ok? ==> InodeAt(r.fs, ino).direct == InodeAt(fs, ino).direct && GrewAt(fs, r.fs, ino, j + 900, r.v)
  {
    PromoteFirst(fs, ino, j, t);
    var fs3 := Promoted(fs, ino, t);
    DoublySpec(fs3, t.v, j);
    var r := Doubly(fs3, t.v, j);
    if r.Ok? {
      GrewExtends(fs3, r.fs, ino);
      ExtendedTrans(fs, fs3, r.fs, ino);
      OwnedKept(fs3, r.fs, t.v);
      DoubleBlockOf(r.fs, ino, j);
      DoubleOthers(fs3, r.fs, ino, j);
      OthersTrans(fs, fs3, r.fs, ino, j + 900);
    }
  }

  /** The promoted state: the inode is relinked to the fresh double table t.v, whose
      entries are owned; every logical block but j + 900 reads as before, and neither
      fs nor the fresh table could read j + 900. */
  lemma PromoteFirst(fs: Fs, ino: int, j: int, t: Res<i32>)
    requires Tidy(fs, ino) && InodeAt(fs, ino).indirect != NoBlock
    requires fs.blocks[InodeAt(fs, ino).indirect].tag == TagSingle && j >= 1000
    requires t == AllocDataBlock(fs) && t.Ok? && InRange(fs, t.v)
    ensures var fs3 := Promoted(fs, ino, t);
            && WellFormed(fs3) && Owned(fs3, t.v) && EntriesOwned(fs3, WordsAt(fs3, t.v), t.v)
            && Extended(fs, fs3, ino) && Others(fs, fs3, ino, j + 900)
            && InodeAt(fs3, ino) == InodeAt(fs, ino).(indirect := t.v)
            && fs3.blocks[t.v].tag == TagDouble
            && TwoLevel(fs3, t.v, j) == Fault && BlockOf(fs, ino, j + 900) == Fault
  {
    var d := InodeAt(fs, ino).indirect;
    AllocGrows(fs);
    GrewExtends(fs, t.fs, ino);
    OwnedKept(fs, t.fs, d);
    assert t.fs.blocks[d] == fs.blocks[d];
    PromoteSpec(t.fs, ino, t.v);
    var fs3 := Promoted(fs, ino, t);
    ExtendedTrans(fs, t.fs, fs3, ino);
    PromoteOthers(fs, fs3, ino, t.v, j + 900);
    FreshTableUnread(fs3, t.v, d, j);
    SinglePastEnd(fs, ino, j);
  }

  /** A fresh double table whose only entry is entry 0 reads nothing past index 999. */
  lemma FreshTableUnread(fs: Fs, a: int, d: i32, j: int)
    requires InRange(fs, a) && WordsAt(fs, a) == Unlinked()[0 := d] && j >= 1000
    ensures TwoLevel(fs, a, j) == Fault
  {
    if j < 1000000 {
      assert WordsAt(fs, a)[j / 1000] == NoBlock;
    }
  }

  /** A single-indirect table holds logical blocks 900 to 1899 only. */
  lemma SinglePastEnd(fs: Fs, ino: int, j: int)
    requires InRange(fs, ino) && InRange(fs, InodeAt(fs, ino).indirect)
    requires fs.blocks[InodeAt(fs, ino).indirect].tag == TagSingle && j >= 1000
    ensures BlockOf(fs, ino, j + 900) == Fault
  {
  }

  /** `rec1` when the single-indirect table is full: the table is promoted and the result
      is read back through the double-indirect table; blocks 900..1899 still read through
      the old table, now entry 0, and the block returned was free. */
  lemma PromotedSpec(fs: Fs, ino: int, j: int)
    requires Tidy(fs, ino) && InodeAt(fs, ino).indirect != NoBlock
    requires fs.blocks[InodeAt(fs, ino).indirect].tag == TagSingle && j >= 1000
    ensures var r := Linked(fs, ino, j);
            r.Ok? ==> InodeAt(r.fs, ino).direct == InodeAt(fs, ino).direct && GrewAt(fs, r.fs, ino, j + 900, r.v)
  {
    var t := AllocDataBlock(fs);
    AllocGrows(fs);
    if t.v != NoBlock {
      GrewExtends(fs, t.fs, ino);
      PromoteGrew(fs, ino, j, t);
      PromoteStep(fs, ino, j, t);
    }
  }

  /** Entry j of the single-indirect table filled with t.v, as growth performs it. */
  lemma SingleGrew(fs: Fs, ino: int, j: int, t: Res<i32>)
    requires Tidy(fs, ino) && InodeAt(fs, ino).indirect != NoBlock
    requires fs.blocks[InodeAt(fs, ino).indirect].tag == TagSingle && 0 <= j < 1000
    requires WordsAt(fs, InodeAt(fs, ino).indirect)[j] == NoBlock
    requires t == AllocDataBlock(fs) && t.Ok?
    ensures var fs1 := SetEntry(t.fs, InodeAt(fs, ino).indirect, j, t.v);
            && WordsAt(fs1, InodeAt(fs, ino).indirect)[j] == t.v
            && InodeAt(fs1, ino).direct == InodeAt(fs, ino).direct && GrewAt(fs, fs1, ino, j + 900, t.v)
  {
    var d := InodeAt(fs, ino).indirect;
    SingleResolves(fs, ino, j);
    AllocGrows(fs);
    assert t.fs.blocks[d] == fs.blocks[d];
    SetEntrySpec(t.fs, d, j, t.v);
    var fs1 := SetEntry(t.fs, d, j, t.v);
    GrewTrans(fs, t.fs, fs1);
    GrewExtends(fs, fs1, ino);
    SingleResolves(fs1, ino, j);
    OwnedKept(fs, fs1, d);
    SingleOthers(fs, fs1, ino, j);
  }

  /** `rec1` in single-indirect mode below 1000: entry j is filled only when it holds -1. */
  lemma LinkedSingle(fs: Fs, ino: int, j: int)
    requires Tidy(fs, ino) && InodeAt(fs, ino).indirect != NoBlock
    requires fs.blocks[InodeAt(fs, ino).indirect].tag == TagSingle && 0 <= j < 1000
    ensures var r := Linked(fs, ino, j);
            r.Ok? ==> InodeAt(r.fs, ino).direct == InodeAt(fs, ino).direct && GrewAt(fs, r.fs, ino, j + 900, r.v)
  {
    var d := InodeAt(fs, ino).indirect;
    if WordsAt(fs, d)[j] == NoBlock {
      var t := AllocDataBlock(fs);
      AllocGrows(fs);
      SingleGrew(fs, ino, j, t);
      assert Linked(fs, ino, j) == Ok(SetEntry(t.fs, d, j, t.v), WordsAt(SetEntry(t.fs, d, j, t.v), d)[j]);
    } else {
      SingleResolves(fs, ino, j);
      GrewExtends(fs, fs, ino);
      assert Linked(fs, ino, j) == Ok(fs, WordsAt(fs, d)[j]);
    }
  }

  /** `rec1` under a double-indirect table. */
  lemma LinkedDouble(fs: Fs, ino: int, j: int)
    requires Tidy(fs, ino) && InodeAt(fs, ino).indirect != NoBlock
    requires fs.blocks[InodeAt(fs, ino).indirect].tag != TagSingle
    ensures var r := Linked(fs, ino, j);
            r.Ok? ==> 0 <= j && InodeAt(r.fs, ino).direct == InodeAt(fs, ino).direct && GrewAt(fs, r.fs, ino, j + 900, r.v)
  {
    var d := InodeAt(fs, ino).indirect;
    DoublySpec(fs, d, j);
    var r := Doubly(fs, d, j);
    assert Linked(fs, ino, j) == r;
    if r.Ok? {
      GrewExtends(fs, r.fs, ino);
      OwnedKept(fs, r.fs, d);
      DoubleBlockOf(fs, ino, j);
      DoubleBlockOf(r.fs, ino, j);
      DoubleOthers(fs, r.fs, ino, j);
    }
  }

  /** `rec1`: from an inode with an indirect pointer, the step returns logical block
      j + 900 as `Resolve` reads it in the container it leaves, changes only the inode's
      indirect pointer, keeps every other block of the file and the addressing tidy, and
      hands out the block already recorded at j + 900 or a free one. */
  lemma LinkedSpec(fs: Fs, ino: int, j: int)
    requires Tidy(fs, ino) && InodeAt(fs, ino).indirect != NoBlock
    ensures var r := Linked(fs, ino, j);
            r.Ok? ==> 0 <= j && InodeAt(r.fs, ino).direct == InodeAt(fs, ino).direct && GrewAt(fs, r.fs, ino, j + 900, r.v)
  {
    var d := InodeAt(fs, ino).indirect;
    if fs.blocks[d].tag != TagSingle {
      LinkedDouble(fs, ino, j);
    } else if j >= 1000 {
      PromotedSpec(fs, ino, j);
    } else if 0 <= j {
      LinkedSingle(fs, ino, j);
    }
  }

  // ---------------------------------------------------------------------------
  // get_last_data_block_null

  /** Block 900 of a direct-mode file: block a becomes an empty single-indirect table and
      the inode is linked to it; the direct array and every block it names stay. */
  lemma AttachSpec(fs: Fs, ino: int, a: i32, k: int)
    requires WellFormed(fs) && InRange(fs, ino) && Geom(fs).InodeStart() <= ino < Geom(fs).DataStart()
    requires InodeAt(fs, ino).indirect == NoBlock && Owned(fs, a)
    ensures var fs1 := SetInode(fs, ino, InodeAt(fs, ino).(indirect := a));
            var fs3 := Rehash(FreshAddressBlock(fs1, a, Unlinked(), TagSingle), ino);
            && Extended(fs, fs3, ino) && InodeAt(fs3, ino) == InodeAt(fs, ino).(indirect := a)
            && Tidy(fs3, ino) && fs3.blocks[a].tag == TagSingle && WordsAt(fs3, a) == Unlinked()
            && Others(fs, fs3, ino, k)
  {
    RelinkSpec(fs, ino, InodeAt(fs, ino).(indirect := a), a, Unlinked(), TagSingle);
    var fs3 := Rehash(FreshAddressBlock(SetInode(fs, ino, InodeAt(fs, ino).(indirect := a)), a, Unlinked(), TagSingle), ino);
    DirectOthers(fs, fs3, ino, k);
  }

  /** A direct slot k < 900 set to the block a and the inode rehashed. */
  lemma DirectSlotSpec(fs: Fs, ino: int, k: int, a: int)
    requires WellFormed(fs) && InRange(fs, ino) && Geom(fs).InodeStart() <= ino < Geom(fs).DataStart()
    requires InodeAt(fs, ino).indirect == NoBlock && 0 <= k < 900 && IsI32(a)
    ensures var n := InodeAt(fs, ino);
            var fs1 := Rehash(SetInode(fs, ino, n.(direct := n.direct[k := a])), ino);
            && Extended(fs, fs1, ino) && Tidy(fs1, ino) && Resolve(fs1, ino, k) == Ok(fs1, a)
            && Others(fs, fs1, ino, k)
  {
    var n := InodeAt(fs, ino);
    var fs0 := SetInode(fs, ino, n.(direct := n.direct[k := a]));
    WriteKeeps(fs, fs0, ino);
    var fs1 := Rehash(fs0, ino);
    WriteKeeps(fs0, fs1, ino);
    KeptTrans(fs, fs0, fs1);
    assert InodeAt(fs1, ino) == n.(direct := n.direct[k := a]);
    DirectOthers(fs, fs1, ino, k);
  }

  /** In direct mode below block 900, growth is the allocation and the write of the slot. */
  lemma DirectGrowthStep(fs: Fs, ino: int, t: Res<i32>)
    requires InRange(fs, ino) && InodeAt(fs, ino).indirect == NoBlock
    requires InodeAt(fs, ino).size / 4000 < 900
    requires t == AllocDataBlock(fs) && t.Ok? && InodeAt(t.fs, ino) == InodeAt(fs, ino)
    ensures var n := InodeAt(fs, ino);
      GetLastDataBlockNull(fs, ino) == Ok(Rehash(SetInode(t.fs, ino, n.(direct := n.direct[n.size / 4000 := t.v])), ino), t.v)
  {
  }

  /** The allocation and the write of direct slot k, as growth performs them. */
  lemma DirectGrew(fs: Fs, ino: int, k: int, t: Res<i32>)
    requires Tidy(fs, ino) && InodeAt(fs, ino).indirect == NoBlock && 0 <= k < 900
    requires t == AllocDataBlock(fs)
    ensures t.Ok? && InodeAt(t.fs, ino) == InodeAt(fs, ino)
    ensures var n := InodeAt(fs, ino);
      GrewAt(fs, Rehash(SetInode(t.fs, ino, n.(direct := n.direct[k := t.v])), ino), ino, k, t.v)
  {
    var n := InodeAt(fs, ino);
    AllocGrows(fs);
    GrewExtends(fs, t.fs, ino);
    AllocKeepsBlocks(fs, ino, k);
    DirectSlotSpec(t.fs, ino, k, t.v);
    var fs1 := Rehash(SetInode(t.fs, ino, n.(direct := n.direct[k := t.v])), ino);
    ExtendedTrans(fs, t.fs, fs1, ino);
    OthersTrans(fs, t.fs, fs1, ino, k);
  }

  /** Growth of a direct-mode file below block 900: a newly allocated block goes into
      slot k, whatever the slot held. */
  lemma GrowDirect(fs: Fs, ino: int)
    requires Tidy(fs, ino) && InodeAt(fs, ino).indirect == NoBlock && InodeAt(fs, ino).size / 4000 < 900
    ensures var r := GetLastDataBlockNull(fs, ino);
            r.Ok? && GrewAt(fs, r.fs, ino, InodeAt(fs, ino).size / 4000, r.v)
  {
    var t := AllocDataBlock(fs);
    DirectGrew(fs, ino, InodeAt(fs, ino).size / 4000, t);
    DirectGrowthStep(fs, ino, t);
  }

  /** The empty single-indirect table t.v attached to the inode. */
  function Attached(fs: Fs, ino: int, t: Res<i32>): Fs
    requires InRange(fs, ino) && t.Ok? && |t.fs.blocks| == |fs.blocks| && InRange(fs, t.v)
  {
    Rehash(FreshAddressBlock(SetInode(t.fs, ino, InodeAt(t.fs, ino).(indirect := t.v)), t.v, Unlinked(), TagSingle), ino)
  }

  /** Growth of a direct-mode file past block 900 is the allocation of t, the attachment,
      then `rec1`. */
  lemma AttachStep(fs: Fs, ino: int, t: Res<i32>)
    requires InRange(fs, ino) && InodeAt(fs, ino).indirect == NoBlock
    requires 900 <= InodeAt(fs, ino).size / 4000 != MaxBlocks
    requires t == AllocDataBlock(fs) && t.Ok? && InRange(fs, t.v)
    ensures GetLastDataBlockNull(fs, ino) == Linked(Attached(fs, ino, t), ino, InodeAt(fs, ino).size / 4000 - 900)
  {
  }

  /** The attachment and `rec1` as growth performs them. */
  lemma AttachGrew(fs: Fs, ino: int, t: Res<i32>)
    requires Tidy(fs, ino) && InodeAt(fs, ino).indirect == NoBlock
    requires 900 <= InodeAt(fs, ino).size / 4000 != MaxBlocks
    requires t == AllocDataBlock(fs) && t.Ok? && InRange(fs, t.v)
    ensures var r := Linked(Attached(fs, ino, t), ino, InodeAt(fs, ino).size / 4000 - 900);
            r.Ok? ==> GrewAt(fs, r.fs, ino, InodeAt(fs, ino).size / 4000, r.v)
  {
    var k := InodeAt(fs, ino).size / 4000;
    AllocGrows(fs);
    GrewExtends(fs, t.fs, ino);
    AttachSpec(t.fs, ino, t.v, k);
    AllocKeepsBlocks(fs, ino, k);
    var fs3 := Attached(fs, ino, t);
    ExtendedTrans(fs, t.fs, fs3, ino);
    OthersTrans(fs, t.fs, fs3, ino, k);
    LinkedSpec(fs3, ino, k - 900);
    var r := Linked(fs3, ino, k - 900);
    if r.Ok? {
      ExtendedTrans(fs, fs3, r.fs, ino);
      OthersTrans(fs, fs3, r.fs, ino, k);
      assert BlockOf(fs3, ino, k).Ok? ==> BlockOf(fs3, ino, k).v == NoBlock;
      assert BlockOf(fs, ino, k) == Fault;
    }
  }

  /** Growth of a direct-mode file past block 900: an empty single-indirect table is
      attached first, then `rec1` runs. */
  lemma GrowAttach(fs: Fs, ino: int)
    requires Tidy(fs, ino) && InodeAt(fs, ino).indirect == NoBlock
    requires 900 <= InodeAt(fs, ino).size / 4000 != MaxBlocks
    ensures var r := GetLastDataBlockNull(fs, ino);
            r.Ok? ==> GrewAt(fs, r.fs, ino, InodeAt(fs, ino).size / 4000, r.v)
  {
    var t := AllocDataBlock(fs);
    AllocGrows(fs);
    if t.v != NoBlock {
      AttachGrew(fs, ino, t);
      AttachStep(fs, ino, t);
    }
  }

  /** `get_last_data_block_null` against the reference addressing: at the block limit it
      answers -2 and changes nothing; otherwise, when it succeeds, logical block
      `size / 4000` of the grown file resolves to exactly the block it returned, every
      other block of the file reads as before, that block was free (or, past the direct
      blocks, was already recorded there), no used block was released, no other inode
      and none of this inode's other fields changed, and the addressing is still tidy. */
  lemma GrowThenResolve(fs: Fs, ino: int)
    requires Tidy(fs, ino)
    ensures var r := GetLastDataBlockNull(fs, ino);
            var k := InodeAt(fs, ino).size / 4000;
            && (k == MaxBlocks ==> r == Ok(fs, -2))
            && (r.Ok? && k != MaxBlocks ==> GrewAt(fs, r.fs, ino, k, r.v))
  {
    var n := InodeAt(fs, ino);
    var k := n.size / 4000;
    if k == MaxBlocks {
    } else if n.indirect != NoBlock {
      LinkedSpec(fs, ino, k - 900);
      assert GetLastDataBlockNull(fs, ino) == Linked(fs, ino, k - 900);
    } else if k >= 900 {
      GrowAttach(fs, ino);
    } else {
      GrowDirect(fs, ino);
    }
  }

  // ---------------------------------------------------------------------------
  // The append round trip

  /** Resolution reads the inode's pointers and the tables they name: a container that
      agrees on those gives the same answer. */
  lemma ResolveFrame(fs: Fs, fs': Fs, ino: int, k: int)
    requires InRange(fs, ino) && |fs'.blocks| == |fs.blocks| && Resolve(fs, ino, k).Ok?
    requires InodeAt(fs', ino).direct == InodeAt(fs, ino).direct
    requires InodeAt(fs', ino).indirect == InodeAt(fs, ino).indirect
    requires forall c :: 0 <= c < |fs.blocks| && c != ino ==> fs'.blocks[c] == fs.blocks[c]
    requires var d := InodeAt(fs, ino).indirect;
      d == NoBlock || (d != ino && (fs.blocks[d].tag != TagSingle ==>
        forall j :: 0 <= j < 1000 ==> WordsAt(fs, d)[j] != ino))
    ensures Resolve(fs', ino, k) == Ok(fs', Resolve(fs, ino, k).v)
  {
    var d := InodeAt(fs, ino).indirect;
    if d != NoBlock {
      assert fs'.blocks[d] == fs.blocks[d];
      if fs.blocks[d].tag != TagSingle && 900 <= k < MaxBlocks {
        var e := WordsAt(fs, d)[(k - 900) / 1000];
        if InRange(fs, e) {
          assert fs'.blocks[e] == fs.blocks[e];
        }
      }
    }
  }

  /** Changing only the size of a tidy inode does not change where its blocks resolve. */
  lemma ResolveIgnoresSize(fs: Fs, ino: int, k: int, s: u32)
    requires Tidy(fs, ino) && Resolve(fs, ino, k).Ok?
    ensures var fs' := SetInode(fs, ino, InodeAt(fs, ino).(size := s));
            Resolve(fs', ino, k) == Ok(fs', Resolve(fs, ino, k).v)
  {
    var n := InodeAt(fs, ino);
    var fs' := SetInode(fs, ino, n.(size := s));
    assert InodeAt(fs', ino) == n.(size := s);
    var d := n.indirect;
    if d != NoBlock && fs.blocks[d].tag != TagSingle {
      forall j | 0 <= j < 1000
        ensures WordsAt(fs, d)[j] != ino
      {
        assert WordsAt(fs, d)[j] == NoBlock || Owned(fs, WordsAt(fs, d)[j]);
      }
    }
    ResolveFrame(fs, fs', ino, k);
  }

  /** Once logical block `size / 4000` of a tidy inode resolves to v, recording n more
      bytes (no more than the room left in that block) makes `get_last_data_block` find v. */
  lemma ReadBackAfterGrowth(fs: Fs, ino: int, size: int, n: int, v: int)
    requires Tidy(fs, ino) && InodeAt(fs, ino).size == size
    requires 0 < n <= 4000 - size % 4000 && IsU32(size + n)
    requires Resolve(fs, ino, size / 4000) == Ok(fs, v)
    ensures var fs' := SetInode(fs, ino, InodeAt(fs, ino).(size := size + n));
            GetLastDataBlock(fs', ino) == Ok(fs', v)
  {
    ResolveIgnoresSize(fs, ino, size / 4000, size + n);
    var fs' := SetInode(fs, ino, InodeAt(fs, ino).(size := size + n));
    assert InodeAt(fs', ino).size == size + n;
    LastBlockIsResolve(fs', ino);
    AppendedLastIndex(size, n);
  }

  /** Growing a tidy file by one block and then recording n more bytes in its size (n no
      more than the room left in that block): `get_last_data_block` then finds exactly
      the block `get_last_data_block_null` handed out. */
  lemma GrowThenReadBack(fs: Fs, ino: int, n: int)
    requires Tidy(fs, ino)
    requires 0 < n <= 4000 - InodeAt(fs, ino).size % 4000 && IsU32(InodeAt(fs, ino).size + n)
    requires InodeAt(fs, ino).size / 4000 != MaxBlocks
    ensures var r := GetLastDataBlockNull(fs, ino);
            r.Ok? ==> var fs' := SetInode(r.fs, ino, InodeAt(r.fs, ino).(size := InodeAt(fs, ino).size + n));
                      GetLastDataBlock(fs', ino) == Ok(fs', r.v)
  {
    GrowThenResolve(fs, ino);
    GrewThenReadBack(fs, ino, n, GetLastDataBlockNull(fs, ino));
  }

  lemma GrewThenReadBack(fs: Fs, ino: int, n: int, r: Res<int>)
    requires Tidy(fs, ino)
    requires 0 < n <= 4000 - InodeAt(fs, ino).size % 4000 && IsU32(InodeAt(fs, ino).size + n)
    requires r.Ok? ==> GrewAt(fs, r.fs, ino, InodeAt(fs, ino).size / 4000, r.v)
    ensures r.Ok? ==> var fs' := SetInode(r.fs, ino, InodeAt(r.fs, ino).(size := InodeAt(fs, ino).size + n));
                      GetLastDataBlock(fs', ino) == Ok(fs', r.v)
  {
    if r.Ok? {
      ReadBackAfterGrowth(r.fs, ino, InodeAt(fs, ino).size, n, r.v);
    }
  }

  // ---------------------------------------------------------------------------
  // Unchecked cases of get_last_data_block_null

  /** No data block is free. */
  predicate Full(fs: Fs) {
    forall c :: Geom(fs).DataStart() <= c < Geom(fs).nbb ==> !FreeAt(fs, c)
  }

  lemma FullAllocatesNothing(fs: Fs)
    requires WellFormed(fs) && Full(fs)
    ensures AllocDataBlock(fs) == Ok(fs, NoBlock)
  {
    AllocDataBlockSpec(fs);
  }

  /** In direct mode the slot `size / 4000` is written without looking at it: a used block
      already recorded there is replaced, and stays marked used with nothing pointing to
      it from that slot. */
  lemma DirectSlotOverwritten(fs: Fs, ino: int)
    requires Tidy(fs, ino) && InodeAt(fs, ino).indirect == NoBlock
    requires InodeAt(fs, ino).size / 4000 < 900
    requires Owned(fs, InodeAt(fs, ino).direct[InodeAt(fs, ino).size / 4000])
    ensures var r := GetLastDataBlockNull(fs, ino);
            var k := InodeAt(fs, ino).size / 4000;
            r.Ok? && InRange(r.fs, ino) && InodeAt(r.fs, ino).direct[k] == r.v
              && r.v != InodeAt(fs, ino).direct[k] && !FreeAt(r.fs, InodeAt(fs, ino).direct[k])
  {
    var n := InodeAt(fs, ino);
    var k := n.size / 4000;
    var b := n.direct[k];
    AllocGrows(fs);
    var t := AllocDataBlock(fs);
    DirectSlotSpec(t.fs, ino, k, t.v);
    GrowThenResolve(fs, ino);
    var r := GetLastDataBlockNull(fs, ino);
    assert r == Ok(Rehash(SetInode(t.fs, ino, n.(direct := n.direct[k := t.v])), ino), t.v);
    assert !FreeAt(t.fs, b);
  }

  /** With no free data block, a direct-mode growth does not fail: it records -1 in the
      slot and returns -1. */
  lemma FullDirectReturnsNoBlock(fs: Fs, ino: int)
    requires Tidy(fs, ino) && Full(fs) && InodeAt(fs, ino).indirect == NoBlock
    requires InodeAt(fs, ino).size / 4000 < 900
    ensures var r := GetLastDataBlockNull(fs, ino);
            r.Ok? && r.v == NoBlock && InRange(r.fs, ino)
              && InodeAt(r.fs, ino).direct[InodeAt(fs, ino).size / 4000] == NoBlock
  {
    FullAllocatesNothing(fs);
  }

  /** With no free data block, growth that needs a new address table dereferences block
      -1. */
  lemma FullAttachFaults(fs: Fs, ino: int)
    requires Tidy(fs, ino) && Full(fs) && InodeAt(fs, ino).indirect == NoBlock
    requires 900 <= InodeAt(fs, ino).size / 4000 < MaxBlocks
    ensures GetLastDataBlockNull(fs, ino) == Fault
  {
    FullAllocatesNothing(fs);
  }
}
