/** The address resolvers of src/utilitaires.c: how a file's logical block k is found
    (`get_last_data_block`) and how the file grows by one block
    (`get_last_data_block_null`).

    An inode is in one of three addressing modes, decided by its indirect pointer and the
    tag of the block that pointer names:
      Direct     the pointer is -1; logical blocks 0..899 sit in `direct_blocks`;
      Single(d)  block d is tagged 6; logical block 900 + j is entry j of d (j < 1000);
      Double(d)  block d has any other tag; logical block 900 + j is entry j % 1000 of the
                 single-indirect block named by entry j / 1000 of d (j < 1000 * 1000).
    The growth function moves an inode from Direct to Single when block 900 is first
    needed and from Single to Double when block 1900 is, re-reading every block it
    touches after each write, as the code does through its pointers.
 */
module Resolver {
  import opened Codec
  import opened Blocks
  import opened Container
  import opened Allocator

  /** One past the last logical block a file can have: 900 direct blocks and 1000 * 1000
      behind a double-indirect block, whose entry 0 is the former single-indirect block. */
  const MaxBlocks: int := 1000900

  /** An address block just cleared with `memset(..., -1, ...)`. */
  function Unlinked(): (w: Addresses)
    ensures forall i :: 0 <= i < 1000 ==> w[i] == NoBlock
  {
    seq(1000, _ => NoBlock)
  }

  datatype Mode = Direct | Single(d: int) | Double(d: int)

  /** The addressing mode of inode n. */
  function ModeOf(fs: Fs, n: Inode): (r: Res<Mode>)
    ensures r.Ok? <==> n.indirect == -1 || InRange(fs, n.indirect)
    ensures r.Ok? ==> r.fs == fs && (r.v.Direct? <==> n.indirect == -1)
    ensures r.Ok? && !r.v.Direct? ==>
              r.v.d == n.indirect && InRange(fs, r.v.d) && (r.v.Single? <==> fs.blocks[r.v.d].tag == TagSingle)
  {
    if n.indirect == -1 then Ok(fs, Direct)
    else if !InRange(fs, n.indirect) then Fault
    else if fs.blocks[n.indirect].tag == TagSingle then Ok(fs, Single(n.indirect))
    else Ok(fs, Double(n.indirect))
  }

  /** The block that holds logical block k of inode ino, found by following the three
      addressing modes; Fault when k lies outside the current mode's range or a pointer
      on the way leaves the container. */
  function Resolve(fs: Fs, ino: int, k: int): (r: Res<int>)
  {
    if !InRange(fs, ino) then Fault
    else
      var n := InodeAt(fs, ino);
      match ModeOf(fs, n)
      case Ok(_, Direct) => if 0 <= k < 900 then Ok(fs, n.direct[k]) else Fault
      case Ok(_, Single(d)) =>
        if 900 <= k < 1900 then Ok(fs, WordsAt(fs, d)[k - 900]) else Fault
      case Ok(_, Double(d)) =>
        if !(900 <= k < MaxBlocks) then Fault
        else
          var e := WordsAt(fs, d)[(k - 900) / 1000];
          if InRange(fs, e) then Ok(fs, WordsAt(fs, e)[(k - 900) % 1000]) else Fault
      case _ => Fault
  }

  /** The logical index `get_last_data_block` computes: `(size - 1) / 4000` in uint32
      arithmetic, so an empty file yields (2^32 - 1) / 4000. */
  function LastIndex(size: u32): (k: int)
    ensures size > 0 ==> k == (size - 1) / 4000
    ensures size == 0 ==> k == 1073741
  {
    var w := Wrap32(size - 1);
    assert IsU32(size);
    assert size == 0 ==> w == TWO32 - 1;
    assert size > 0 ==> IsU32(size - 1) && w == size - 1;
    w / 4000
  }

  /** `get_last_data_block`: the block holding the file's last byte, read without
      allocating; indices are computed with C's truncating division. */
  function GetLastDataBlock(fs: Fs, ino: int): (r: Res<int>)
    ensures r.Ok? ==> r.fs == fs
  {
    if !InRange(fs, ino) then Fault
    else
      var n := InodeAt(fs, ino);
      var last := LastIndex(n.size);
      if n.indirect == -1 then
        if last < 900 then Ok(fs, n.direct[last]) else Fault
      else
        var j := last - 900;
        var d := n.indirect;
        if !InRange(fs, d) then Fault
        else if fs.blocks[d].tag == TagSingle then
          if 0 <= j < 1000 then Ok(fs, WordsAt(fs, d)[j]) else Fault
        else
          var outer := CDiv(j, 1000);
          var inner := CMod(j, 1000);
          if !(0 <= outer < 1000) then Fault
          else
            var e := WordsAt(fs, d)[outer];
            if !InRange(fs, e) || !(0 <= inner < 1000) then Fault
            else Ok(fs, WordsAt(fs, e)[inner])
  }

  /** Block a turned into an address block holding `w`, hashed and tagged t. */
  function FreshAddressBlock(fs: Fs, a: int, w: Addresses, t: u32): (r: Fs)
    requires InRange(fs, a)
    ensures |r.blocks| == |fs.blocks|
  {
    Put(fs, a, Block(WordsP(w), Hash(WordsP(w)), t))
  }

  /** `tbl->addresses[i] = a` followed by the rehash of table d. */
  function SetEntry(fs: Fs, d: int, i: int, a: int): (r: Fs)
    requires InRange(fs, d) && 0 <= i < 1000 && IsI32(a)
    ensures |r.blocks| == |fs.blocks|
  {
    Rehash(SetWords(fs, d, WordsAt(fs, d)[i := a]), d)
  }

  /** `get_last_data_block_null`: the block that will hold logical block `size / 4000`
      of inode ino, allocating it (and any address block on the way) when the slot is
      empty; -2 when the file already has MaxBlocks blocks. */
  function GetLastDataBlockNull(fs: Fs, ino: int): (r: Res<int>)
    ensures r.Ok? ==> |r.fs.blocks| == |fs.blocks|
  {
    if !InRange(fs, ino) then Fault
    else
      var k := InodeAt(fs, ino).size / 4000;
      if k == MaxBlocks then Ok(fs, -2)
      else if InodeAt(fs, ino).indirect != -1 then Linked(fs, ino, k - 900)
      else if k >= 900 then
        var t := AllocDataBlock(fs);
        if !t.Ok? then Fault
        else
          var fs1 := SetInode(t.fs, ino, InodeAt(t.fs, ino).(indirect := t.v));
          if !InRange(fs1, t.v) then Fault
          else Linked(Rehash(FreshAddressBlock(fs1, t.v, Unlinked(), TagSingle), ino), ino, k - 900)
      else
        var t := AllocDataBlock(fs);
        if !t.Ok? then Fault
        else
          var n := InodeAt(t.fs, ino);
          Ok(Rehash(SetInode(t.fs, ino, n.(direct := n.direct[k := t.v])), ino), t.v)
  }

  /** The part of `get_last_data_block_null` after label rec1: the inode has an address
      block; j is the index past the direct slots. */
  function Linked(fs: Fs, ino: int, j: int): (r: Res<int>)
    requires InRange(fs, ino)
    ensures r.Ok? ==> |r.fs.blocks| == |fs.blocks|
  {
    var d := InodeAt(fs, ino).indirect;
    if !InRange(fs, d) then Fault
    else if fs.blocks[d].tag != TagSingle then Doubly(fs, d, j)
    else if j >= 1000 then
      var t := AllocDataBlock(fs);
      if !t.Ok? then Fault
      else
        var fs1 := SetInode(t.fs, ino, InodeAt(t.fs, ino).(indirect := t.v));
        if !InRange(fs1, t.v) then Fault
        else Doubly(Rehash(FreshAddressBlock(fs1, t.v, Unlinked()[0 := d], TagDouble), ino), t.v, j)
    else if j < 0 then Fault
    else if WordsAt(fs, d)[j] != -1 then Ok(fs, WordsAt(fs, d)[j])
    else
      var t := AllocDataBlock(fs);
      if !t.Ok? then Fault
      else
        var fs1 := SetEntry(t.fs, d, j, t.v);
        Ok(fs1, WordsAt(fs1, d)[j])
  }

  /** The part after label rec2: d is a double-indirect block. */
  function Doubly(fs: Fs, d: int, j: int): (r: Res<int>)
    requires InRange(fs, d)
    ensures r.Ok? ==> |r.fs.blocks| == |fs.blocks|
  {
    var outer := CDiv(j, 1000);
    var inner := CMod(j, 1000);
    if !(0 <= outer < 1000) then Fault
    else
      var s := OuterSlot(fs, d, outer);
      if !s.Ok? then Fault
      else
        var fs1 := s.fs;
        var e := WordsAt(fs1, d)[outer];
        if !InRange(fs1, e) || !(0 <= inner < 1000) then Fault
        else if WordsAt(fs1, e)[inner] != -1 then Ok(fs1, WordsAt(fs1, e)[inner])
        else
          var t := AllocDataBlock(fs1);
          if !t.Ok? then Fault
          else
            var fs2 := SetEntry(t.fs, e, inner, t.v);
            Ok(fs2, WordsAt(fs2, e)[inner])
  }

  /** Entry `outer` of double-indirect block d, given a fresh single-indirect block when
      it holds -1. */
  function OuterSlot(fs: Fs, d: int, outer: int): (r: Res<()>)
    requires InRange(fs, d) && 0 <= outer < 1000
    ensures r.Ok? ==> |r.fs.blocks| == |fs.blocks|
  {
    if WordsAt(fs, d)[outer] != -1 then Ok(fs, ())
    else
      var t := AllocDataBlock(fs);
      if !t.Ok? then Fault
      else
        var fs1 := SetWords(t.fs, d, WordsAt(t.fs, d)[outer := t.v]);
        if !InRange(fs1, t.v) then Fault
        else Ok(Rehash(FreshAddressBlock(fs1, t.v, Unlinked(), TagSingle), d), ())
  }

  /** `get_last_data_block` is the reference addressing applied to the index of the
      file's last byte: both fault, or both return the same block. */
  lemma LastBlockIsResolve(fs: Fs, ino: int)
    requires InRange(fs, ino)
    ensures GetLastDataBlock(fs, ino) == Resolve(fs, ino, LastIndex(InodeAt(fs, ino).size))
  {
    var n := InodeAt(fs, ino);
    var last := LastIndex(n.size);
    if n.indirect != -1 && InRange(fs, n.indirect) && fs.blocks[n.indirect].tag != TagSingle {
      var j := last - 900;
      if 0 <= CDiv(j, 1000) < 1000 && 0 <= CMod(j, 1000) < 1000 {
        CDivModNonNegative(j, 1000);
      } else if 0 <= j {
        CDivModNonNegative(j, 1000);
      }
    }
  }

  /** Appending n bytes that fit in the room left in block `size / 4000` makes that block
      the one holding the file's last byte. */
  lemma AppendedLastIndex(size: u32, n: int)
    requires 0 < n <= 4000 - size % 4000 && IsU32(size + n)
    ensures LastIndex(size + n) == size / 4000
  {
    assert IsU32(size);
    var q, r := size / 4000, size % 4000;
    assert size + n - 1 == 4000 * q + (r + n - 1);
    DivOfMultiplePlus(q, r + n - 1);
  }

  lemma DivOfMultiplePlus(q: int, m: int)
    requires 0 <= m < 4000
    ensures (4000 * q + m) / 4000 == q
  {
  }
}
