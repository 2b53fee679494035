/** Appending to a file: `cmd_add` (src/cmd_add.c), `cmd_addinput`
    (src/cmd_addinput.c) and `cmd_input` (src/cmd_input.c).

    All three first settle the target file. At the root it is the depth-0 file of that
    name, created when there is none. Below a parent path it is the file listed under the
    parent directory; a missing parent chain is created first, and a missing file is
    created with its parent's depth plus one and linked into the parent. `cmd_input`
    empties an existing file found below a directory (not one at the root); the other two
    never truncate.

    The bytes then go in chunk by chunk, from a running total that starts at the file
    size. A chunk either completes the last block of the file, copied in at byte
    `total % 4000`, or goes into the block `get_last_data_block_null` hands out, which is
    zeroed, filled and tagged 5. A -2 from that resolver (the file has its maximum number
    of blocks) ends the loop and keeps what was written. At the end the size, the
    modification time and the inode digest are written.

    Where the bytes come from is a parameter: standard input is the sequence of chunks its
    reads return (1 to 4000 bytes each); an external file is its contents, read as a
    regular file answers, as many bytes as asked while any remain.
 */
module Append {
  import opened Codec
  import opened Blocks
  import opened Container
  import opened Paths
  import opened Entries
  import opened Directories
  import opened DirTree
  import opened Lookup
  import opened Allocator
  import opened Resolver
  import opened Teardown
  import opened Reading
  import Growth
  import Mv

  // ---------------------------------------------------------------------------
  // Data areas

  /** Data area d with `memcpy(d + off, c, |c|)` applied. */
  function Spliced(d: Data, off: int, c: seq<byte>): (e: Data)
    requires 0 <= off && off + |c| <= 4000
    ensures e[..off] == d[..off] && e[off..off + |c|] == c && e[off + |c|..] == d[off + |c|..]
  {
    d[..off] + c + d[off + |c|..]
  }

  /** A data area after `memset(0)` and `memcpy(c)`. */
  function Padded(c: seq<byte>): (e: Data)
    requires |c| <= 4000
    ensures e[..|c|] == c && forall i :: |c| <= i < 4000 ==> e[i] == 0
  {
    c + seq(4000 - |c|, _ => 0 as byte)
  }

  /** The running total stored into the size word, without a rehash. */
  function SetSize(fs: Fs, ino: int, total: u32): (r: Fs)
    requires InRange(fs, ino)
    ensures |r.blocks| == |fs.blocks|
  {
    SetInode(fs, ino, InodeAt(fs, ino).(size := total))
  }

  // ---------------------------------------------------------------------------
  // One chunk

  /** The partial-block branch for chunk c: `get_last_data_block`, the copy at byte
      `total % 4000`, the data rehash and the new total in the size word. The copy is not
      bounded by the room left in the block: a chunk longer than that runs past the data
      area, which is a Fault here. */
  function FillLast(fs: Fs, ino: int, total: u32, c: seq<byte>): (r: Res<u32>)
    requires InRange(fs, ino)
    ensures r.Ok? ==> |r.fs.blocks| == |fs.blocks|
  {
    var off := total % 4000;
    var last := GetLastDataBlock(fs, ino);
    if !last.Ok? || !InRange(fs, last.v) || off + |c| > 4000 then Fault
    else
      var fs1 := Rehash(SetData(fs, last.v, Spliced(DataAt(fs, last.v), off, c)), last.v);
      var t := Wrap32(total + |c|);
      Ok(SetSize(fs1, ino, t), t)
  }

  /** What the fresh-block branch leads to: the loop goes on with a new total, or stops
      on the resolver's -2. */
  datatype Step = Stored(total: u32) | Stopped

  /** The fresh-block branch for chunk c: `get_last_data_block_null`, then the block
      zeroed, filled with c, rehashed and tagged 5, and the new total in the size word. */
  function NewBlock(fs: Fs, ino: int, total: u32, c: seq<byte>): (r: Res<Step>)
    requires InRange(fs, ino) && |c| <= 4000
    ensures r.Ok? ==> |r.fs.blocks| == |fs.blocks|
  {
    var g := GetLastDataBlockNull(fs, ino);
    if !g.Ok? then Fault
    else if g.v == -2 then Ok(g.fs, Stopped)
    else if !InRange(g.fs, g.v) then Fault
    else
      var fs1 := SetTag(Rehash(SetData(g.fs, g.v, Padded(c)), g.v), g.v, TagData);
      var t := Wrap32(total + |c|);
      Ok(SetSize(fs1, ino, t), Stored(t))
  }

  // ---------------------------------------------------------------------------
  // The read loops

  /** What successive reads of standard input return before the 0 that ends the loop. */
  predicate Reads(cs: seq<seq<byte>>) {
    forall i :: 0 <= i < |cs| ==> 0 < |cs[i]| <= 4000
  }

  /** The chunks one after the other. */
  function Flat(cs: seq<seq<byte>>): seq<byte> {
    if |cs| == 0 then [] else cs[0] + Flat(cs[1..])
  }

  /** The loop of `cmd_addinput` and `cmd_input`: each chunk completes the last block
      when the total is not a multiple of 4000 and takes a fresh block otherwise. The
      answer is the final running total. */
  function Pour(fs: Fs, ino: int, total: u32, cs: seq<seq<byte>>): (r: Res<u32>)
    requires InRange(fs, ino) && Reads(cs)
    ensures r.Ok? ==> |r.fs.blocks| == |fs.blocks|
    decreases |cs|
  {
    if |cs| == 0 then Ok(fs, total)
    else if total % 4000 > 0 then
      var f := FillLast(fs, ino, total, cs[0]);
      if !f.Ok? then Fault else Pour(f.fs, ino, f.v, cs[1..])
    else
      var f := NewBlock(fs, ino, total, cs[0]);
      if !f.Ok? then Fault
      else if f.v.Stopped? then Ok(f.fs, total)
      else Pour(f.fs, ino, f.v.total, cs[1..])
  }

  /** The loop of `cmd_addinput` and `cmd_input` with the copy into a partial last
      block bounded by the room left in it, as `cmd_add` bounds its first read: the bytes
      that do not fit go on into a fresh block. */
  function PourFixed(fs: Fs, ino: int, total: u32, cs: seq<seq<byte>>): (r: Res<u32>)
    requires InRange(fs, ino) && Reads(cs)
    ensures r.Ok? ==> |r.fs.blocks| == |fs.blocks|
    decreases |cs|
  {
    if |cs| == 0 then Ok(fs, total)
    else
      var c := cs[0];
      var m := Room(total, c);
      var f := TopUp(fs, ino, total, c);
      if !f.Ok? then Fault
      else if m == |c| then PourFixed(f.fs, ino, f.v, cs[1..])
      else
        var g := NewBlock(f.fs, ino, f.v, c[m..]);
        if !g.Ok? then Fault
        else if g.v.Stopped? then Ok(g.fs, f.v)
        else PourFixed(g.fs, ino, g.v.total, cs[1..])
  }

  /** How much of chunk c goes into the partial last block: none on a block boundary,
      otherwise as much as there is room for. */
  function Room(total: u32, c: seq<byte>): (m: nat)
    ensures m <= |c|
  {
    if total % 4000 > 0 then Min(|c|, 4000 - total % 4000) else 0
  }

  /** The bounded copy of the first Room(total, c) bytes of c into the last block. */
  function TopUp(fs: Fs, ino: int, total: u32, c: seq<byte>): (r: Res<u32>)
    requires InRange(fs, ino)
    ensures r.Ok? ==> |r.fs.blocks| == |fs.blocks|
  {
    var m := Room(total, c);
    if m > 0 then FillLast(fs, ino, total, c[..m]) else Ok(fs, total)
  }

  /** The loop of `cmd_add` over the rest of the external file: reads of 4000 bytes,
      each into a fresh block, whatever the running total. */
  function Copy(fs: Fs, ino: int, total: u32, rest: seq<byte>): (r: Res<u32>)
    requires InRange(fs, ino)
    ensures r.Ok? ==> |r.fs.blocks| == |fs.blocks|
    decreases |rest|
  {
    if |rest| == 0 then Ok(fs, total)
    else
      var m := Min(|rest|, 4000);
      var f := NewBlock(fs, ino, total, rest[..m]);
      if !f.Ok? then Fault
      else if f.v.Stopped? then Ok(f.fs, total)
      else Copy(f.fs, ino, f.v.total, rest[m..])
  }

  /** The last writes: the size, the modification time and the inode digest. */
  function Close(fs: Fs, ino: int, total: u32, now: u32): (r: Fs)
    requires InRange(fs, ino)
    ensures |r.blocks| == |fs.blocks|
  {
    Rehash(SetInode(fs, ino, InodeAt(fs, ino).(size := total, mtime := now)), ino)
  }

  /** The closing writes record the total as the size and now as the modification time,
      seal the inode and leave every other block as it was. */
  lemma CloseSpec(fs: Fs, ino: int, total: u32, now: u32)
    requires InRange(fs, ino)
    ensures var r := Close(fs, ino, total, now);
      && InodeAt(r, ino) == InodeAt(fs, ino).(size := total, mtime := now) && Sealed(r.blocks[ino])
      && forall c :: 0 <= c < |fs.blocks| && c != ino ==> r.blocks[c] == fs.blocks[c]
  {
    var fs1 := SetInode(fs, ino, InodeAt(fs, ino).(size := total, mtime := now));
    assert InodeAt(fs1, ino) == InodeAt(fs, ino).(size := total, mtime := now);
  }

  // ---------------------------------------------------------------------------
  // The target file

  /** `create_file(name)` below directory dir: the new inode gets dir's depth plus one
      (written without a rehash) and is linked into dir by `add_inode`. */
  function Adopt(fs: Fs, dir: int, name: CStr, now: u32): (r: Res<int>)
    requires InRange(fs, dir)
    ensures r.Ok? ==> InRange(r.fs, r.v) && |r.fs.blocks| == |fs.blocks|
  {
    var c := CreateFile(fs, name, now);
    if c.Exit? then Exit(c.fs)
    else if !c.Ok? || !InRange(c.fs, c.v) then Fault
    else
      var f1 := Mv.SetDepth(c.fs, c.v, Mv.NewDepth(c.fs, Mv.Under(dir)));
      var a := AddInode(f1, dir, WrapI32(c.v), now);
      if a.Exit? then Exit(a.fs) else if !a.Ok? then Fault else Ok(a.fs, c.v)
  }

  /** The target of the three commands for path: found, created, or created with its
      parent chain. With `empty` (cmd_input) an existing file below a directory is
      emptied by `dealloc_data_block`. */
  function Target(fs: Fs, path: CStr, now: u32, empty: bool): (r: Res<int>)
    ensures r.Ok? ==> InRange(r.fs, r.v) && |r.fs.blocks| == |fs.blocks|
  {
    if !ParentFits(path) then Fault
    else
      var s := SplitPath(path);
      if |s.parent| == 0 then
        var f := FindInodeRacine(fs, s.name, false, 0);
        if !f.Ok? then Fault
        else if f.v != -1 then Ok(fs, f.v)
        else
          var c := CreateFile(fs, s.name, now);
          if c.Exit? then Exit(c.fs) else if !c.Ok? || !InRange(c.fs, c.v) then Fault else c
      else
        var d := FindInodeFolder(fs, s.parent);
        if !d.Ok? then Fault
        else if d.v == -1 then
          var m := CreateDirectory(fs, s.parent, now);
          if m.Exit? then Exit(m.fs)
          else if !m.Ok? || !InRange(m.fs, m.v) then Fault
          else Adopt(m.fs, m.v, s.name, now)
        else
          var f := FindFileFolderFromInode(fs, InodeAt(fs, d.v).direct, s.name, false, 0);
          if !f.Ok? then Fault
          else if f.v == -1 then Adopt(fs, d.v, s.name, now)
          else if !empty then Ok(fs, f.v)
          else
            var t := DeallocDataBlock(fs, f.v, now);
            if t.Exit? then Exit(t.fs) else if !t.Ok? then Fault else Ok(t.fs, f.v)
  }

  // ---------------------------------------------------------------------------
  // The commands

  /** The read loop from the file's size and the closing writes; the answer is 0. */
  function Write(fs: Fs, ino: int, cs: seq<seq<byte>>, now: u32): (r: Res<int>)
    requires InRange(fs, ino) && Reads(cs)
  {
    var p := Pour(fs, ino, InodeAt(fs, ino).size, cs);
    if p.Ok? then Ok(Close(p.fs, ino, p.v, now), 0) else Fault
  }

  /** `cmd_addinput(path)` with standard input read as the chunks cs, at time now. */
  function CmdAddInput(fs: Fs, path: CStr, cs: seq<seq<byte>>, now: u32): (r: Res<int>)
    requires Reads(cs)
  {
    var t := Target(fs, path, now, false);
    if !t.Ok? then t else Write(t.fs, t.v, cs, now)
  }

  /** `cmd_input(path)` with standard input read as the chunks cs, at time now. */
  function CmdInput(fs: Fs, path: CStr, cs: seq<seq<byte>>, now: u32): (r: Res<int>)
    requires Reads(cs)
  {
    var t := Target(fs, path, now, true);
    if !t.Ok? then t else Write(t.fs, t.v, cs, now)
  }

  /** Write with the bounded copy. */
  function WriteFixed(fs: Fs, ino: int, cs: seq<seq<byte>>, now: u32): (r: Res<int>)
    requires InRange(fs, ino) && Reads(cs)
  {
    var p := PourFixed(fs, ino, InodeAt(fs, ino).size, cs);
    if p.Ok? then Ok(Close(p.fs, ino, p.v, now), 0) else Fault
  }

  /** `cmd_addinput` with the bounded copy. */
  function CmdAddInputFixed(fs: Fs, path: CStr, cs: seq<seq<byte>>, now: u32): (r: Res<int>)
    requires Reads(cs)
  {
    var t := Target(fs, path, now, false);
    if !t.Ok? then t else WriteFixed(t.fs, t.v, cs, now)
  }

  /** `cmd_input` with the bounded copy. */
  function CmdInputFixed(fs: Fs, path: CStr, cs: seq<seq<byte>>, now: u32): (r: Res<int>)
    requires Reads(cs)
  {
    var t := Target(fs, path, now, true);
    if !t.Ok? then t else WriteFixed(t.fs, t.v, cs, now)
  }

  /** The external file of `cmd_add`: one that cannot be opened, or its contents. */
  datatype Source = Unopened | Contents(bytes: seq<byte>)

  /** `cmd_add(ext, path)` at time now; an external file that cannot be opened gives 1
      before anything is written. When the file's
      last block is partial, the first read asks for the room left in it; a source with
      nothing to give then ends the command with 0 before the closing writes. */
  function CmdAdd(fs: Fs, ext: Source, path: CStr, now: u32): (r: Res<int>)
  {
    if ext.Unopened? then Ok(fs, 1)
    else
      var t := Target(fs, path, now, false);
      if !t.Ok? then t else Load(t.fs, t.v, ext.bytes, now)
  }

  /** The copy of `cmd_add` once the target is known: the partial last block is topped up
      with at most the room it has left, and the rest goes through the block loop. */
  function Load(fs: Fs, ino: int, bytes: seq<byte>, now: u32): (r: Res<int>)
    requires InRange(fs, ino)
  {
    var total := InodeAt(fs, ino).size;
    var off := total % 4000;
    if off > 0 then
      if !GetLastDataBlock(fs, ino).Ok? then Fault
      else
        var m := Min(|bytes|, 4000 - off);
        if m == 0 then Ok(fs, 0)
        else
          var f := FillLast(fs, ino, total, bytes[..m]);
          if !f.Ok? then Fault else Finish(f.fs, ino, f.v, bytes[m..], now)
    else Finish(fs, ino, total, bytes, now)
  }

  /** The loop of `cmd_add` and the closing writes; the answer is 0. */
  function Finish(fs: Fs, ino: int, total: u32, rest: seq<byte>, now: u32): (r: Res<int>)
    requires InRange(fs, ino)
  {
    var p := Copy(fs, ino, total, rest);
    if p.Ok? then Ok(Close(p.fs, ino, p.v, now), 0) else Fault
  }

  // ---------------------------------------------------------------------------
  // The running total never wraps

  /** `rec2` answers only for an index below 1000 * 1000. */
  lemma DoublyBound(fs: Fs, d: int, j: int)
    requires InRange(fs, d) && Doubly(fs, d, j).Ok?
    ensures j < 1000000
  {
  }

  /** `rec1` answers only for an index below 1000 * 1000. */
  lemma LinkedBound(fs: Fs, ino: int, j: int)
    requires InRange(fs, ino) && Resolver.Linked(fs, ino, j).Ok?
    ensures j < 1000000
  {
    var d := InodeAt(fs, ino).indirect;
    if fs.blocks[d].tag != TagSingle {
      DoublyBound(fs, d, j);
    } else if j >= 1000 {
      var t := AllocDataBlock(fs);
      var fs1 := SetInode(t.fs, ino, InodeAt(t.fs, ino).(indirect := t.v));
      DoublyBound(Rehash(FreshAddressBlock(fs1, t.v, Unlinked()[0 := d], TagDouble), ino), t.v, j);
    }
  }

  lemma LinkedPastBound(fs: Fs, ino: int, j: int)
    requires InRange(fs, ino) && j >= 1000000
    ensures !Resolver.Linked(fs, ino, j).Ok?
  {
    if Resolver.Linked(fs, ino, j).Ok? {
      LinkedBound(fs, ino, j);
    }
  }

  /** A block handed out by `get_last_data_block_null` is a logical block below the
      maximum, so adding a chunk to the size does not wrap. */
  lemma NullBound(fs: Fs, ino: int)
    requires InRange(fs, ino)
    requires GetLastDataBlockNull(fs, ino).Ok? && GetLastDataBlockNull(fs, ino).v != -2
    ensures InodeAt(fs, ino).size / 4000 < MaxBlocks
  {
    var k := InodeAt(fs, ino).size / 4000;
    if InodeAt(fs, ino).indirect != -1 {
      LinkedBound(fs, ino, k - 900);
    } else if k > MaxBlocks {
      AttachBound(fs, ino, k);
    }
  }

  /** The branch of `get_last_data_block_null` that attaches a single-indirect block
      fails past the maximum. */
  lemma AttachBound(fs: Fs, ino: int, k: int)
    requires InRange(fs, ino) && InodeAt(fs, ino).indirect == -1 && k == InodeAt(fs, ino).size / 4000
    requires k > MaxBlocks
    ensures !GetLastDataBlockNull(fs, ino).Ok?
  {
    var t := AllocDataBlock(fs);
    if t.Ok? && InRange(fs, t.v) {
      TableNoBlock(fs, ino, t);
    } else {
      NoTableNoBlock(fs, ino);
    }
  }

  /** With a block for the single-indirect table, `rec1` runs past its last entry. */
  lemma TableNoBlock(fs: Fs, ino: int, t: Res<i32>)
    requires InRange(fs, ino) && InodeAt(fs, ino).indirect == -1 && InodeAt(fs, ino).size / 4000 > MaxBlocks
    requires t == AllocDataBlock(fs) && t.Ok? && InRange(fs, t.v)
    ensures !GetLastDataBlockNull(fs, ino).Ok?
  {
    Growth.AttachStep(fs, ino, t);
    LinkedPastBound(Growth.Attached(fs, ino, t), ino, InodeAt(fs, ino).size / 4000 - 900);
  }

  /** Without a block for the single-indirect table there is no block past 900. */
  lemma NoTableNoBlock(fs: Fs, ino: int)
    requires InRange(fs, ino) && InodeAt(fs, ino).indirect == -1
    requires 900 <= InodeAt(fs, ino).size / 4000 != MaxBlocks
    requires var t := AllocDataBlock(fs); !(t.Ok? && InRange(fs, t.v))
    ensures !GetLastDataBlockNull(fs, ino).Ok?
  {
  }

  /** `get_last_data_block` answers only for a size whose last byte lies in a logical
      block below the maximum. */
  lemma LastBound(fs: Fs, ino: int)
    requires InRange(fs, ino) && GetLastDataBlock(fs, ino).Ok?
    ensures LastIndex(InodeAt(fs, ino).size) < MaxBlocks
  {
    LastBlockIsResolve(fs, ino);
  }

  // ---------------------------------------------------------------------------
  // Reading a chunk back

  /** Block b is neither inode ino nor one of its address blocks: not its indirect block
      and, when that block is read as double-indirect, none of the tables it lists. */
  predicate Apart(fs: Fs, ino: int, b: int)
    requires InRange(fs, ino)
  {
    var d := InodeAt(fs, ino).indirect;
    b != ino
      && (d == NoBlock
          || (d != b && (InRange(fs, d) && fs.blocks[d].tag != TagSingle ==>
                forall i :: 0 <= i < 1000 ==> WordsAt(fs, d)[i] != b)))
  }

  /** Resolution reads the inode's pointers and its address blocks: a container that
      changed only block b, apart from them, and the inode's other fields resolves every
      logical block the same way. */
  lemma ResolveSteady(fs: Fs, fs': Fs, ino: int, b: int, k: int)
    requires Growth.Tidy(fs, ino) && |fs'.blocks| == |fs.blocks| && Resolve(fs, ino, k).Ok?
    requires InodeAt(fs', ino).direct == InodeAt(fs, ino).direct
    requires InodeAt(fs', ino).indirect == InodeAt(fs, ino).indirect
    requires Apart(fs, ino, b)
    requires forall c :: 0 <= c < |fs.blocks| && c != ino && c != b ==> fs'.blocks[c] == fs.blocks[c]
    ensures Resolve(fs', ino, k) == Ok(fs', Resolve(fs, ino, k).v)
  {
    var d := InodeAt(fs, ino).indirect;
    if d != NoBlock {
      assert fs'.blocks[d] == fs.blocks[d];
      if fs.blocks[d].tag != TagSingle {
        var e := WordsAt(fs, d)[(k - 900) / 1000];
        assert e == NoBlock || Growth.Owned(fs, e);
        assert fs'.blocks[e] == fs.blocks[e];
      }
    }
  }

  /** The writes of the partial-block branch once the last block is known. */
  function Filled(fs: Fs, ino: int, last: int, c: seq<byte>): (r: Fs)
    requires InRange(fs, ino) && InRange(fs, last)
    requires var off := InodeAt(fs, ino).size % 4000; off + |c| <= 4000 && IsU32(InodeAt(fs, ino).size + |c|)
    ensures |r.blocks| == |fs.blocks|
  {
    var n := InodeAt(fs, ino);
    var fs1 := Rehash(SetData(fs, last, Spliced(DataAt(fs, last), n.size % 4000, c)), last);
    SetSize(fs1, ino, n.size + |c|)
  }

  /** The partial-block branch, with a chunk that fits the room left: the size grows by
      the chunk's length without wrapping around. */
  lemma FillOk(fs: Fs, ino: int, c: seq<byte>) returns (last: int)
    requires InRange(fs, ino) && GetLastDataBlock(fs, ino).Ok? && InRange(fs, GetLastDataBlock(fs, ino).v)
    requires var off := InodeAt(fs, ino).size % 4000; off > 0 && 0 < |c| <= 4000 - off
    ensures last == GetLastDataBlock(fs, ino).v && InRange(fs, last)
    ensures IsU32(InodeAt(fs, ino).size + |c|)
    ensures FillLast(fs, ino, InodeAt(fs, ino).size, c) == Ok(Filled(fs, ino, last, c), InodeAt(fs, ino).size + |c|)
  {
    last := GetLastDataBlock(fs, ino).v;
    LastBound(fs, ino);
  }

  /** What the partial-block writes leave: the chunk at byte `size % 4000` of the last
      block, the bytes before it kept, the block's digest brought up to date, the size
      grown by the chunk's length, and no other block changed. */
  lemma FilledSpec(fs: Fs, ino: int, last: int, c: seq<byte>)
    requires InRange(fs, ino) && InRange(fs, last) && last != ino
    requires var off := InodeAt(fs, ino).size % 4000; off + |c| <= 4000 && IsU32(InodeAt(fs, ino).size + |c|)
    ensures var r := Filled(fs, ino, last, c); var n := InodeAt(fs, ino); var off := n.size % 4000;
      && DataAt(r, last)[off..off + |c|] == c && DataAt(r, last)[..off] == DataAt(fs, last)[..off]
      && Sealed(r.blocks[last]) && r.blocks[last].tag == fs.blocks[last].tag
      && InodeAt(r, ino) == n.(size := n.size + |c|)
      && forall x :: 0 <= x < |fs.blocks| && x != ino && x != last ==> r.blocks[x] == fs.blocks[x]
  {
    var n := InodeAt(fs, ino);
    var fs1 := Rehash(SetData(fs, last, Spliced(DataAt(fs, last), n.size % 4000, c)), last);
    assert InodeAt(fs1, ino) == n;
  }

  /** After the partial-block writes `get_last_data_block` still finds the block the
      chunk went to, provided it is none of the file's address blocks. */
  lemma FillReadBack(fs: Fs, ino: int, c: seq<byte>)
    requires Growth.Tidy(fs, ino) && GetLastDataBlock(fs, ino).Ok?
    requires var off := InodeAt(fs, ino).size % 4000; off > 0 && 0 < |c| <= 4000 - off
    requires var last := GetLastDataBlock(fs, ino).v; InRange(fs, last) && Apart(fs, ino, last)
    ensures var last := GetLastDataBlock(fs, ino).v;
      var f := FillLast(fs, ino, InodeAt(fs, ino).size, c);
      f.Ok? && GetLastDataBlock(f.fs, ino) == Ok(f.fs, last)
  {
    var n := InodeAt(fs, ino);
    var last := FillOk(fs, ino, c);
    var r := Filled(fs, ino, last, c);
    FilledSpec(fs, ino, last, c);
    LastBlockIsResolve(fs, ino);
    AppendedLastIndex(n.size, |c|);
    ResolveSteady(fs, r, ino, last, LastIndex(n.size));
    LastBlockIsResolve(r, ino);
  }

  /** The writes of the fresh-block branch once block b is known: the chunk and zeros in
      b, b rehashed and tagged 5, the new total in the size word. */
  function Placed(fs: Fs, ino: int, b: int, total: u32, c: seq<byte>): (r: Fs)
    requires InRange(fs, ino) && InRange(fs, b) && |c| <= 4000 && IsU32(total + |c|)
    ensures |r.blocks| == |fs.blocks|
  {
    SetSize(SetTag(Rehash(SetData(fs, b, Padded(c)), b), b, TagData), ino, total + |c|)
  }

  /** At the block limit the fresh-block branch changes nothing and stops the loop. */
  lemma NewBlockStops(fs: Fs, ino: int, c: seq<byte>)
    requires InRange(fs, ino) && InodeAt(fs, ino).size / 4000 == MaxBlocks && |c| <= 4000
    ensures NewBlock(fs, ino, InodeAt(fs, ino).size, c) == Ok(fs, Stopped)
  {
  }

  /** When `get_last_data_block_null` hands out a block, the fresh-block branch is its
      writes there, and the total grows by the chunk's length without wrapping around. */
  lemma NewBlockOk(fs: Fs, ino: int, total: u32, c: seq<byte>) returns (g: Fs, b: int)
    requires InRange(fs, ino) && total == InodeAt(fs, ino).size && |c| <= 4000
    requires GetLastDataBlockNull(fs, ino).Ok? && GetLastDataBlockNull(fs, ino).v != -2
    requires InRange(fs, GetLastDataBlockNull(fs, ino).v)
    ensures g == GetLastDataBlockNull(fs, ino).fs && b == GetLastDataBlockNull(fs, ino).v
    ensures InRange(g, ino) && InRange(g, b) && IsU32(total + |c|)
    ensures NewBlock(fs, ino, total, c) == Ok(Placed(g, ino, b, total, c), Stored(total + |c|))
  {
    g := GetLastDataBlockNull(fs, ino).fs;
    b := GetLastDataBlockNull(fs, ino).v;
    NullBound(fs, ino);
  }

  /** What the fresh-block writes leave: the chunk followed by zeros in b, b sealed and
      tagged 5, the size grown by the chunk's length, and no other block changed. */
  lemma PlacedSpec(fs: Fs, ino: int, b: int, total: u32, c: seq<byte>)
    requires InRange(fs, ino) && InRange(fs, b) && b != ino && |c| <= 4000 && IsU32(total + |c|)
    ensures var r := Placed(fs, ino, b, total, c);
      && DataAt(r, b)[..|c|] == c && (forall i :: |c| <= i < 4000 ==> DataAt(r, b)[i] == 0)
      && Sealed(r.blocks[b]) && r.blocks[b].tag == TagData
      && InodeAt(r, ino) == InodeAt(fs, ino).(size := total + |c|)
      && forall x :: 0 <= x < |fs.blocks| && x != ino && x != b ==> r.blocks[x] == fs.blocks[x]
  {
    var fs1 := SetTag(Rehash(SetData(fs, b, Padded(c)), b), b, TagData);
    assert InodeAt(fs1, ino) == InodeAt(fs, ino);
    assert DataAt(fs1, b) == Padded(c);
  }

  /** The fresh-block branch against the reference addressing: below the block limit,
      when the block handed out is none of the file's address blocks, `get_last_data_block`
      afterwards finds exactly the block that holds the chunk. */
  lemma NewBlockReadBack(fs: Fs, ino: int, c: seq<byte>)
    requires Growth.Tidy(fs, ino) && 0 < |c| <= 4000
    requires InodeAt(fs, ino).size % 4000 == 0 && InodeAt(fs, ino).size / 4000 != MaxBlocks
    requires var g := GetLastDataBlockNull(fs, ino);
      g.Ok? && InRange(g.fs, g.v) && InRange(g.fs, ino) && Apart(g.fs, ino, g.v)
    ensures var g := GetLastDataBlockNull(fs, ino);
      var f := NewBlock(fs, ino, InodeAt(fs, ino).size, c);
      f.Ok? && f.v == Stored(InodeAt(fs, ino).size + |c|) && GetLastDataBlock(f.fs, ino) == Ok(f.fs, g.v)
  {
    var n := InodeAt(fs, ino);
    Growth.GrowThenResolve(fs, ino);
    var g, b := NewBlockOk(fs, ino, n.size, c);
    PlacedReadBack(g, ino, n.size, b, c);
  }

  /** The chunk placed in the block b that growth handed out is found again by
      `get_last_data_block`. */
  lemma PlacedReadBack(g: Fs, ino: int, size: u32, b: int, c: seq<byte>)
    requires Growth.Tidy(g, ino) && 0 < |c| <= 4000 && size % 4000 == 0
    requires InodeAt(g, ino).size == size && Resolve(g, ino, size / 4000) == Ok(g, b)
    requires InRange(g, b) && Apart(g, ino, b) && IsU32(size + |c|)
    ensures var r := Placed(g, ino, b, size, c);
            GetLastDataBlock(r, ino) == Ok(r, b)
  {
    var k := size / 4000;
    var r := Placed(g, ino, b, size, c);
    PlacedSpec(g, ino, b, size, c);
    ResolveSteady(g, r, ino, b, k);
    AppendedLastIndex(size, |c|);
    LastBlockIsResolve(r, ino);
  }

  /** A file still in direct mode below block 900: `get_last_data_block_null` answers
      -1 exactly when no data block is free, and otherwise hands out a data block that
      the read-back of `NewBlockReadBack` applies to. */
  lemma NewBlockDirect(fs: Fs, ino: int)
    requires Growth.Tidy(fs, ino) && InodeAt(fs, ino).indirect == NoBlock
    requires InodeAt(fs, ino).size / 4000 < 900
    ensures var g := GetLastDataBlockNull(fs, ino);
      && g.Ok? && InRange(g.fs, ino)
      && (g.v == -1 <==> Growth.Full(fs))
      && (g.v != -1 ==> InRange(g.fs, g.v) && Apart(g.fs, ino, g.v) && Geom(fs).DataStart() <= g.v)
  {
    var n := InodeAt(fs, ino);
    AllocDataBlockSpec(fs);
    var t := AllocDataBlock(fs);
    assert InodeAt(t.fs, ino) == n;
    Growth.DirectGrowthStep(fs, ino, t);
    DirectPlaced(fs, ino, t);
  }

  /** The allocation t written into direct slot `size / 4000`: -1 exactly on a full
      container, and otherwise a data block apart from the file's tables. */
  lemma DirectPlaced(fs: Fs, ino: int, t: Res<i32>)
    requires Growth.Tidy(fs, ino) && InodeAt(fs, ino).indirect == NoBlock
    requires InodeAt(fs, ino).size / 4000 < 900
    requires t == AllocDataBlock(fs) && t.Ok? && InodeAt(t.fs, ino) == InodeAt(fs, ino)
    ensures var n := InodeAt(fs, ino);
      var g := Rehash(SetInode(t.fs, ino, n.(direct := n.direct[n.size / 4000 := t.v])), ino);
      && InRange(g, ino)
      && (t.v == -1 <==> Growth.Full(fs))
      && (t.v != -1 ==> InRange(g, t.v) && Apart(g, ino, t.v) && Geom(fs).DataStart() <= t.v)
  {
    var n := InodeAt(fs, ino);
    AllocDataBlockSpec(fs);
    var g := Rehash(SetInode(t.fs, ino, n.(direct := n.direct[n.size / 4000 := t.v])), ino);
    assert InodeAt(g, ino).indirect == NoBlock;
    if t.v == -1 {
      assert Growth.Full(fs);
    } else {
      assert !Growth.Full(fs);
    }
  }

  // ---------------------------------------------------------------------------
  // The loops count every byte they store

  lemma FlatCons(cs: seq<seq<byte>>, p: nat)
    requires p < |cs|
    ensures Flat(cs[..p + 1]) == cs[0] + Flat(cs[1..][..p])
  {
    assert cs[..p + 1][1..] == cs[1..][..p];
  }

  /** A partial-block step that succeeds adds the chunk's length to the total, without
      wrapping around, and records the new total as the size. */
  lemma FillTotal(fs: Fs, ino: int, total: u32, c: seq<byte>)
    requires InRange(fs, ino) && total == InodeAt(fs, ino).size && FillLast(fs, ino, total, c).Ok?
    ensures var f := FillLast(fs, ino, total, c);
      f.v == total + |c| && InRange(f.fs, ino) && InodeAt(f.fs, ino).size == f.v
  {
    LastBound(fs, ino);
  }

  /** A fresh-block step that stores its chunk adds the chunk's length to the total,
      without wrapping around, and records the new total as the size. */
  lemma NewBlockTotal(fs: Fs, ino: int, total: u32, c: seq<byte>)
    requires InRange(fs, ino) && total == InodeAt(fs, ino).size && |c| <= 4000
    requires NewBlock(fs, ino, total, c).Ok? && NewBlock(fs, ino, total, c).v.Stored?
    ensures var f := NewBlock(fs, ino, total, c);
      f.v.total == total + |c| && InRange(f.fs, ino) && InodeAt(f.fs, ino).size == f.v.total
  {
    NullBound(fs, ino);
  }

  /** One step of the `cmd_addinput` loop into a partial last block. */
  lemma PourFill(fs: Fs, ino: int, total: u32, cs: seq<seq<byte>>) returns (fs': Fs, t: u32)
    requires InRange(fs, ino) && total == InodeAt(fs, ino).size && total % 4000 > 0
    requires Reads(cs) && |cs| > 0 && Pour(fs, ino, total, cs).Ok?
    ensures InRange(fs', ino) && t == InodeAt(fs', ino).size && t == total + |cs[0]|
    ensures Pour(fs, ino, total, cs) == Pour(fs', ino, t, cs[1..])
  {
    var f := FillLast(fs, ino, total, cs[0]);
    FillTotal(fs, ino, total, cs[0]);
    fs', t := f.fs, f.v;
  }

  /** One step of a loop into a fresh block: either the resolver stopped the loop, with
      the total unchanged, or the chunk is stored and counted. */
  lemma FreshStep(fs: Fs, ino: int, total: u32, c: seq<byte>) returns (stop: bool, fs': Fs, t: u32)
    requires InRange(fs, ino) && total == InodeAt(fs, ino).size && |c| <= 4000
    requires NewBlock(fs, ino, total, c).Ok?
    ensures InRange(fs', ino) && fs' == NewBlock(fs, ino, total, c).fs
    ensures stop <==> NewBlock(fs, ino, total, c).v.Stopped?
    ensures !stop ==> t == InodeAt(fs', ino).size && t == total + |c| && t == NewBlock(fs, ino, total, c).v.total
  {
    var f := NewBlock(fs, ino, total, c);
    stop, fs' := f.v.Stopped?, f.fs;
    t := total;
    if !stop {
      NewBlockTotal(fs, ino, total, c);
      t := f.v.total;
    }
  }

  /** The loop of `cmd_addinput` and `cmd_input` consumes a prefix of the chunks (all of
      them unless the resolver stopped it, which happens only at a block boundary), and
      its total is the starting total plus exactly the bytes of that prefix. */
  lemma {:induction false} PourSpec(fs: Fs, ino: int, total: u32, cs: seq<seq<byte>>) returns (p: nat)
    requires InRange(fs, ino) && Reads(cs) && total == InodeAt(fs, ino).size
    ensures var r := Pour(fs, ino, total, cs);
      r.Ok? ==> p <= |cs| && r.v == total + |Flat(cs[..p])| && (p < |cs| ==> r.v % 4000 == 0)
    decreases |cs|
  {
    p := 0;
    if |cs| > 0 && Pour(fs, ino, total, cs).Ok? {
      var fs': Fs, t: u32;
      if total % 4000 > 0 {
        fs', t := PourFill(fs, ino, total, cs);
      } else {
        var stop;
        stop, fs', t := FreshStep(fs, ino, total, cs[0]);
        if stop {
          return;
        }
      }
      var q := PourSpec(fs', ino, t, cs[1..]);
      FlatCons(cs, q);
      p := q + 1;
    }
  }

  /** One step of the `cmd_add` loop: a stop ends it with the total unchanged, otherwise
      it goes on past the next chunk of at most 4000 bytes. */
  lemma CopyStep(fs: Fs, ino: int, total: u32, rest: seq<byte>) returns (stop: bool, fs': Fs, t: u32)
    requires InRange(fs, ino) && total == InodeAt(fs, ino).size
    requires |rest| > 0 && Copy(fs, ino, total, rest).Ok?
    ensures InRange(fs', ino)
    ensures stop ==> Copy(fs, ino, total, rest) == Ok(fs', total)
    ensures !stop ==> t == InodeAt(fs', ino).size && t == total + Min(|rest|, 4000)
    ensures !stop ==> Copy(fs, ino, total, rest) == Copy(fs', ino, t, rest[Min(|rest|, 4000)..])
  {
    stop, fs', t := FreshStep(fs, ino, total, rest[..Min(|rest|, 4000)]);
  }

  lemma BlockStep(t: int)
    requires t % 4000 == 0
    ensures (t + 4000) % 4000 == 0
  {
  }

  /** The loop of `cmd_add`, started at a block boundary, stores a prefix of the remaining
      bytes, all of them unless the resolver stopped it (at a block boundary), and its
      total grows by exactly that prefix. */
  lemma {:induction false} CopySpec(fs: Fs, ino: int, total: u32, rest: seq<byte>) returns (p: nat)
    requires InRange(fs, ino) && total == InodeAt(fs, ino).size && (total % 4000 == 0 || |rest| == 0)
    ensures var r := Copy(fs, ino, total, rest);
      r.Ok? ==> p <= |rest| && r.v == total + p && (p < |rest| ==> r.v % 4000 == 0)
    decreases |rest|
  {
    p := 0;
    if |rest| > 0 && Copy(fs, ino, total, rest).Ok? {
      var m := Min(|rest|, 4000);
      var stop, fs', t := CopyStep(fs, ino, total, rest);
      if stop {
        CopyStopCase(fs, ino, total, rest, fs');
      } else if |rest| <= 4000 {
        p := CopyLastCase(fs, ino, total, rest, fs', t);
      } else {
        BlockStep(total);
        var q := CopySpec(fs', ino, t, rest[m..]);
        p := CopyOn(total, t, m, q, |rest|, Copy(fs', ino, t, rest[m..]));
      }
    }
  }

  /** The arithmetic of one more chunk: q bytes after the first m. */
  lemma CopyOn(total: int, t: int, m: int, q: int, n: int, r: Res<u32>) returns (p: nat)
    requires 0 <= m <= n && t == total + m && q >= 0
    requires r.Ok? ==> q <= n - m && r.v == t + q && (q < n - m ==> r.v % 4000 == 0)
    ensures p == q + m
    ensures r.Ok? ==> p <= n && r.v == total + p && (p < n ==> r.v % 4000 == 0)
  {
    p := q + m;
  }

  /** The loop stopped by the resolver at a block boundary. */
  lemma CopyStopCase(fs: Fs, ino: int, total: u32, rest: seq<byte>, fs': Fs)
    requires InRange(fs, ino) && total % 4000 == 0 && Copy(fs, ino, total, rest) == Ok(fs', total)
    ensures var r := Copy(fs, ino, total, rest);
      0 <= |rest| && r.v == total + 0 && (0 < |rest| ==> r.v % 4000 == 0)
  {
  }

  /** The last chunk, stored whole. */
  lemma CopyLastCase(fs: Fs, ino: int, total: u32, rest: seq<byte>, fs': Fs, t: u32) returns (p: nat)
    requires InRange(fs, ino) && InRange(fs', ino) && 0 < |rest| <= 4000 && t == total + Min(|rest|, 4000)
    requires Copy(fs, ino, total, rest) == Copy(fs', ino, t, rest[Min(|rest|, 4000)..])
    ensures var r := Copy(fs, ino, total, rest);
      p == |rest| && r.Ok? && r.v == total + p
  {
    assert |rest[Min(|rest|, 4000)..]| == 0;
    p := |rest|;
  }

  /** Every write of `cmd_add`'s loop goes to a fresh block: before the loop the partial
      last block has been topped up, so the loop starts at a block boundary unless there
      is nothing left to copy, and each full chunk keeps it on one. */
  lemma CopyAligned(fs: Fs, ino: int, total: u32, bytes: seq<byte>)
    requires InRange(fs, ino) && total == InodeAt(fs, ino).size && total % 4000 > 0
    requires FillLast(fs, ino, total, bytes[..Min(|bytes|, 4000 - total % 4000)]).Ok?
    ensures var m := Min(|bytes|, 4000 - total % 4000);
      FillLast(fs, ino, total, bytes[..m]).v % 4000 == 0 || m == |bytes|
  {
    var m := Min(|bytes|, 4000 - total % 4000);
    FillTotal(fs, ino, total, bytes[..m]);
    ToBoundary(total, |bytes|);
  }

  /** Topping up the partial last block either reaches the block boundary or uses every
      byte. */
  lemma ToBoundary(total: int, len: int)
    requires total >= 0 && total % 4000 > 0 && len >= 0
    ensures var m := Min(len, 4000 - total % 4000);
      (total + m) % 4000 == 0 || m == len
  {
    if len >= 4000 - total % 4000 {
      assert total + (4000 - total % 4000) == 4000 * (total / 4000 + 1);
    }
  }

  // ---------------------------------------------------------------------------
  // The target and the commands

  /** An existing file is found where cat and rm look for it: a lookup fault is a fault,
      and a found file is the target, left as it is except that `cmd_input` empties a
      file inside a directory. */
  lemma TargetExisting(fs: Fs, path: CStr, now: u32, empty: bool)
    ensures !ParentFits(path) ==> Target(fs, path, now, empty) == Fault
    ensures var s := SplitPath(path);
      var f := FindFile(fs, s.parent, s.name);
      ParentFits(path) ==>
        && (!f.Ok? ==> Target(fs, path, now, empty) == Fault)
        && (f.Ok? && f.v != -1 && (!empty || |s.parent| == 0) ==> Target(fs, path, now, empty) == Ok(fs, f.v))
  {
  }

  /** `cmd_input` on an existing file inside a directory frees its data first: the target
      is that file, with size 0, stamped and sealed. */
  lemma TargetTruncates(fs: Fs, path: CStr, now: u32)
    requires ParentFits(path)
    ensures var s := SplitPath(path);
      var f := FindFile(fs, s.parent, s.name);
      var t := Target(fs, path, now, true);
      f.Ok? && f.v != -1 && |s.parent| > 0 && t.Ok? ==>
        t.v == f.v && InodeAt(t.fs, t.v).size == 0 && InodeAt(t.fs, t.v).mtime == now
        && Sealed(t.fs.blocks[t.v])
  {
  }

  /** The read loop and the closing writes: the size becomes the starting size plus the
      bytes of the chunks consumed, stopping early only at a block boundary, and the
      modification time is now. */
  lemma WriteSpec(fs: Fs, ino: int, cs: seq<seq<byte>>, now: u32) returns (p: nat)
    requires InRange(fs, ino) && Reads(cs)
    ensures var r := Write(fs, ino, cs, now);
      r.Ok? ==>
        && r.v == 0 && p <= |cs| && InRange(r.fs, ino)
        && InodeAt(r.fs, ino).size == InodeAt(fs, ino).size + |Flat(cs[..p])|
        && InodeAt(r.fs, ino).mtime == now && Sealed(r.fs.blocks[ino])
        && (p < |cs| ==> InodeAt(r.fs, ino).size % 4000 == 0)
  {
    p := PourSpec(fs, ino, InodeAt(fs, ino).size, cs);
    var q := Pour(fs, ino, InodeAt(fs, ino).size, cs);
    if q.Ok? {
      CloseSpec(q.fs, ino, q.v, now);
    }
  }

  /** `cmd_addinput` appends: on success its target's size grows by exactly the bytes
      read from standard input (all of them unless the file reached its last block). */
  lemma AddInputAppends(fs: Fs, path: CStr, cs: seq<seq<byte>>, now: u32) returns (p: nat)
    requires Reads(cs)
    ensures var t := Target(fs, path, now, false);
      var r := CmdAddInput(fs, path, cs, now);
      r.Ok? ==>
        && t.Ok? && r.v == 0 && p <= |cs| && InRange(r.fs, t.v)
        && InodeAt(r.fs, t.v).size == InodeAt(t.fs, t.v).size + |Flat(cs[..p])|
        && InodeAt(r.fs, t.v).mtime == now
        && (p < |cs| ==> InodeAt(r.fs, t.v).size % 4000 == 0)
  {
    p := 0;
    var t := Target(fs, path, now, false);
    if t.Ok? {
      p := WriteSpec(t.fs, t.v, cs, now);
    }
  }

  /** `cmd_input` writes: on success its target's size is the bytes read from standard
      input on top of what the target kept, which is nothing for an existing file inside
      a directory and everything for an existing file at the root. */
  lemma InputWrites(fs: Fs, path: CStr, cs: seq<seq<byte>>, now: u32) returns (p: nat)
    requires Reads(cs)
    ensures var t := Target(fs, path, now, true);
      var r := CmdInput(fs, path, cs, now);
      r.Ok? ==>
        && t.Ok? && r.v == 0 && p <= |cs| && InRange(r.fs, t.v)
        && InodeAt(r.fs, t.v).size == InodeAt(t.fs, t.v).size + |Flat(cs[..p])|
        && InodeAt(r.fs, t.v).mtime == now
        && (p < |cs| ==> InodeAt(r.fs, t.v).size % 4000 == 0)
  {
    p := 0;
    var t := Target(fs, path, now, true);
    if t.Ok? {
      p := WriteSpec(t.fs, t.v, cs, now);
    }
  }

  /** The loop of `cmd_add` from a block boundary and its closing writes. */
  lemma FinishSpec(fs: Fs, ino: int, total: u32, rest: seq<byte>, now: u32) returns (q: nat)
    requires InRange(fs, ino) && total == InodeAt(fs, ino).size && (total % 4000 == 0 || |rest| == 0)
    ensures var r := Finish(fs, ino, total, rest, now);
      r.Ok? ==>
        && r.v == 0 && q <= |rest| && InRange(r.fs, ino)
        && InodeAt(r.fs, ino).size == total + q && InodeAt(r.fs, ino).mtime == now
        && (q < |rest| ==> InodeAt(r.fs, ino).size % 4000 == 0)
  {
    q := CopySpec(fs, ino, total, rest);
  }

  /** The copy of `cmd_add` on a known target appends: on success the size grows by
      exactly a prefix of the bytes (all of them unless the file reached its last block,
      which leaves it at a block boundary), stamped whenever there were bytes. */
  lemma LoadSpec(fs: Fs, ino: int, bytes: seq<byte>, now: u32) returns (p: nat)
    requires InRange(fs, ino)
    ensures var r := Load(fs, ino, bytes, now);
      r.Ok? ==>
        && r.v == 0 && p <= |bytes| && InRange(r.fs, ino)
        && InodeAt(r.fs, ino).size == InodeAt(fs, ino).size + p
        && (|bytes| > 0 ==> InodeAt(r.fs, ino).mtime == now)
        && (p < |bytes| ==> InodeAt(r.fs, ino).size % 4000 == 0)
  {
    var total := InodeAt(fs, ino).size;
    if total % 4000 > 0 {
      p := LoadPartial(fs, ino, bytes, now);
    } else {
      p := FinishSpec(fs, ino, total, bytes, now);
    }
  }

  /** The top-up step of `cmd_add`: when it succeeds, the total grows by the bytes
      copied, which fill the block unless they were all the bytes there were. */
  lemma LoadFill(fs: Fs, ino: int, bytes: seq<byte>, now: u32) returns (fs': Fs, t: u32, m: nat)
    requires InRange(fs, ino) && InodeAt(fs, ino).size % 4000 > 0
    requires Load(fs, ino, bytes, now).Ok? && |bytes| > 0
    ensures InRange(fs', ino) && t == InodeAt(fs', ino).size && 0 < m <= |bytes|
    ensures t == InodeAt(fs, ino).size + m && (t % 4000 == 0 || m == |bytes|)
    ensures Load(fs, ino, bytes, now) == Finish(fs', ino, t, bytes[m..], now)
  {
    var total := InodeAt(fs, ino).size;
    m := Min(|bytes|, 4000 - total % 4000);
    var f := FillLast(fs, ino, total, bytes[..m]);
    FillTotal(fs, ino, total, bytes[..m]);
    CopyAligned(fs, ino, total, bytes);
    fs', t := f.fs, f.v;
  }

  /** LoadSpec when the last block is partial. */
  lemma LoadPartial(fs: Fs, ino: int, bytes: seq<byte>, now: u32) returns (p: nat)
    requires InRange(fs, ino) && InodeAt(fs, ino).size % 4000 > 0
    ensures var r := Load(fs, ino, bytes, now);
      r.Ok? ==>
        && r.v == 0 && p <= |bytes| && InRange(r.fs, ino)
        && InodeAt(r.fs, ino).size == InodeAt(fs, ino).size + p
        && (|bytes| > 0 ==> InodeAt(r.fs, ino).mtime == now)
        && (p < |bytes| ==> InodeAt(r.fs, ino).size % 4000 == 0)
  {
    p := 0;
    if Load(fs, ino, bytes, now).Ok? && |bytes| > 0 {
      var fs', t, m := LoadFill(fs, ino, bytes, now);
      var q := FinishSpec(fs', ino, t, bytes[m..], now);
      p := m + q;
    }
  }

  /** `cmd_add` appends: an external file that cannot be opened gives 1 with nothing
      changed; otherwise, on success, the target's size grows by exactly a prefix of the
      external bytes, as LoadSpec states. */
  lemma AddAppends(fs: Fs, ext: Source, path: CStr, now: u32) returns (p: nat)
    ensures ext.Unopened? ==> CmdAdd(fs, ext, path, now) == Ok(fs, 1)
    ensures var t := Target(fs, path, now, false);
      var r := CmdAdd(fs, ext, path, now);
      ext.Contents? && r.Ok? ==>
        && t.Ok? && r.v == 0 && p <= |ext.bytes| && InRange(r.fs, t.v)
        && InodeAt(r.fs, t.v).size == InodeAt(t.fs, t.v).size + p
        && (|ext.bytes| > 0 ==> InodeAt(r.fs, t.v).mtime == now)
        && (p < |ext.bytes| ==> InodeAt(r.fs, t.v).size % 4000 == 0)
  {
    p := 0;
    var t := Target(fs, path, now, false);
    if ext.Contents? && t.Ok? {
      p := LoadSpec(t.fs, t.v, ext.bytes, now);
    }
  }

  // ---------------------------------------------------------------------------
  // The unbounded copy into a partial block

  /** As written, a chunk longer than the room left in a partial last block makes the
      copy run past the data area: for instance a chunk of 4000 bytes read into a file of
      1 byte. */
  lemma OverrunFaults(fs: Fs, ino: int, total: u32, cs: seq<seq<byte>>)
    requires InRange(fs, ino) && Reads(cs) && |cs| > 0
    requires total % 4000 > 0 && total % 4000 + |cs[0]| > 4000
    ensures Pour(fs, ino, total, cs) == Fault
  {
  }

  /** The concrete case: a one-byte file and a full chunk. */
  lemma OneByteThenFullChunk(fs: Fs, ino: int, c: seq<byte>)
    requires InRange(fs, ino) && |c| == 4000
    ensures Pour(fs, ino, 1, [c]) == Fault
  {
    OverrunFaults(fs, ino, 1, [c]);
  }

  /** The bounded top-up of a partial last block always fits: where the resolver finds a
      last block in the container, it succeeds. */
  lemma TopUpFits(fs: Fs, ino: int, c: seq<byte>)
    requires InRange(fs, ino) && InodeAt(fs, ino).size % 4000 > 0
    requires GetLastDataBlock(fs, ino).Ok? && InRange(fs, GetLastDataBlock(fs, ino).v)
    ensures TopUp(fs, ino, InodeAt(fs, ino).size, c).Ok?
  {
    var total := InodeAt(fs, ino).size;
    if Room(total, c) > 0 {
      var last := FillOk(fs, ino, c[..Room(total, c)]);
    }
  }

  /** A top-up that succeeds adds the bytes it copied to the total, and they are the whole
      chunk or they complete the block. */
  lemma TopUpTotal(fs: Fs, ino: int, total: u32, c: seq<byte>)
    requires InRange(fs, ino) && total == InodeAt(fs, ino).size && TopUp(fs, ino, total, c).Ok?
    ensures var f := TopUp(fs, ino, total, c);
      && InRange(f.fs, ino) && f.v == InodeAt(f.fs, ino).size && f.v == total + Room(total, c)
      && (Room(total, c) == |c| || f.v % 4000 == 0)
  {
    if Room(total, c) > 0 {
      FillTotal(fs, ino, total, c[..Room(total, c)]);
    }
  }

  /** One chunk of the corrected loop: either all of it is stored and the loop goes on,
      or the resolver stopped it at a block boundary after k of its bytes. */
  lemma FixedStep(fs: Fs, ino: int, total: u32, cs: seq<seq<byte>>) returns (stop: bool, fs': Fs, t: u32, k: nat)
    requires InRange(fs, ino) && Reads(cs) && total == InodeAt(fs, ino).size
    requires |cs| > 0 && PourFixed(fs, ino, total, cs).Ok?
    ensures InRange(fs', ino)
    ensures stop ==> PourFixed(fs, ino, total, cs) == Ok(fs', t) && t == total + k && k < |cs[0]| && t % 4000 == 0
    ensures !stop ==> t == InodeAt(fs', ino).size && t == total + |cs[0]|
    ensures !stop ==> PourFixed(fs, ino, total, cs) == PourFixed(fs', ino, t, cs[1..])
  {
    var c := cs[0];
    var m := Room(total, c);
    var f := TopUp(fs, ino, total, c);
    TopUpTotal(fs, ino, total, c);
    if m == |c| {
      stop, fs', t, k := false, f.fs, f.v, 0;
    } else {
      var fs2, t2;
      stop, fs2, t2 := FreshStep(f.fs, ino, f.v, c[m..]);
      fs' := fs2;
      k := m;
      t := if stop then f.v else t2;
    }
  }

  /** The corrected loop stores every byte read unless the file reached its last block:
      its total is the starting total plus the bytes of the first p chunks and k bytes of
      the next, and a stop leaves the total at a block boundary. */
  lemma {:induction false} PourFixedSpec(fs: Fs, ino: int, total: u32, cs: seq<seq<byte>>) returns (p: nat, k: nat)
    requires InRange(fs, ino) && Reads(cs) && total == InodeAt(fs, ino).size
    ensures var r := PourFixed(fs, ino, total, cs);
      r.Ok? ==>
        && p <= |cs| && r.v == total + |Flat(cs[..p])| + k
        && (p == |cs| ==> k == 0)
        && (p < |cs| ==> k < |cs[p]| && r.v % 4000 == 0)
    decreases |cs|
  {
    p, k := 0, 0;
    if |cs| > 0 && PourFixed(fs, ino, total, cs).Ok? {
      var stop, fs', t, j := FixedStep(fs, ino, total, cs);
      if stop {
        k := j;
      } else {
        var q, i := PourFixedSpec(fs', ino, t, cs[1..]);
        FlatCons(cs, q);
        p, k := q + 1, i;
      }
    }
  }

  /** The read loop with the bounded copy and the closing writes: the size becomes the
      starting size plus every byte read, unless the file reached its last block, and
      the modification time is now. */
  lemma WriteFixedSpec(fs: Fs, ino: int, cs: seq<seq<byte>>, now: u32) returns (p: nat, k: nat)
    requires InRange(fs, ino) && Reads(cs)
    ensures var r := WriteFixed(fs, ino, cs, now);
      r.Ok? ==>
        && r.v == 0 && p <= |cs| && InRange(r.fs, ino)
        && InodeAt(r.fs, ino).size == InodeAt(fs, ino).size + |Flat(cs[..p])| + k
        && InodeAt(r.fs, ino).mtime == now && Sealed(r.fs.blocks[ino])
        && (p == |cs| ==> k == 0)
        && (p < |cs| ==> k < |cs[p]| && InodeAt(r.fs, ino).size % 4000 == 0)
  {
    p, k := PourFixedSpec(fs, ino, InodeAt(fs, ino).size, cs);
    var q := PourFixed(fs, ino, InodeAt(fs, ino).size, cs);
    if q.Ok? {
      CloseSpec(q.fs, ino, q.v, now);
    }
  }

  /** `cmd_addinput` with the bounded copy appends every byte read from standard input
      (up to the file's last block). */
  lemma AddInputFixedAppends(fs: Fs, path: CStr, cs: seq<seq<byte>>, now: u32) returns (p: nat, k: nat)
    requires Reads(cs)
    ensures var t := Target(fs, path, now, false);
      var r := CmdAddInputFixed(fs, path, cs, now);
      r.Ok? ==>
        && t.Ok? && r.v == 0 && p <= |cs| && InRange(r.fs, t.v)
        && InodeAt(r.fs, t.v).size == InodeAt(t.fs, t.v).size + |Flat(cs[..p])| + k
        && InodeAt(r.fs, t.v).mtime == now
        && (p == |cs| ==> k == 0)
        && (p < |cs| ==> k < |cs[p]| && InodeAt(r.fs, t.v).size % 4000 == 0)
  {
    p, k := 0, 0;
    var t := Target(fs, path, now, false);
    if t.Ok? {
      p, k := WriteFixedSpec(t.fs, t.v, cs, now);
    }
  }

  /** `cmd_input` with the bounded copy writes every byte read from standard input (up to
      the file's last block) on top of what the target kept. */
  lemma InputFixedWrites(fs: Fs, path: CStr, cs: seq<seq<byte>>, now: u32) returns (p: nat, k: nat)
    requires Reads(cs)
    ensures var t := Target(fs, path, now, true);
      var r := CmdInputFixed(fs, path, cs, now);
      r.Ok? ==>
        && t.Ok? && r.v == 0 && p <= |cs| && InRange(r.fs, t.v)
        && InodeAt(r.fs, t.v).size == InodeAt(t.fs, t.v).size + |Flat(cs[..p])| + k
        && InodeAt(r.fs, t.v).mtime == now
        && (p == |cs| ==> k == 0)
        && (p < |cs| ==> k < |cs[p]| && InodeAt(r.fs, t.v).size % 4000 == 0)
  {
    p, k := 0, 0;
    var t := Target(fs, path, now, true);
    if t.Ok? {
      p, k := WriteFixedSpec(t.fs, t.v, cs, now);
    }
  }
}
