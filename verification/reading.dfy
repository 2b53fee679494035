/** Reading a file's bytes out of the container.

    Two loops in the code read a file block by block: the one of `cmd_cat`
    (src/cmd_cat.c) and the one of `copy_fichier_vers_externe` (src/cmd_cp.c), which
    copies an internal file to an external one. Both emit `min(remaining, 4000)` bytes
    per block until `file_size` bytes are out. They differ on entries that name no
    block: cat stops the direct scan at any negative entry and skips negative entries
    of address tables, the export copy stops every scan at the entry -1 and reads any
    other value as a block number. `cmd_grep` (src/cmd_grep.c) reads the direct blocks
    only, the way cat does.
 */
module Reading {
  import opened Codec
  import opened Blocks
  import opened Container

  datatype Reader = CatReader | ExportReader

  /** An entry the reader treats as "no block here". */
  predicate Hole(rd: Reader, x: int) {
    if rd.CatReader? then x < 0 else x == NoBlock
  }

  /** The state of a reading loop: the bytes emitted so far and the count still to
      emit, or a read outside the mapping. */
  datatype Emit = Emit(out: seq<byte>, rem: nat) | Stray

  function Min(a: int, b: int): int {
    if a <= b then a else b
  }

  /** Emitting block b: `min(remaining, 4000)` bytes of its data area. */
  function Chunk(fs: Fs, b: int, e: Emit): Emit
    requires e.Emit?
  {
    if !InRange(fs, b) then Stray
    else
      var m := Min(e.rem, 4000);
      Emit(e.out + DataAt(fs, b)[..m], e.rem - m)
  }

  // ---------------------------------------------------------------------------
  // The loops as written

  /** The loop over `direct_blocks`, from entry i. */
  function ReadDirect(fs: Fs, rd: Reader, d: Direct, i: nat, e: Emit): Emit
    requires i <= 900
    decreases 900 - i
  {
    if e.Stray? || i == 900 || e.rem == 0 || Hole(rd, d[i]) then e
    else ReadDirect(fs, rd, d, i + 1, Chunk(fs, d[i], e))
  }

  /** The loop over the entries of one table of data-block numbers, from entry i. */
  function ReadTable(fs: Fs, rd: Reader, w: Addresses, i: nat, e: Emit): Emit
    requires i <= 1000
    decreases 1000 - i
  {
    if e.Stray? || i == 1000 || e.rem == 0 then e
    else if Hole(rd, w[i]) then (if rd.CatReader? then ReadTable(fs, rd, w, i + 1, e) else e)
    else ReadTable(fs, rd, w, i + 1, Chunk(fs, w[i], e))
  }

  /** The loop over a double-indirect table from entry i: each entry names a table
      that `ReadTable` reads in full. */
  function ReadTables(fs: Fs, rd: Reader, w: Addresses, i: nat, e: Emit): Emit
    requires i <= 1000
    decreases 1000 - i
  {
    if e.Stray? || i == 1000 || e.rem == 0 then e
    else if Hole(rd, w[i]) then (if rd.CatReader? then ReadTables(fs, rd, w, i + 1, e) else e)
    else if !InRange(fs, w[i]) then Stray
    else ReadTables(fs, rd, w, i + 1, ReadTable(fs, rd, WordsAt(fs, w[i]), 0, e))
  }

  /** The whole read of inode n: the direct blocks, then, while bytes remain and the
      indirect pointer names a block, its table read as single-indirect when its tag
      is 6 and as double-indirect otherwise. */
  function ReadFile(fs: Fs, rd: Reader, n: Inode): Emit {
    var e := ReadDirect(fs, rd, n.direct, 0, Emit([], n.size));
    if e.Stray? || e.rem == 0 || Hole(rd, n.indirect) then e
    else if !InRange(fs, n.indirect) then Stray
    else if fs.blocks[n.indirect].tag == TagSingle then ReadTable(fs, rd, WordsAt(fs, n.indirect), 0, e)
    else ReadTables(fs, rd, WordsAt(fs, n.indirect), 0, e)
  }

  // ---------------------------------------------------------------------------
  // The reference reading: the file's blocks in order, then their bytes

  function DirectOrder(rd: Reader, d: seq<int>, i: nat): seq<int>
    requires i <= |d|
    decreases |d| - i
  {
    if i == |d| || Hole(rd, d[i]) then [] else [d[i]] + DirectOrder(rd, d, i + 1)
  }

  function TableOrder(rd: Reader, w: seq<int>, i: nat): seq<int>
    requires i <= |w|
    decreases |w| - i
  {
    if i == |w| then []
    else if Hole(rd, w[i]) then (if rd.CatReader? then TableOrder(rd, w, i + 1) else [])
    else [w[i]] + TableOrder(rd, w, i + 1)
  }

  function TablesOrder(fs: Fs, rd: Reader, w: seq<int>, i: nat): seq<int>
    requires i <= |w|
    decreases |w| - i
  {
    if i == |w| then []
    else if Hole(rd, w[i]) then (if rd.CatReader? then TablesOrder(fs, rd, w, i + 1) else [])
    else (if InRange(fs, w[i]) then TableOrder(rd, WordsAt(fs, w[i]), 0) else [])
         + TablesOrder(fs, rd, w, i + 1)
  }

  /** The data blocks of inode n in file order, as the reader understands its pointers. */
  function FileOrder(fs: Fs, rd: Reader, n: Inode): seq<int> {
    DirectOrder(rd, n.direct, 0)
    + if Hole(rd, n.indirect) || !InRange(fs, n.indirect) then []
      else if fs.blocks[n.indirect].tag == TagSingle then TableOrder(rd, WordsAt(fs, n.indirect), 0)
      else TablesOrder(fs, rd, WordsAt(fs, n.indirect), 0)
  }

  /** Every second-level table the reader would open from entry i lies in the container. */
  predicate TablesReach(fs: Fs, rd: Reader, w: seq<int>, i: nat)
    requires i <= |w|
    decreases |w| - i
  {
    i == |w|
    || if Hole(rd, w[i]) then rd.ExportReader? || TablesReach(fs, rd, w, i + 1)
       else InRange(fs, w[i]) && TablesReach(fs, rd, w, i + 1)
  }

  /** Every address table the reader would open for inode n lies in the container. */
  predicate Reachable(fs: Fs, rd: Reader, n: Inode) {
    Hole(rd, n.indirect)
    || (InRange(fs, n.indirect)
        && (fs.blocks[n.indirect].tag == TagSingle || TablesReach(fs, rd, WordsAt(fs, n.indirect), 0)))
  }

  predicate AllIn(fs: Fs, bs: seq<int>) {
    forall k :: 0 <= k < |bs| ==> InRange(fs, bs[k])
  }

  /** The data areas of blocks bs, one after the other. */
  function Stream(fs: Fs, bs: seq<int>): (s: seq<byte>)
    requires AllIn(fs, bs)
    ensures |s| == 4000 * |bs|
  {
    if |bs| == 0 then [] else DataAt(fs, bs[0]) + Stream(fs, bs[1..])
  }

  /** Emitting blocks bs one chunk at a time until nothing remains. */
  function Feed(fs: Fs, bs: seq<int>, e: Emit): Emit
    decreases |bs|
  {
    if e.Stray? || e.rem == 0 || |bs| == 0 then e else Feed(fs, bs[1..], Chunk(fs, bs[0], e))
  }

  // ---------------------------------------------------------------------------
  // Chunked emission is truncation of the stream

  /** Feeding in-range blocks appends the first `rem` bytes of their stream, or all of
      it when it is shorter, and counts them off. */
  lemma {:induction false} FeedStream(fs: Fs, bs: seq<int>, out: seq<byte>, rem: nat)
    requires AllIn(fs, bs)
    ensures var s := Stream(fs, bs); var m := Min(rem, |s|);
      Feed(fs, bs, Emit(out, rem)) == Emit(out + s[..m], rem - m)
    decreases |bs|
  {
    if rem != 0 && |bs| != 0 {
      var d: seq<byte> := DataAt(fs, bs[0]);
      var m := Min(rem, 4000);
      assert AllIn(fs, bs[1..]);
      var s' := Stream(fs, bs[1..]);
      FeedStream(fs, bs[1..], out + d[..m], rem - m);
      assert Stream(fs, bs) == d + s';
      if rem <= 4000 {
        assert (d + s')[..rem] == d[..rem];
      } else {
        var m' := Min(rem - 4000, |s'|);
        assert (d + s')[..4000 + m'] == d + s'[..m'];
      }
    }
  }

  lemma {:induction false} FeedAppend(fs: Fs, a: seq<int>, b: seq<int>, e: Emit)
    ensures Feed(fs, a + b, e) == Feed(fs, b, Feed(fs, a, e))
    decreases |a|
  {
    if |a| > 0 && e.Emit? && e.rem != 0 {
      assert (a + b)[1..] == a[1..] + b;
      FeedAppend(fs, a[1..], b, Chunk(fs, a[0], e));
    } else if |a| == 0 {
      assert a + b == b;
    }
  }

  // ---------------------------------------------------------------------------
  // The loops as written are chunked emission of the reference order

  lemma {:induction false} DirectIsFeed(fs: Fs, rd: Reader, d: Direct, i: nat, e: Emit)
    requires i <= 900
    ensures ReadDirect(fs, rd, d, i, e) == Feed(fs, DirectOrder(rd, d, i), e)
    decreases 900 - i
  {
    if e.Emit? && i < 900 && e.rem != 0 && !Hole(rd, d[i]) {
      DirectIsFeed(fs, rd, d, i + 1, Chunk(fs, d[i], e));
      assert ([d[i]] + DirectOrder(rd, d, i + 1))[1..] == DirectOrder(rd, d, i + 1);
    }
  }

  lemma {:induction false} TableIsFeed(fs: Fs, rd: Reader, w: Addresses, i: nat, e: Emit)
    requires i <= 1000
    ensures ReadTable(fs, rd, w, i, e) == Feed(fs, TableOrder(rd, w, i), e)
    decreases 1000 - i
  {
    if e.Emit? && i < 1000 && e.rem != 0 {
      if Hole(rd, w[i]) {
        if rd.CatReader? {
          TableIsFeed(fs, rd, w, i + 1, e);
        }
      } else {
        TableIsFeed(fs, rd, w, i + 1, Chunk(fs, w[i], e));
        assert ([w[i]] + TableOrder(rd, w, i + 1))[1..] == TableOrder(rd, w, i + 1);
      }
    }
  }

  lemma {:induction false} TablesIsFeed(fs: Fs, rd: Reader, w: Addresses, i: nat, e: Emit)
    requires i <= 1000 && TablesReach(fs, rd, w, i)
    ensures ReadTables(fs, rd, w, i, e) == Feed(fs, TablesOrder(fs, rd, w, i), e)
    decreases 1000 - i
  {
    if e.Emit? && i < 1000 && e.rem != 0 {
      if Hole(rd, w[i]) {
        if rd.CatReader? {
          TablesIsFeed(fs, rd, w, i + 1, e);
        }
      } else {
        var inner := TableOrder(rd, WordsAt(fs, w[i]), 0);
        var e' := ReadTable(fs, rd, WordsAt(fs, w[i]), 0, e);
        TableIsFeed(fs, rd, WordsAt(fs, w[i]), 0, e);
        TablesIsFeed(fs, rd, w, i + 1, e');
        FeedAppend(fs, inner, TablesOrder(fs, rd, w, i + 1), e);
      }
    }
  }

  /** When every table the reader opens is inside the container, reading a file is
      chunked emission of its blocks in file order. */
  lemma FileIsFeed(fs: Fs, rd: Reader, n: Inode)
    requires Reachable(fs, rd, n)
    ensures ReadFile(fs, rd, n) == Feed(fs, FileOrder(fs, rd, n), Emit([], n.size))
  {
    var e0 := Emit([], n.size);
    var direct := DirectOrder(rd, n.direct, 0);
    var rest := FileOrder(fs, rd, n)[|direct|..];
    assert FileOrder(fs, rd, n) == direct + rest;
    DirectIsFeed(fs, rd, n.direct, 0, e0);
    FeedAppend(fs, direct, rest, e0);
    var e := Feed(fs, direct, e0);
    if e.Emit? && e.rem != 0 && !Hole(rd, n.indirect) {
      if fs.blocks[n.indirect].tag == TagSingle {
        TableIsFeed(fs, rd, WordsAt(fs, n.indirect), 0, e);
      } else {
        TablesIsFeed(fs, rd, WordsAt(fs, n.indirect), 0, e);
      }
    }
  }

  /** What a read emits: the first `file_size` bytes of the data areas of the file's
      blocks in file order (all of them when the file has fewer), provided every block
      and table the reader would open is inside the container. */
  lemma ReadFileContent(fs: Fs, rd: Reader, n: Inode)
    requires Reachable(fs, rd, n) && AllIn(fs, FileOrder(fs, rd, n))
    ensures var s := Stream(fs, FileOrder(fs, rd, n));
      var m := Min(n.size, |s|);
      ReadFile(fs, rd, n) == Emit(s[..m], n.size - m)
  {
    FileIsFeed(fs, rd, n);
    FeedStream(fs, FileOrder(fs, rd, n), [], n.size);
  }

  /** The table loops only ever append to what is already out. */
  lemma {:induction false} TableExtends(fs: Fs, rd: Reader, w: Addresses, i: nat, e: Emit)
    requires i <= 1000 && e.Emit?
    ensures var r := ReadTable(fs, rd, w, i, e);
      r.Emit? ==> e.out <= r.out && r.rem <= e.rem
    decreases 1000 - i
  {
    if i < 1000 && e.rem != 0 {
      if Hole(rd, w[i]) {
        if rd.CatReader? {
          TableExtends(fs, rd, w, i + 1, e);
        }
      } else if InRange(fs, w[i]) {
        var e' := Chunk(fs, w[i], e);
        TableExtends(fs, rd, w, i + 1, e');
        var r := ReadTable(fs, rd, w, i + 1, e');
      }
    }
  }

  lemma {:induction false} TablesExtends(fs: Fs, rd: Reader, w: Addresses, i: nat, e: Emit)
    requires i <= 1000 && e.Emit?
    ensures var r := ReadTables(fs, rd, w, i, e);
      r.Emit? ==> e.out <= r.out && r.rem <= e.rem
    decreases 1000 - i
  {
    if i < 1000 && e.rem != 0 {
      if Hole(rd, w[i]) {
        if rd.CatReader? {
          TablesExtends(fs, rd, w, i + 1, e);
        }
      } else if InRange(fs, w[i]) {
        var e' := ReadTable(fs, rd, WordsAt(fs, w[i]), 0, e);
        TableExtends(fs, rd, WordsAt(fs, w[i]), 0, e);
        if e'.Emit? {
          TablesExtends(fs, rd, w, i + 1, e');
          var r := ReadTables(fs, rd, w, i + 1, e');
        }
      }
    }
  }

  /** What the direct loop emits is the start of the whole read, and all of it when the
      direct blocks hold the whole file or there is no indirect block to follow. */
  lemma DirectIsPrefix(fs: Fs, rd: Reader, n: Inode)
    requires ReadFile(fs, rd, n).Emit?
    ensures var e := ReadDirect(fs, rd, n.direct, 0, Emit([], n.size));
      var r := ReadFile(fs, rd, n);
      && e.Emit? && e.out <= r.out
      && (e.rem == 0 || Hole(rd, n.indirect) ==> r == e)
  {
    var e := ReadDirect(fs, rd, n.direct, 0, Emit([], n.size));
    if e.Emit? && e.rem != 0 && !Hole(rd, n.indirect) && InRange(fs, n.indirect) {
      TableExtends(fs, rd, WordsAt(fs, n.indirect), 0, e);
      TablesExtends(fs, rd, WordsAt(fs, n.indirect), 0, e);
    }
  }

  // ---------------------------------------------------------------------------
  // cat and the export copy agree on tidy pointers

  /** Entries that name a block or -1, and nothing but -1 after the first -1. */
  predicate Packed(w: seq<int>) {
    && (forall i :: 0 <= i < |w| ==> w[i] >= -1)
    && (forall i, j :: 0 <= i < j < |w| && w[i] == -1 ==> w[j] == -1)
  }

  /** The pointers of inode n, as the writers of this code leave them: no negative
      entry but -1 in the direct list or the indirect pointer, and packed tables. */
  predicate PackedFile(fs: Fs, n: Inode) {
    && (forall i :: 0 <= i < 900 ==> n.direct[i] >= -1)
    && n.indirect >= -1
    && (n.indirect >= 0 && InRange(fs, n.indirect) ==>
          var w := WordsAt(fs, n.indirect);
          && Packed(w)
          && (fs.blocks[n.indirect].tag != TagSingle ==>
                forall k :: 0 <= k < 1000 && w[k] >= 0 && InRange(fs, w[k]) ==> Packed(WordsAt(fs, w[k]))))
  }

  lemma {:induction false} DirectOrderAgree(d: seq<int>, i: nat)
    requires i <= |d| && forall k :: 0 <= k < |d| ==> d[k] >= -1
    ensures DirectOrder(CatReader, d, i) == DirectOrder(ExportReader, d, i)
    decreases |d| - i
  {
    if i < |d| && d[i] >= 0 {
      DirectOrderAgree(d, i + 1);
    }
  }

  lemma {:induction false} TableHoles(w: seq<int>, i: nat)
    requires i <= |w| && forall k :: i <= k < |w| ==> w[k] == -1
    ensures TableOrder(CatReader, w, i) == []
    decreases |w| - i
  {
    if i < |w| {
      TableHoles(w, i + 1);
    }
  }

  lemma {:induction false} TablesHoles(fs: Fs, w: seq<int>, i: nat)
    requires i <= |w| && forall k :: i <= k < |w| ==> w[k] == -1
    ensures TablesOrder(fs, CatReader, w, i) == [] && TablesReach(fs, CatReader, w, i)
    decreases |w| - i
  {
    if i < |w| {
      TablesHoles(fs, w, i + 1);
    }
  }

  lemma {:induction false} TableOrderAgree(w: seq<int>, i: nat)
    requires i <= |w| && Packed(w)
    ensures TableOrder(CatReader, w, i) == TableOrder(ExportReader, w, i)
    decreases |w| - i
  {
    if i < |w| {
      if w[i] == -1 {
        TableHoles(w, i + 1);
      } else {
        TableOrderAgree(w, i + 1);
      }
    }
  }

  lemma {:induction false} TablesOrderAgree(fs: Fs, w: seq<int>, i: nat)
    requires i <= |w| && Packed(w)
    requires forall k :: 0 <= k < |w| && w[k] >= 0 && InRange(fs, w[k]) ==> Packed(WordsAt(fs, w[k]))
    ensures TablesOrder(fs, CatReader, w, i) == TablesOrder(fs, ExportReader, w, i)
    ensures TablesReach(fs, CatReader, w, i) == TablesReach(fs, ExportReader, w, i)
    decreases |w| - i
  {
    if i < |w| {
      if w[i] == -1 {
        TablesHoles(fs, w, i + 1);
      } else {
        TablesOrderAgree(fs, w, i + 1);
        if InRange(fs, w[i]) {
          TableOrderAgree(WordsAt(fs, w[i]), 0);
        }
      }
    }
  }

  /** On packed pointers cat and the export copy read the same blocks in the same
      order, so they emit the same bytes. */
  lemma CatAgreesWithExport(fs: Fs, n: Inode)
    requires PackedFile(fs, n) && Reachable(fs, CatReader, n)
    ensures Reachable(fs, ExportReader, n)
    ensures FileOrder(fs, CatReader, n) == FileOrder(fs, ExportReader, n)
    ensures ReadFile(fs, CatReader, n) == ReadFile(fs, ExportReader, n)
  {
    DirectOrderAgree(n.direct, 0);
    if n.indirect >= 0 && InRange(fs, n.indirect) {
      var w := WordsAt(fs, n.indirect);
      TableOrderAgree(w, 0);
      if fs.blocks[n.indirect].tag != TagSingle {
        TablesOrderAgree(fs, w, 0);
      }
    }
    FileIsFeed(fs, CatReader, n);
    FileIsFeed(fs, ExportReader, n);
  }
}
