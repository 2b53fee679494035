/** `print_tree` and `cmd_tree` (src/cmd_tree.c): print every root directory of the inode
    table with everything below it, one line per entry.

    A line is four spaces per level of depth, the name, and '/' for a directory. Roots are
    the live directories of depth 0, taken in table order at depth 0. Below a directory
    its slots are followed in order, -1 skipped, one level deeper; the entry a slot names
    is printed whatever its flags. A shared array of booleans, one per inode of the table,
    stops any inode from being printed twice: an entry already marked is skipped
    silently. Indexing that array with a block outside the inode table is undefined
    behaviour. Without any root the command gives 1.
 */
module Tree {
  import opened Codec
  import opened Blocks
  import opened Container
  import opened Paths
  import opened Entries
  import opened DirTree

  /** One printed line: its depth (printed as four spaces per level), the name, and
      whether the '/' mark follows. */
  datatype Row = Row(depth: nat, name: seq<byte>, dir: bool)

  /** The walk so far: the visited array, and, alongside the lines printed, the blocks
      they were printed for. Lost once the walk has done something undefined. */
  datatype Walk = Walk(visited: seq<bool>, order: seq<int>, rows: seq<Row>) | Lost

  // ---------------------------------------------------------------------------
  // The visited array

  /** Number of unmarked entries: what bounds the recursion. */
  function Unvisited(v: seq<bool>): nat {
    if |v| == 0 then 0 else (if v[0] then 0 else 1) + Unvisited(v[1..])
  }

  lemma {:induction false} MarkFewer(v: seq<bool>, i: int)
    requires 0 <= i < |v| && !v[i]
    ensures Unvisited(v[i := true]) == Unvisited(v) - 1
  {
    if i == 0 {
      assert v[i := true][1..] == v[1..];
    } else {
      assert v[i := true][1..] == v[1..][i - 1 := true];
      MarkFewer(v[1..], i - 1);
    }
  }

  /** v' keeps every mark of v. */
  predicate Grows(v: seq<bool>, v': seq<bool>) {
    |v| == |v'| && forall i :: 0 <= i < |v| && v[i] ==> v'[i]
  }

  lemma {:induction false} GrowsFewer(v: seq<bool>, v': seq<bool>)
    requires Grows(v, v')
    ensures Unvisited(v') <= Unvisited(v)
  {
    if |v| > 0 {
      assert Grows(v[1..], v'[1..]) by {
        forall i | 0 <= i < |v| - 1 && v[1..][i]
          ensures v'[1..][i]
        {
          assert v[i + 1];
        }
      }
      GrowsFewer(v[1..], v'[1..]);
    }
  }

  /** Position of block b in the visited array. */
  function Index(fs: Fs, b: int): int {
    b - Geom(fs).InodeStart()
  }

  // ---------------------------------------------------------------------------
  // print_tree

  /** `print_tree(in, depth, visited)` for the inode of block b. */
  function PrintTree(fs: Fs, b: int, depth: nat, w: Walk): (r: Walk)
    requires w.Walk?
    ensures r.Walk? ==> |r.visited| == |w.visited| && Unvisited(r.visited) <= Unvisited(w.visited)
    decreases Unvisited(w.visited), 0, 0
  {
    var k := Index(fs, b);
    if !(0 <= k < |w.visited|) then Lost
    else if w.visited[k] then w
    else if !InRange(fs, b) then Lost
    else
      var n := InodeAt(fs, b);
      MarkFewer(w.visited, k);
      var w' := Walk(w.visited[k := true], w.order + [b], w.rows + [Row(depth, NameText(n.name), IsDir(n))]);
      if !IsDir(n) then w' else PrintChildren(fs, n.direct, 0, depth + 1, w')
  }

  /** The loop of `print_tree` over the slots d of a directory, from slot i on. */
  function PrintChildren(fs: Fs, d: Direct, i: nat, depth: nat, w: Walk): (r: Walk)
    requires i <= 900 && w.Walk?
    ensures r.Walk? ==> |r.visited| == |w.visited| && Unvisited(r.visited) <= Unvisited(w.visited)
    decreases Unvisited(w.visited), 1, 900 - i
  {
    if i == 900 then w
    else if d[i] == NoBlock then PrintChildren(fs, d, i + 1, depth, w)
    else
      var r := PrintTree(fs, d[i], depth, w);
      if r.Lost? then Lost
      else
        PrintChildren(fs, d, i + 1, depth, r)
  }

  // ---------------------------------------------------------------------------
  // cmd_tree

  /** A root of the listing: a live directory at depth 0. */
  predicate IsRoot(n: Inode) {
    Exists(n) && IsDir(n) && n.depth == 0
  }

  /** The root loop's state: the walk and whether a root was met. */
  datatype Forest = Forest(walk: Walk, found: bool)

  /** The loop of `cmd_tree` from inode i of the table on. */
  function Roots(fs: Fs, i: nat, w: Walk, found: bool): Forest
    requires w.Walk?
    decreases Geom(fs).nbi - i
  {
    if i >= Geom(fs).nbi then Forest(w, found)
    else
      var b := Geom(fs).InodeStart() + i;
      if !InRange(fs, b) then Forest(Lost, found)
      else if IsRoot(InodeAt(fs, b)) then
        var w' := PrintTree(fs, b, 0, w);
        if w'.Lost? then Forest(Lost, true) else Roots(fs, i + 1, w', true)
      else Roots(fs, i + 1, w, found)
  }

  /** Entries of the visited array: one per inode of the table. A negative count makes
      the allocation fail, and the loop then has nothing to visit either. */
  function TableSize(fs: Fs): nat {
    if Geom(fs).nbi < 0 then 0 else Geom(fs).nbi
  }

  /** The walk before anything is printed: the array `calloc` gives, all unmarked. */
  function Start(fs: Fs): Walk {
    Walk(seq(TableSize(fs), _ => false), [], [])
  }

  function Visit(fs: Fs): Forest {
    Roots(fs, 0, Start(fs), false)
  }

  /** What tree gives: the exit code and the lines printed. */
  datatype Printed = Printed(code: int, rows: seq<Row>)

  /** `cmd_tree()`. */
  function CmdTree(fs: Fs): Res<Printed> {
    var f := Visit(fs);
    if f.walk.Lost? then Fault else Ok(fs, Printed(if f.found then 0 else 1, f.walk.rows))
  }

  // ---------------------------------------------------------------------------
  // What the walk keeps

  /** Row r is the line printed for block b. */
  predicate Describes(fs: Fs, b: int, r: Row) {
    InRange(fs, b) && r.name == NameText(InodeAt(fs, b).name) && r.dir == IsDir(InodeAt(fs, b))
  }

  predicate Distinct(s: seq<int>) {
    forall i, j :: 0 <= i < j < |s| ==> s[i] != s[j]
  }

  /** The walk's bookkeeping agrees with what it printed: one line per block, no block
      twice, every block an inode of the table, and a block marked exactly when it was
      printed. */
  ghost predicate Consistent(fs: Fs, w: Walk) {
    && w.Walk? && |w.visited| == TableSize(fs) && |w.order| == |w.rows|
    && Distinct(w.order)
    && (forall k :: 0 <= k < |w.order| ==> InInodes(fs, w.order[k]) && Describes(fs, w.order[k], w.rows[k]))
    && (forall i :: 0 <= i < |w.visited| ==> (w.visited[i] <==> Geom(fs).InodeStart() + i in w.order))
  }

  /** r extends w: it keeps its marks and continues its lines. */
  predicate Extends(w: Walk, r: Walk) {
    w.Walk? && r.Walk? && Grows(w.visited, r.visited) && w.order <= r.order && w.rows <= r.rows
  }

  /** The visited entry of a printed block is marked. */
  lemma Marked(fs: Fs, w: Walk, b: int)
    requires Consistent(fs, w) && b in w.order
    ensures 0 <= Index(fs, b) < |w.visited| && w.visited[Index(fs, b)]
  {
    var k :| 0 <= k < |w.order| && w.order[k] == b;
    assert InInodes(fs, w.order[k]);
  }

  /** Printing a block for the first time keeps the bookkeeping consistent. */
  lemma PrintOne(fs: Fs, b: int, depth: nat, w: Walk)
    requires Consistent(fs, w) && 0 <= Index(fs, b) < |w.visited| && !w.visited[Index(fs, b)] && InRange(fs, b)
    ensures var n := InodeAt(fs, b);
      var w' := Walk(w.visited[Index(fs, b) := true], w.order + [b], w.rows + [Row(depth, NameText(n.name), IsDir(n))]);
      Consistent(fs, w') && Extends(w, w')
  {
    var n := InodeAt(fs, b);
    var k := Index(fs, b);
    var w' := Walk(w.visited[k := true], w.order + [b], w.rows + [Row(depth, NameText(n.name), IsDir(n))]);
    assert b !in w.order;
    forall i | 0 <= i < |w'.visited|
      ensures w'.visited[i] <==> Geom(fs).InodeStart() + i in w'.order
    {
      assert w'.visited[i] == (i == k || w.visited[i]);
    }
    forall j | 0 <= j < |w'.order|
      ensures InInodes(fs, w'.order[j]) && Describes(fs, w'.order[j], w'.rows[j])
    {
      if j < |w.order| {
        assert w'.order[j] == w.order[j] && w'.rows[j] == w.rows[j];
      }
    }
  }

  lemma ExtendsTrans(a: Walk, b: Walk, c: Walk)
    requires Extends(a, b) && Extends(b, c)
    ensures Extends(a, c)
  {
  }

  /** print_tree keeps the bookkeeping consistent, only adds to the walk, and leaves
      the block it was given marked. */
  lemma {:induction false} TreeKeeps(fs: Fs, b: int, depth: nat, w: Walk)
    requires Consistent(fs, w)
    ensures var r := PrintTree(fs, b, depth, w);
      r.Walk? ==> Consistent(fs, r) && Extends(w, r) && b in r.order
    decreases Unvisited(w.visited), 0, 0
  {
    var k := Index(fs, b);
    if 0 <= k < |w.visited| {
      if w.visited[k] {
        assert Geom(fs).InodeStart() + k in w.order;
      } else if InRange(fs, b) {
        var n := InodeAt(fs, b);
        MarkFewer(w.visited, k);
        PrintOne(fs, b, depth, w);
        var w' := Walk(w.visited[k := true], w.order + [b], w.rows + [Row(depth, NameText(n.name), IsDir(n))]);
        assert b in w'.order;
        if IsDir(n) {
          ChildrenKeep(fs, n.direct, 0, depth + 1, w');
          var r := PrintChildren(fs, n.direct, 0, depth + 1, w');
          if r.Walk? {
            ExtendsTrans(w, w', r);
            assert w'.order <= r.order;
            assert w'.order[|w.order|] == b;
          }
        }
      }
    }
  }

  lemma {:induction false} ChildrenKeep(fs: Fs, d: Direct, i: nat, depth: nat, w: Walk)
    requires i <= 900 && Consistent(fs, w)
    ensures var r := PrintChildren(fs, d, i, depth, w);
      r.Walk? ==> Consistent(fs, r) && Extends(w, r)
    decreases Unvisited(w.visited), 1, 900 - i
  {
    if i < 900 {
      if d[i] == NoBlock {
        ChildrenKeep(fs, d, i + 1, depth, w);
      } else {
        TreeKeeps(fs, d[i], depth, w);
        var r := PrintTree(fs, d[i], depth, w);
        if r.Walk? {
          ChildrenKeep(fs, d, i + 1, depth, r);
          var r' := PrintChildren(fs, d, i + 1, depth, r);
          if r'.Walk? {
            ExtendsTrans(w, r, r');
          }
        }
      }
    }
  }

  /** The lines print_tree adds for block b at depth d are at depth d or deeper, and
      only the first, the line of b itself, is at depth d. */
  lemma {:induction false} TreeDepths(fs: Fs, b: int, depth: nat, w: Walk)
    requires w.Walk? && |w.order| == |w.rows|
    ensures var r := PrintTree(fs, b, depth, w);
      r.Walk? ==>
        && |r.order| == |r.rows| && w.order <= r.order && w.rows <= r.rows
        && forall k :: |w.rows| <= k < |r.rows| ==>
             depth <= r.rows[k].depth && (r.rows[k].depth == depth ==> k == |w.rows| && r.order[k] == b)
    decreases Unvisited(w.visited), 0, 0
  {
    var k := Index(fs, b);
    if 0 <= k < |w.visited| && !w.visited[k] && InRange(fs, b) {
      var n := InodeAt(fs, b);
      MarkFewer(w.visited, k);
      var w' := Walk(w.visited[k := true], w.order + [b], w.rows + [Row(depth, NameText(n.name), IsDir(n))]);
      if IsDir(n) {
        ChildrenDepths(fs, n.direct, 0, depth + 1, w');
      }
    }
  }

  /** The lines the slot loop adds at depth d are at depth d or deeper. */
  lemma {:induction false} ChildrenDepths(fs: Fs, d: Direct, i: nat, depth: nat, w: Walk)
    requires i <= 900 && w.Walk? && |w.order| == |w.rows|
    ensures var r := PrintChildren(fs, d, i, depth, w);
      r.Walk? ==>
        && |r.order| == |r.rows| && w.order <= r.order && w.rows <= r.rows
        && forall k :: |w.rows| <= k < |r.rows| ==> depth <= r.rows[k].depth
    decreases Unvisited(w.visited), 1, 900 - i
  {
    if i < 900 {
      if d[i] == NoBlock {
        ChildrenDepths(fs, d, i + 1, depth, w);
      } else {
        TreeDepths(fs, d[i], depth, w);
        var r := PrintTree(fs, d[i], depth, w);
        if r.Walk? {
          ChildrenDepths(fs, d, i + 1, depth, r);
        }
      }
    }
  }

  /** Every listed slot of block b, when b is a directory, names a printed block. */
  ghost predicate Closed(fs: Fs, b: int, w: Walk)
    requires w.Walk?
  {
    InRange(fs, b) && (IsDir(InodeAt(fs, b)) ==>
      forall j :: 0 <= j < 900 && InodeAt(fs, b).direct[j] != NoBlock ==> InodeAt(fs, b).direct[j] in w.order)
  }

  /** The blocks printed from position lo on have all their children printed. */
  ghost predicate ClosedFrom(fs: Fs, w: Walk, lo: nat)
    requires w.Walk?
  {
    forall k :: lo <= k < |w.order| ==> Closed(fs, w.order[k], w)
  }

  lemma ClosedGrows(fs: Fs, w: Walk, r: Walk, lo: nat)
    requires w.Walk? && r.Walk? && w.order <= r.order && ClosedFrom(fs, w, lo)
    ensures forall k :: lo <= k < |w.order| ==> Closed(fs, r.order[k], r)
  {
    forall k | lo <= k < |w.order|
      ensures Closed(fs, r.order[k], r)
    {
      assert r.order[k] == w.order[k];
      assert Closed(fs, w.order[k], w);
    }
  }

  /** Every directory print_tree prints has all its children printed by the time it
      returns. */
  lemma {:induction false} TreeCloses(fs: Fs, b: int, depth: nat, w: Walk)
    requires Consistent(fs, w)
    ensures var r := PrintTree(fs, b, depth, w);
      r.Walk? ==> ClosedFrom(fs, r, |w.order|)
    decreases Unvisited(w.visited), 0, 0
  {
    var k := Index(fs, b);
    if 0 <= k < |w.visited| && !w.visited[k] && InRange(fs, b) {
      var n := InodeAt(fs, b);
      MarkFewer(w.visited, k);
      PrintOne(fs, b, depth, w);
      var w' := Walk(w.visited[k := true], w.order + [b], w.rows + [Row(depth, NameText(n.name), IsDir(n))]);
      if IsDir(n) {
        ChildrenClose(fs, n.direct, 0, depth + 1, w');
        ChildrenKeep(fs, n.direct, 0, depth + 1, w');
        var r := PrintChildren(fs, n.direct, 0, depth + 1, w');
        if r.Walk? {
          assert r.order[|w.order|] == w'.order[|w.order|] == b;
          assert Closed(fs, b, r);
        }
      }
    }
  }

  lemma {:induction false} ChildrenClose(fs: Fs, d: Direct, i: nat, depth: nat, w: Walk)
    requires i <= 900 && Consistent(fs, w)
    ensures var r := PrintChildren(fs, d, i, depth, w);
      r.Walk? ==> ClosedFrom(fs, r, |w.order|) && forall j :: i <= j < 900 && d[j] != NoBlock ==> d[j] in r.order
    decreases Unvisited(w.visited), 1, 900 - i
  {
    if i < 900 {
      if d[i] == NoBlock {
        ChildrenClose(fs, d, i + 1, depth, w);
      } else {
        TreeKeeps(fs, d[i], depth, w);
        TreeCloses(fs, d[i], depth, w);
        var r := PrintTree(fs, d[i], depth, w);
        if r.Walk? {
          ChildrenKeep(fs, d, i + 1, depth, r);
          ChildrenClose(fs, d, i + 1, depth, r);
          var r' := PrintChildren(fs, d, i + 1, depth, r);
          if r'.Walk? {
            ClosedGrows(fs, r, r', |w.order|);
            assert d[i] in r'.order;
          }
        }
      }
    }
  }

  // ---------------------------------------------------------------------------
  // The walk cannot go astray in a tidy container

  lemma {:induction false} TreeSafe(fs: Fs, b: int, depth: nat, w: Walk)
    requires WellFormed(fs) && Tidy(fs) && Consistent(fs, w) && InInodes(fs, b)
    ensures PrintTree(fs, b, depth, w).Walk?
    decreases Unvisited(w.visited), 0, 0
  {
    var k := Index(fs, b);
    if !w.visited[k] {
      var n := InodeAt(fs, b);
      MarkFewer(w.visited, k);
      PrintOne(fs, b, depth, w);
      var w' := Walk(w.visited[k := true], w.order + [b], w.rows + [Row(depth, NameText(n.name), IsDir(n))]);
      if IsDir(n) {
        ChildrenSafe(fs, n.direct, 0, depth + 1, w');
      }
    }
  }

  lemma {:induction false} ChildrenSafe(fs: Fs, d: Direct, i: nat, depth: nat, w: Walk)
    requires WellFormed(fs) && Tidy(fs) && Consistent(fs, w) && i <= 900 && SlotsTidy(fs, d)
    ensures PrintChildren(fs, d, i, depth, w).Walk?
    decreases Unvisited(w.visited), 1, 900 - i
  {
    if i < 900 {
      if d[i] == NoBlock {
        ChildrenSafe(fs, d, i + 1, depth, w);
      } else {
        TreeSafe(fs, d[i], depth, w);
        TreeKeeps(fs, d[i], depth, w);
        ChildrenSafe(fs, d, i + 1, depth, PrintTree(fs, d[i], depth, w));
      }
    }
  }

  lemma {:induction false} RootsSafe(fs: Fs, i: nat, w: Walk, found: bool)
    requires WellFormed(fs) && Tidy(fs) && Consistent(fs, w)
    ensures Roots(fs, i, w, found).walk.Walk?
    decreases Geom(fs).nbi - i
  {
    if i < Geom(fs).nbi {
      var b := Geom(fs).InodeStart() + i;
      if IsRoot(InodeAt(fs, b)) {
        TreeSafe(fs, b, 0, w);
        TreeKeeps(fs, b, 0, w);
        RootsSafe(fs, i + 1, PrintTree(fs, b, 0, w), true);
      } else {
        RootsSafe(fs, i + 1, w, found);
      }
    }
  }

  /** tree cannot fault on a well-formed container whose directories list only inodes. */
  lemma TreeTotal(fs: Fs)
    requires WellFormed(fs) && Tidy(fs)
    ensures CmdTree(fs).Ok?
  {
    RootsSafe(fs, 0, Start(fs), false);
  }

  // ---------------------------------------------------------------------------
  // What cmd_tree prints

  /** Inode i of the table is a root. */
  predicate RootAt(fs: Fs, i: int) {
    InRange(fs, Geom(fs).InodeStart() + i) && IsRoot(InodeAt(fs, Geom(fs).InodeStart() + i))
  }

  /** Every line at depth 0 is the line of a root. */
  ghost predicate TopRows(fs: Fs, w: Walk)
    requires w.Walk?
  {
    forall k :: 0 <= k < |w.rows| && k < |w.order| && w.rows[k].depth == 0 ==>
      InRange(fs, w.order[k]) && IsRoot(InodeAt(fs, w.order[k]))
  }

  /** What the root loop keeps of the walk: consistent bookkeeping, every printed
      directory with its children printed, and depth 0 only for roots. */
  ghost predicate WalkInv(fs: Fs, w: Walk) {
    Consistent(fs, w) && ClosedFrom(fs, w, 0) && TopRows(fs, w)
  }

  /** What the root loop knows after the first i inodes of the table: whether a root was
      met, and that every root met is printed. */
  ghost predicate FoundInv(fs: Fs, i: int, w: Walk, found: bool)
    requires w.Walk?
  {
    && found == AnyRoot(fs, i)
    && (forall j :: 0 <= j < i && RootAt(fs, j) ==> Geom(fs).InodeStart() + j in w.order)
  }

  /** One of the first i inodes of the table is a root. */
  predicate AnyRoot(fs: Fs, i: int)
    decreases i
  {
    i > 0 && (AnyRoot(fs, i - 1) || RootAt(fs, i - 1))
  }

  lemma {:induction false} AnyRootExists(fs: Fs, i: int)
    ensures AnyRoot(fs, i) <==> exists j :: 0 <= j < i && RootAt(fs, j)
    decreases i
  {
    if i > 0 {
      AnyRootExists(fs, i - 1);
      if exists j :: 0 <= j < i && RootAt(fs, j) {
        var j :| 0 <= j < i && RootAt(fs, j);
        assert j == i - 1 || AnyRoot(fs, i - 1);
      }
    }
  }

  /** Printing the tree of a root keeps the walk's invariant. */
  lemma RootPrinted(fs: Fs, b: int, w: Walk)
    requires WalkInv(fs, w) && InRange(fs, b) && IsRoot(InodeAt(fs, b))
    requires PrintTree(fs, b, 0, w).Walk?
    ensures WalkInv(fs, PrintTree(fs, b, 0, w))
  {
    TreeKeeps(fs, b, 0, w);
    TreeCloses(fs, b, 0, w);
    TreeDepths(fs, b, 0, w);
    var r := PrintTree(fs, b, 0, w);
    ClosedGrows(fs, w, r, 0);
    forall k | 0 <= k < |r.rows| && k < |r.order| && r.rows[k].depth == 0
      ensures InRange(fs, r.order[k]) && IsRoot(InodeAt(fs, r.order[k]))
    {
      if k < |w.rows| {
        assert r.rows[k] == w.rows[k] && r.order[k] == w.order[k];
      }
    }
  }

  lemma {:induction false} RootsWalk(fs: Fs, i: nat, w: Walk, found: bool) returns (f: Forest)
    requires WalkInv(fs, w)
    ensures f == Roots(fs, i, w, found)
    ensures f.walk.Walk? ==> WalkInv(fs, f.walk)
    decreases Geom(fs).nbi - i
  {
    f := Roots(fs, i, w, found);
    if i < Geom(fs).nbi {
      var b := Geom(fs).InodeStart() + i;
      if InRange(fs, b) {
        if IsRoot(InodeAt(fs, b)) {
          var r := PrintTree(fs, b, 0, w);
          if r.Walk? {
            RootPrinted(fs, b, w);
            f := RootsWalk(fs, i + 1, r, true);
          }
        } else {
          f := RootsWalk(fs, i + 1, w, found);
        }
      }
    }
  }

  /** Printing the tree of root i records it as met and printed. */
  lemma RootMet(fs: Fs, i: nat, w: Walk, found: bool)
    requires Consistent(fs, w) && FoundInv(fs, i, w, found) && RootAt(fs, i)
    requires PrintTree(fs, Geom(fs).InodeStart() + i, 0, w).Walk?
    ensures FoundInv(fs, i + 1, PrintTree(fs, Geom(fs).InodeStart() + i, 0, w), true)
  {
    var b := Geom(fs).InodeStart() + i;
    TreeKeeps(fs, b, 0, w);
  }

  /** Passing an inode that is no root keeps the invariant one step further. */
  lemma NonRootMet(fs: Fs, i: nat, w: Walk, found: bool)
    requires w.Walk? && FoundInv(fs, i, w, found) && !RootAt(fs, i)
    ensures FoundInv(fs, i + 1, w, found)
  {
    assert AnyRoot(fs, i + 1) == AnyRoot(fs, i);
  }

  lemma {:induction false} RootsFound(fs: Fs, i: nat, w: Walk, found: bool) returns (f: Forest)
    requires Consistent(fs, w) && FoundInv(fs, i, w, found) && i <= TableSize(fs)
    ensures f == Roots(fs, i, w, found)
    ensures f.walk.Walk? ==> FoundInv(fs, TableSize(fs), f.walk, f.found)
    decreases Geom(fs).nbi - i
  {
    f := Roots(fs, i, w, found);
    if i < Geom(fs).nbi {
      var b := Geom(fs).InodeStart() + i;
      if InRange(fs, b) {
        if IsRoot(InodeAt(fs, b)) {
          var r := PrintTree(fs, b, 0, w);
          if r.Walk? {
            RootMet(fs, i, w, found);
            TreeKeeps(fs, b, 0, w);
            f := RootsFound(fs, i + 1, r, true);
          }
        } else {
          NonRootMet(fs, i, w, found);
          f := RootsFound(fs, i + 1, w, found);
        }
      }
    } else {
      assert i == TableSize(fs);
    }
  }

  /** When tree succeeds it changes nothing and gives 0, or 1 exactly when the table
      holds no root; it prints every root directory of the table, and with every
      directory it prints, every block its slots list; no block is printed twice, each
      line carries the name and folder mark of its block, and the lines at depth 0 are
      exactly lines of roots. */
  lemma TreeSpec(fs: Fs)
    requires CmdTree(fs).Ok?
    ensures var w := Visit(fs).walk;
      var r := CmdTree(fs);
      && r.fs == fs && r.v.rows == w.rows && (r.v.code == 0 || r.v.code == 1)
      && Consistent(fs, w) && ClosedFrom(fs, w, 0) && TopRows(fs, w)
      && (forall j :: 0 <= j < Geom(fs).nbi && RootAt(fs, j) ==> Geom(fs).InodeStart() + j in w.order)
      && (r.v.code == 1 <==> forall j :: 0 <= j < Geom(fs).nbi ==> !RootAt(fs, j))
  {
    var f := RootsWalk(fs, 0, Start(fs), false);
    f := RootsFound(fs, 0, Start(fs), false);
    AnyRootExists(fs, TableSize(fs));
  }
}
