/** `cmd_grep` (src/cmd_grep.c): print the name of every file of the inode table whose
    content contains a pattern.

    The inodes are visited in table order. An inode is searched when it exists, has
    the read bit and neither lock bit; its content is what the direct blocks give
    (the cat loop stopped after `direct_blocks`), cut at `file_size` and read as a C
    string, and the pattern is searched with `strstr`. The command always gives 0.
 */
module Grep {
  import opened Codec
  import opened Blocks
  import opened Container
  import opened Paths
  import opened Entries
  import opened Reading
  import opened Selection

  // ---------------------------------------------------------------------------
  // strstr

  /** The pattern p occurs in h at offset k. */
  predicate At(h: seq<byte>, p: seq<byte>, k: int) {
    0 <= k && k + |p| <= |h| && h[k..k + |p|] == p
  }

  predicate Occurs(p: seq<byte>, h: seq<byte>) {
    exists k :: 0 <= k <= |h| && At(h, p, k)
  }

  /** The scan `strstr` makes: try every offset from i on. */
  function Search(h: seq<byte>, p: seq<byte>, i: nat): bool
    decreases |h| + 1 - i
  {
    if i + |p| > |h| then false else h[i..i + |p|] == p || Search(h, p, i + 1)
  }

  /** The scan from offset i succeeds exactly when the pattern occurs at some offset
      from i on. */
  lemma {:induction false} SearchFinds(h: seq<byte>, p: seq<byte>, i: nat)
    ensures Search(h, p, i) <==> exists k :: i <= k <= |h| && At(h, p, k)
    decreases |h| + 1 - i
  {
    if i + |p| <= |h| {
      SearchFinds(h, p, i + 1);
      if !At(h, p, i) && exists k :: i <= k <= |h| && At(h, p, k) {
        var k :| i <= k <= |h| && At(h, p, k);
        assert i + 1 <= k;
      }
    } else {
      assert forall k :: i <= k ==> !At(h, p, k);
    }
  }

  // ---------------------------------------------------------------------------
  // The scan over the inode table

  /** The flags grep demands: the inode exists, may be read, and holds no lock. */
  predicate Searched(n: Inode) {
    Exists(n) && Has(n.flags, FlagRead) && !Has(n.flags, FlagReadLock) && !Has(n.flags, FlagWriteLock)
  }

  /** The content grep reads: the direct-block part of what cat prints. */
  function Content(fs: Fs, n: Inode): Emit {
    ReadDirect(fs, CatReader, n.direct, 0, Emit([], n.size))
  }

  /** Block b is a searched inode whose content, read as a C string, contains p. */
  predicate Hit(fs: Fs, b: int, p: CStr) {
    && InRange(fs, b) && Searched(InodeAt(fs, b))
    && Content(fs, InodeAt(fs, b)).Emit? && Occurs(p, NameText(Content(fs, InodeAt(fs, b)).out))
  }

  /** The name printed for inode block b. */
  function NameOf(fs: Fs, b: int): seq<byte> {
    if InRange(fs, b) then NameText(InodeAt(fs, b).name) else []
  }

  /** Inode block b can be visited without leaving the container. */
  predicate Visitable(fs: Fs, b: int) {
    InRange(fs, b) && (Searched(InodeAt(fs, b)) ==> Content(fs, InodeAt(fs, b)).Emit?)
  }

  /** The loop from inode i of the table on: the names printed, one per line. */
  function GrepFrom(fs: Fs, p: CStr, i: nat): Res<seq<seq<byte>>>
    decreases Geom(fs).nbi - i
  {
    var g := Geom(fs);
    if i >= g.nbi then Ok(fs, [])
    else
      var b := g.InodeStart() + i;
      if !InRange(fs, b) then Fault
      else
        var n := InodeAt(fs, b);
        if !Searched(n) then GrepFrom(fs, p, i + 1)
        else
          var c := Content(fs, n);
          if c.Stray? then Fault
          else
            var rest := GrepFrom(fs, p, i + 1);
            if !rest.Ok? then rest
            else if Search(NameText(c.out), p, 0) then Ok(fs, [NameOf(fs, b)] + rest.v)
            else rest
  }

  /** `cmd_grep(pattern)`: the names printed; the exit code is always 0. */
  function CmdGrep(fs: Fs, p: CStr): Res<seq<seq<byte>>> {
    GrepFrom(fs, p, 0)
  }

  /** From inode i on, grep succeeds exactly when every inode it visits lies in the
      container and every searched one reads its direct blocks inside it, and then
      leaves the container as it was. */
  lemma {:induction false} GrepFromTotal(fs: Fs, p: CStr, i: nat)
    ensures var r := GrepFrom(fs, p, i);
      && (r.Ok? <==> forall b :: Geom(fs).InodeStart() + i <= b < Geom(fs).DataStart() ==> Visitable(fs, b))
      && (r.Ok? ==> r.fs == fs)
    decreases Geom(fs).nbi - i
  {
    var g := Geom(fs);
    var lo := g.InodeStart() + i;
    if i < g.nbi {
      GrepFromTotal(fs, p, i + 1);
      GrepFromOne(fs, p, i);
      if GrepFrom(fs, p, i).Ok? {
        forall b | lo <= b < g.DataStart()
          ensures Visitable(fs, b)
        {
          if b != lo {
            assert g.InodeStart() + (i + 1) <= b;
          }
        }
      }
    }
  }

  /** One inode of the scan: it succeeds from i exactly when inode i can be visited and
      the scan from i + 1 succeeds, and then changes the container no more than that
      scan does. */
  lemma GrepFromOne(fs: Fs, p: CStr, i: nat)
    requires i < Geom(fs).nbi
    ensures var r := GrepFrom(fs, p, i);
      var s := GrepFrom(fs, p, i + 1);
      && (r.Ok? <==> Visitable(fs, Geom(fs).InodeStart() + i) && s.Ok?)
      && (r.Ok? && s.fs == fs ==> r.fs == fs)
  {
    var lo := Geom(fs).InodeStart() + i;
    if InRange(fs, lo) {
      var n := InodeAt(fs, lo);
      if Searched(n) && !Content(fs, n).Emit? {
        assert !Visitable(fs, lo);
      }
    }
  }

  /** One turn of the loop: a successful scan from inode i prints the name of inode i
      when it is a hit, then what the scan from i + 1 prints. */
  lemma GrepStep(fs: Fs, p: CStr, i: nat)
    requires i < Geom(fs).nbi && GrepFrom(fs, p, i).Ok?
    ensures var lo := Geom(fs).InodeStart() + i;
      var rest := GrepFrom(fs, p, i + 1);
      && InRange(fs, lo) && rest.Ok?
      && GrepFrom(fs, p, i).v == (if Hit(fs, lo, p) then [NameOf(fs, lo)] else []) + rest.v
  {
    var lo := Geom(fs).InodeStart() + i;
    var n := InodeAt(fs, lo);
    if Searched(n) {
      SearchFinds(NameText(Content(fs, n).out), p, 0);
    } else {
      assert !Hit(fs, lo, p);
      assert GrepFrom(fs, p, i).v == [] + GrepFrom(fs, p, i + 1).v;
    }
  }

  /** The reference answer: the names of the hits from inode i on, in table order. */
  function Hits(fs: Fs, p: CStr, i: nat): seq<seq<byte>> {
    Select(b => Hit(fs, b, p), b => NameOf(fs, b), Geom(fs).InodeStart() + i, Geom(fs).DataStart())
  }

  /** When the scan succeeds it prints exactly the reference answer. */
  lemma {:induction false} GrepIsHits(fs: Fs, p: CStr, i: nat)
    requires GrepFrom(fs, p, i).Ok?
    ensures GrepFrom(fs, p, i).v == Hits(fs, p, i)
    decreases Geom(fs).nbi - i
  {
    if i < Geom(fs).nbi {
      GrepStep(fs, p, i);
      GrepIsHits(fs, p, i + 1);
    }
  }

  /** Over a well-formed container grep faults only when a searched inode's direct
      blocks leave the container; otherwise it leaves the container as it was and
      prints a name exactly when it is the name of a hit. */
  lemma GrepSpec(fs: Fs, p: CStr)
    requires WellFormed(fs)
    ensures var r := CmdGrep(fs, p);
      var g := Geom(fs);
      && (r.Ok? <==> forall b :: g.InodeStart() <= b < g.DataStart() && Searched(InodeAt(fs, b)) ==>
                       Content(fs, InodeAt(fs, b)).Emit?)
      && (r.Ok? ==> r.fs == fs && forall name :: name in r.v <==>
            exists b :: Geom(fs).InodeStart() <= b < Geom(fs).DataStart() && Hit(fs, b, p) && NameOf(fs, b) == name)
  {
    var g := Geom(fs);
    GrepFromTotal(fs, p, 0);
    forall b | g.InodeStart() <= b < g.DataStart()
      ensures Visitable(fs, b) <==> (Searched(InodeAt(fs, b)) ==> Content(fs, InodeAt(fs, b)).Emit?)
    {
      assert InRange(fs, b);
    }
    var r := CmdGrep(fs, p);
    if r.Ok? {
      GrepIsHits(fs, p, 0);
      var keep := b => Hit(fs, b, p);
      var name := b => NameOf(fs, b);
      SelectMembers(keep, name, g.InodeStart(), g.DataStart());
      forall x
        ensures x in r.v <==> exists b :: g.InodeStart() <= b < g.DataStart() && Hit(fs, b, p) && NameOf(fs, b) == x
      {
        if x in r.v {
          var b :| g.InodeStart() <= b < g.DataStart() && keep(b) && name(b) == x;
          assert Hit(fs, b, p) && NameOf(fs, b) == x;
        }
        if exists b :: g.InodeStart() <= b < g.DataStart() && Hit(fs, b, p) && NameOf(fs, b) == x {
          var b :| g.InodeStart() <= b < g.DataStart() && Hit(fs, b, p) && NameOf(fs, b) == x;
          assert keep(b) && name(b) == x;
        }
      }
    }
  }
}
