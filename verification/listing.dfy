/** `cmd_find` (src/cmd_find.c): print the name of every entry of the inode table that
    passes the filters, in table order.

    An entry is considered when it exists, may be read and holds no lock (the same test
    grep makes). The optional filters then drop directories for type "f" and files for
    type "d", entries whose name does not contain the pattern (`strstr`), and, when a
    positive number of days and a date field are given, entries whose chosen time is
    more than that many days before now. The clock is a parameter. The command always
    gives 0.
 */
module Find {
  import opened Codec
  import opened Blocks
  import opened Container
  import opened Paths
  import opened Entries
  import opened Grep
  import opened Selection

  /** The options: a type, a name pattern, a number of days and a date field, each of
      the C strings possibly NULL. */
  datatype Query = Query(kind: Arg, pattern: Arg, days: i32, field: Arg)

  function KindFile(): CStr { [102] }
  function KindDir(): CStr { [100] }
  function FieldCtime(): CStr { [99, 116, 105, 109, 101] }
  function FieldMtime(): CStr { [109, 116, 105, 109, 101] }
  function FieldAtime(): CStr { [97, 116, 105, 109, 101] }

  const DaySeconds := 86400
  const IntMax := 0x7fff_ffff

  /** The type filter, as the code tests it: "f" drops directories, "d" drops files,
      any other type drops nothing. */
  predicate KindPasses(q: Query, n: Inode) {
    !(q.kind.Given? && ((q.kind.s == KindFile() && IsDir(n)) || (q.kind.s == KindDir() && !IsDir(n))))
  }

  /** The name filter: `strstr(filename, pattern)` must find the pattern. */
  predicate NamePasses(q: Query, n: Inode) {
    q.pattern.Null? || Search(NameText(n.name), q.pattern.s, 0)
  }

  /** The date filter is applied. */
  predicate Dated(q: Query) {
    q.days > 0 && q.field.Given?
  }

  /** The time the date filter compares: the field named, 0 for an unknown name. */
  function Stamp(q: Query, n: Inode): int
    requires q.field.Given?
  {
    if q.field.s == FieldCtime() then n.ctime
    else if q.field.s == FieldMtime() then n.mtime
    else if q.field.s == FieldAtime() then n.atime
    else 0
  }

  /** `days * 24 * 60 * 60` is computed in `int` and overflows past 24855 days. */
  predicate Overflows(q: Query) {
    Dated(q) && q.days * DaySeconds > IntMax
  }

  /** The inode gets as far as the date filter. */
  predicate Reaches(q: Query, n: Inode) {
    Searched(n) && KindPasses(q, n) && NamePasses(q, n)
  }

  /** The inode is printed. */
  predicate Shown(fs: Fs, b: int, q: Query, now: int) {
    && InRange(fs, b) && Reaches(q, InodeAt(fs, b))
    && (Dated(q) ==> now - Stamp(q, InodeAt(fs, b)) <= q.days * DaySeconds)
  }

  /** Inode block b can be visited: it lies in the container, and it does not reach the
      overflowing date computation. */
  predicate Visited(fs: Fs, b: int, q: Query) {
    InRange(fs, b) && !(Reaches(q, InodeAt(fs, b)) && Overflows(q))
  }

  function Safe(fs: Fs, q: Query): int -> bool { b => Visited(fs, b, q) }
  function Keep(fs: Fs, q: Query, now: int): int -> bool { b => Shown(fs, b, q, now) }
  function Names(fs: Fs): int -> seq<byte> { b => NameOf(fs, b) }

  /** `cmd_find(type, name, days, date_type)` at time now: the names printed, in table
      order. */
  function CmdFind(fs: Fs, q: Query, now: int): Res<seq<seq<byte>>> {
    var g := Geom(fs);
    var s := Scan(Safe(fs, q), Keep(fs, q, now), Names(fs), g.InodeStart(), g.DataStart());
    if s.Stuck? then Fault else Ok(fs, s.items)
  }

  /** The filters as the documentation of find states them: a live, readable, unlocked
      entry, of the requested type, whose name contains the pattern, and whose chosen
      time is at most the given number of days old. */
  predicate Matches(fs: Fs, b: int, q: Query, now: int) {
    && InRange(fs, b)
    && var n := InodeAt(fs, b);
    && Exists(n) && Has(n.flags, FlagRead) && !Has(n.flags, FlagReadLock) && !Has(n.flags, FlagWriteLock)
    && (q.kind == Given(KindFile()) ==> !IsDir(n))
    && (q.kind == Given(KindDir()) ==> IsDir(n))
    && (q.pattern.Given? ==> Occurs(q.pattern.s, NameText(n.name)))
    && (Dated(q) ==> now - Stamp(q, n) <= q.days * DaySeconds)
  }

  lemma MatchesIffShown(fs: Fs, b: int, q: Query, now: int)
    ensures Matches(fs, b, q, now) <==> Shown(fs, b, q, now)
  {
    if InRange(fs, b) && q.pattern.Given? {
      SearchFinds(NameText(InodeAt(fs, b).name), q.pattern.s, 0);
    }
  }

  /** find faults only when an inode of the table lies outside the container or reaches
      the overflowing date filter; otherwise it leaves the container as it was and prints
      exactly the names of the matching entries. */
  lemma FindSpec(fs: Fs, q: Query, now: int)
    ensures var g := Geom(fs);
      var r := CmdFind(fs, q, now);
      && (r.Ok? <==> forall b :: g.InodeStart() <= b < g.DataStart() ==> Visited(fs, b, q))
      && (r.Ok? ==> r.fs == fs)
      && (r.Ok? ==> forall x :: x in r.v <==> exists b :: g.InodeStart() <= b < g.DataStart() && Matches(fs, b, q, now) && NameOf(fs, b) == x)
  {
    var g := Geom(fs);
    var safe := Safe(fs, q);
    var keep := Keep(fs, q, now);
    var name := Names(fs);
    ScanSelects(safe, keep, name, g.InodeStart(), g.DataStart());
    SelectMembers(keep, name, g.InodeStart(), g.DataStart());
    forall b ensures safe(b) == Visited(fs, b, q) {
    }
    var r := CmdFind(fs, q, now);
    if r.Ok? {
      forall x | x in r.v
        ensures exists b :: g.InodeStart() <= b < g.DataStart() && Matches(fs, b, q, now) && NameOf(fs, b) == x
      {
        var b :| g.InodeStart() <= b < g.DataStart() && keep(b) && name(b) == x;
        MatchesIffShown(fs, b, q, now);
      }
      forall x | exists b :: g.InodeStart() <= b < g.DataStart() && Matches(fs, b, q, now) && NameOf(fs, b) == x
        ensures x in r.v
      {
        var b :| g.InodeStart() <= b < g.DataStart() && Matches(fs, b, q, now) && NameOf(fs, b) == x;
        MatchesIffShown(fs, b, q, now);
        assert keep(b) && name(b) == x;
      }
    }
  }

  /** Without a usable date filter find cannot fault on a well-formed container. */
  lemma FindTotal(fs: Fs, q: Query, now: int)
    requires WellFormed(fs) && !Overflows(q)
    ensures CmdFind(fs, q, now).Ok?
  {
    var g := Geom(fs);
    ScanSelects(Safe(fs, q), Keep(fs, q, now), Names(fs), g.InodeStart(), g.DataStart());
  }

  /** A date filter of more than 24855 days overflows as soon as one inode reaches it. */
  lemma FindOverflowFaults(fs: Fs, q: Query, now: int, b: int)
    requires Dated(q) && q.days >= 24856
    requires Geom(fs).InodeStart() <= b < Geom(fs).DataStart() && InRange(fs, b) && Reaches(q, InodeAt(fs, b))
    ensures CmdFind(fs, q, now).Fault?
  {
    var g := Geom(fs);
    ScanSelects(Safe(fs, q), Keep(fs, q, now), Names(fs), g.InodeStart(), g.DataStart());
    assert q.days * DaySeconds > IntMax;
    assert !Safe(fs, q)(b);
  }
}

/** `cmd_ls` (src/cmd_ls.c): list the root, a folder or a file.

    Without a path every live depth-0 inode of the table is listed, with no permission
    test. With a path, a folder path (one ending in '/') is resolved with
    `find_inode_folder`, any other path with the file lookup of the commands; a missing
    entry gives 1. The target must then be readable and unlocked, else 1. A folder lists
    its live children in slot order, a file lists itself. Without an argument each entry
    is printed as its name, '/' added for folders; with "-l" as the long form of
    `print_ls`; with any other argument nothing is printed.
 */
module Ls {
  import opened Codec
  import opened Blocks
  import opened Container
  import opened Paths
  import opened Entries
  import opened Directories
  import opened Lookup
  import opened Selection

  /** One printed entry: its name with the folder mark, or the long form with the
      permission string, the size and the modification time. */
  datatype Line =
    | Short(name: seq<byte>, dir: bool)
    | Long(perm: seq<byte>, size: u32, mtime: u32, name: seq<byte>, dir: bool)

  /** How the argument asks entries to be printed. */
  datatype Style = Names | Details | Quiet

  function OptionLong(): CStr { [45, 108] }

  function StyleOf(arg: Arg): Style {
    if arg.Null? then Names else if arg.s == OptionLong() then Details else Quiet
  }

  const CharR: byte := 114
  const CharW: byte := 119
  const CharL: byte := 108
  const CharDash: byte := 45

  function Mark(f: bv32, bit: bv32, c: byte): byte {
    if Has(f, bit) then c else CharDash
  }

  /** The permission string of `print_ls`. */
  function Perm(f: bv32): (p: seq<byte>)
    ensures |p| == 4
  {
    [Mark(f, FlagRead, CharR), Mark(f, FlagWrite, CharW), Mark(f, FlagReadLock, CharL), Mark(f, FlagWriteLock, CharL)]
  }

  /** The four characters say which of bits 1 to 4 are set: a letter for a set bit,
      '-' for a clear one. */
  lemma PermSpec(f: bv32)
    ensures var p := Perm(f);
      && (p[0] == CharR <==> Has(f, FlagRead)) && (p[0] == CharDash <==> !Has(f, FlagRead))
      && (p[1] == CharW <==> Has(f, FlagWrite)) && (p[1] == CharDash <==> !Has(f, FlagWrite))
      && (p[2] == CharL <==> Has(f, FlagReadLock)) && (p[2] == CharDash <==> !Has(f, FlagReadLock))
      && (p[3] == CharL <==> Has(f, FlagWriteLock)) && (p[3] == CharDash <==> !Has(f, FlagWriteLock))
  {
  }

  function LineOf(n: Inode, st: Style): Line {
    if st == Details then Long(Perm(n.flags), n.size, n.mtime, NameText(n.name), IsDir(n))
    else Short(NameText(n.name), IsDir(n))
  }

  function LineAt(fs: Fs, b: int, st: Style): Line {
    if InRange(fs, b) then LineOf(InodeAt(fs, b), st) else Short([], false)
  }

  /** What ls gives: the exit code and the entries printed. */
  datatype Listing = Listing(code: int, lines: seq<Line>)

  /** A root entry: live and at depth 0. */
  predicate AtRoot(fs: Fs, b: int) {
    InRange(fs, b) && Exists(InodeAt(fs, b)) && InodeAt(fs, b).depth == 0
  }

  /** Slot k of d lists a live inode of the container. */
  predicate LiveSlot(fs: Fs, d: Direct, k: int) {
    0 <= k < 900 && d[k] != NoBlock && InRange(fs, d[k]) && Exists(InodeAt(fs, d[k]))
  }

  /** Slot k of d can be followed: it is empty or points into the container. */
  predicate SlotReadable(fs: Fs, d: Direct, k: int) {
    0 <= k < 900 && (d[k] == NoBlock || InRange(fs, d[k]))
  }

  function InFs(fs: Fs): int -> bool { b => InRange(fs, b) }
  function RootKeep(fs: Fs, st: Style): int -> bool { b => st != Quiet && AtRoot(fs, b) }
  function RootLine(fs: Fs, st: Style): int -> Line { b => LineAt(fs, b, st) }
  function SlotSafe(fs: Fs, d: Direct): int -> bool { k => SlotReadable(fs, d, k) }
  function SlotKeep(fs: Fs, d: Direct, st: Style): int -> bool { k => st != Quiet && LiveSlot(fs, d, k) }
  function SlotLine(fs: Fs, d: Direct, st: Style): int -> Line {
    k => if 0 <= k < 900 then LineAt(fs, d[k], st) else Short([], false)
  }

  function RootListing(fs: Fs, st: Style): Res<Listing> {
    var g := Geom(fs);
    var s := Scan(InFs(fs), RootKeep(fs, st), RootLine(fs, st), g.InodeStart(), g.DataStart());
    if s.Stuck? then Fault else Ok(fs, Listing(0, s.items))
  }

  function FolderListing(fs: Fs, d: Direct, st: Style): Res<Listing> {
    var s := Scan(SlotSafe(fs, d), SlotKeep(fs, d, st), SlotLine(fs, d, st), 0, 900);
    if s.Stuck? then Fault else Ok(fs, Listing(0, s.items))
  }

  /** The permission gate of a named target: readable and neither lock held. */
  predicate Viewable(n: Inode) {
    Has(n.flags, FlagRead) && !Has(n.flags, FlagReadLock) && !Has(n.flags, FlagWriteLock)
  }

  /** The target found, listed: 1 when the gate refuses it. */
  function Show(fs: Fs, b: int, st: Style): Res<Listing>
    requires InRange(fs, b)
  {
    var n := InodeAt(fs, b);
    if !Viewable(n) then Ok(fs, Listing(1, []))
    else if IsDir(n) then FolderListing(fs, n.direct, st)
    else Ok(fs, Listing(0, if st == Quiet then [] else [LineOf(n, st)]))
  }

  /** The block a named path lists, or -1. A folder path is resolved as a folder, any
      other path as a file. */
  function Target(fs: Fs, path: CStr): Res<int>
    requires ParentFits(path)
  {
    var s := SplitPath(path);
    if IsFolderPath(s.parent, s.name) then FindInodeFolder(fs, s.parent)
    else FindFile(fs, s.parent, s.name)
  }

  /** `cmd_ls(filename, argument)`. */
  function CmdLs(fs: Fs, path: Arg, arg: Arg): (r: Res<Listing>) {
    var st := StyleOf(arg);
    if path.Null? then RootListing(fs, st)
    else if !ParentFits(path.s) then Fault
    else
      var t := Target(fs, path.s);
      if !t.Ok? then Fault
      else if t.v == -1 then Ok(fs, Listing(1, []))
      else Show(fs, t.v, st)
  }

  /** Without a path, ls lists exactly the live depth-0 entries of the table (each in
      the form the argument asks for), gives 0 and changes nothing; it faults only when
      the table runs past the container. */
  lemma LsRootSpec(fs: Fs, arg: Arg)
    ensures var g := Geom(fs);
      var r := CmdLs(fs, Null, arg);
      && (r.Ok? <==> forall b :: g.InodeStart() <= b < g.DataStart() ==> InRange(fs, b))
      && (r.Ok? ==> r.fs == fs && r.v.code == 0)
      && (r.Ok? && StyleOf(arg) != Quiet ==> forall x :: x in r.v.lines <==>
            exists b :: g.InodeStart() <= b < g.DataStart() && AtRoot(fs, b) && LineAt(fs, b, StyleOf(arg)) == x)
  {
    var g := Geom(fs);
    var st := StyleOf(arg);
    var keep := RootKeep(fs, st);
    var name := RootLine(fs, st);
    ScanSelects(InFs(fs), keep, name, g.InodeStart(), g.DataStart());
    SelectMembers(keep, name, g.InodeStart(), g.DataStart());
    forall b ensures InFs(fs)(b) == InRange(fs, b) {
    }
    var r := CmdLs(fs, Null, arg);
    if r.Ok? && st != Quiet {
      forall x | exists b :: g.InodeStart() <= b < g.DataStart() && AtRoot(fs, b) && LineAt(fs, b, st) == x
        ensures x in r.v.lines
      {
        var b :| g.InodeStart() <= b < g.DataStart() && AtRoot(fs, b) && LineAt(fs, b, st) == x;
        assert keep(b) && name(b) == x;
      }
    }
  }

  /** A folder target faults exactly when a slot points outside the container;
      otherwise it gives 0, changes nothing, and prints nothing in the quiet style. */
  lemma FolderListingTotal(fs: Fs, d: Direct, st: Style)
    ensures var r := FolderListing(fs, d, st);
      && (r.Ok? <==> forall k :: 0 <= k < 900 ==> SlotReadable(fs, d, k))
      && (r.Ok? ==> r.fs == fs && r.v.code == 0 && (st == Quiet ==> r.v.lines == []))
  {
    ScanSelects(SlotSafe(fs, d), SlotKeep(fs, d, st), SlotLine(fs, d, st), 0, 900);
    forall k | 0 <= k < 900
      ensures SlotSafe(fs, d)(k) == SlotReadable(fs, d, k)
    {
    }
    if st == Quiet {
      SelectNone(SlotKeep(fs, d, st), SlotLine(fs, d, st), 0, 900);
    }
  }

  /** Every line a folder target prints is the line of a live child of one of its slots. */
  lemma FolderLineSound(fs: Fs, d: Direct, st: Style, x: Line) returns (k: int)
    requires FolderListing(fs, d, st).Ok? && st != Quiet && x in FolderListing(fs, d, st).v.lines
    ensures 0 <= k < 900 && LiveSlot(fs, d, k) && LineAt(fs, d[k], st) == x
  {
    var keep := SlotKeep(fs, d, st);
    var name := SlotLine(fs, d, st);
    ScanSelects(SlotSafe(fs, d), keep, name, 0, 900);
    k := SelectSource(keep, name, 0, 900, x);
  }

  /** The line of every live child of a slot is printed. */
  lemma FolderLineComplete(fs: Fs, d: Direct, st: Style, k: int)
    requires FolderListing(fs, d, st).Ok? && st != Quiet && LiveSlot(fs, d, k)
    ensures LineAt(fs, d[k], st) in FolderListing(fs, d, st).v.lines
  {
    var keep := SlotKeep(fs, d, st);
    var name := SlotLine(fs, d, st);
    ScanSelects(SlotSafe(fs, d), keep, name, 0, 900);
    assert keep(k) && name(k) == LineAt(fs, d[k], st);
    SelectComplete(keep, name, 0, 900, k);
  }

  /** A folder target lists exactly the live children of its slots. */
  lemma FolderListingMembers(fs: Fs, d: Direct, st: Style)
    requires FolderListing(fs, d, st).Ok? && st != Quiet
    ensures forall x :: x in FolderListing(fs, d, st).v.lines <==>
      exists k :: 0 <= k < 900 && LiveSlot(fs, d, k) && LineAt(fs, d[k], st) == x
  {
    var lines := FolderListing(fs, d, st).v.lines;
    forall x | x in lines
      ensures exists k :: 0 <= k < 900 && LiveSlot(fs, d, k) && LineAt(fs, d[k], st) == x
    {
      var k := FolderLineSound(fs, d, st, x);
    }
    forall x | exists k :: 0 <= k < 900 && LiveSlot(fs, d, k) && LineAt(fs, d[k], st) == x
      ensures x in lines
    {
      var k :| 0 <= k < 900 && LiveSlot(fs, d, k) && LineAt(fs, d[k], st) == x;
      FolderLineComplete(fs, d, st, k);
    }
  }

  /** A named target: 1 exactly when the entry is missing or the gate refuses it, with
      nothing printed and nothing changed; otherwise 0, the target being the folder the
      path names or the file it denotes. */
  lemma LsPathOutcome(fs: Fs, path: CStr, arg: Arg)
    requires CmdLs(fs, Given(path), arg).Ok?
    ensures var r := CmdLs(fs, Given(path), arg);
      var t := Target(fs, path);
      && r.fs == fs && (r.v.code == 0 || r.v.code == 1)
      && (r.v.code == 1 <==> t.v == -1 || !Viewable(InodeAt(fs, t.v)))
      && (r.v.code == 1 ==> r.v.lines == [])
      && (r.v.code == 0 ==>
            var s := SplitPath(path);
            if IsFolderPath(s.parent, s.name) then IsDir(InodeAt(fs, t.v))
            else Denotes(fs, s.parent, s.name, t.v))
  {
    var s := SplitPath(path);
    var t := Target(fs, path);
    if IsFolderPath(s.parent, s.name) {
      if t.v != -1 {
        var _ := FindInodeFolderSound(fs, s.parent);
      }
    } else {
      FindFileSpec(fs, s.parent, s.name);
    }
    if t.v != -1 && Viewable(InodeAt(fs, t.v)) && IsDir(InodeAt(fs, t.v)) {
      FolderListingTotal(fs, InodeAt(fs, t.v).direct, StyleOf(arg));
    }
  }

  /** An argument other than "-l" prints no entry, whatever the path. */
  lemma LsQuiet(fs: Fs, path: Arg, arg: Arg)
    requires arg.Given? && arg.s != OptionLong()
    requires CmdLs(fs, path, arg).Ok?
    ensures CmdLs(fs, path, arg).v.lines == []
  {
    assert StyleOf(arg) == Quiet;
    if path.Null? {
      var g := Geom(fs);
      ScanSelects(InFs(fs), RootKeep(fs, Quiet), RootLine(fs, Quiet), g.InodeStart(), g.DataStart());
      SelectNone(RootKeep(fs, Quiet), RootLine(fs, Quiet), g.InodeStart(), g.DataStart());
    } else {
      var t := Target(fs, path.s);
      if t.v != -1 && Viewable(InodeAt(fs, t.v)) && IsDir(InodeAt(fs, t.v)) {
        FolderListingTotal(fs, InodeAt(fs, t.v).direct, Quiet);
      }
    }
  }
}
