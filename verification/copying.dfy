/** Copying with `cmd_cp` (src/cmd_cp.c).

    Each path is internal (a path in the container) or external (a host file). An
    internal path is split once; when its last component is empty it names the folder its
    parent resolves to, otherwise the non-directory file the usual lookup finds. Then:
    - internal to external: the file's bytes are read as `copy_fichier_vers_externe`
      reads them and written to a host file; a folder path copies nothing;
    - external to internal: the host file's bytes go into the internal file (or into the
      folder's own inode, for a folder path) through `get_last_data_block_null`, from a
      running total that starts at 0;
    - internal to internal: only a destination folder path copies anything. A file is
      copied by `copy_interne_main` under a fresh inode, a folder by `copy_dossier_main`
      recursively. `copy_interne` gives the copy a fresh block for every block of the
      source: direct blocks at the same slot, a fresh single-indirect table (tag 6) for a
      tag-6 source table, and otherwise a fresh double-indirect table (tag 7) whose entries
      are fresh tag-6 tables.

    The host side is a parameter: what `stat` says about the first path, whether the
    host file can be opened for writing, and the bytes a regular host file holds.
 */
module Cp {
  import opened Codec
  import opened Blocks
  import opened Container
  import opened Paths
  import opened Entries
  import opened Directories
  import opened DirTree
  import opened Lookup
  import opened Allocator
  import opened Reading
  import Resolver
  import Teardown
  import Growth
  import Append
  import Mv

  // ---------------------------------------------------------------------------
  // copy_interne

  /** One block duplicated: `alloc_data_block`, the 4000 bytes of block s copied into
      the new block and the new block's digest computed. Its kind tag is not written. */
  function Dup(fs: Fs, s: int): (r: Res<int>)
    ensures r.Ok? ==> |r.fs.blocks| == |fs.blocks| && InRange(r.fs, r.v)
  {
    var a := AllocDataBlock(fs);
    if !a.Ok? || !InRange(a.fs, a.v) || !InRange(a.fs, s) then Fault
    else Ok(Rehash(SetData(a.fs, a.v, DataAt(a.fs, s)), a.v), a.v)
  }

  /** Inode n with direct slot i set to v. */
  function WithSlot(n: Inode, i: int, v: i32): Inode
    requires 0 <= i < 900
  {
    n.(direct := n.direct[i := v])
  }

  /** `in2->direct_blocks[i] = v` on the inode at block dst. */
  function SetSlot(fs: Fs, dst: int, i: int, v: int): (r: Fs)
    requires InRange(fs, dst) && 0 <= i < 900
    ensures |r.blocks| == |fs.blocks|
  {
    SetInode(fs, dst, WithSlot(InodeAt(fs, dst), i, WrapI32(v)))
  }

  /** `tbl->addresses[i] = v` on the table at block t. */
  function PutEntry(fs: Fs, t: int, i: int, v: int): (r: Fs)
    requires InRange(fs, t) && 0 <= i < 1000
    ensures |r.blocks| == |fs.blocks|
  {
    SetWords(fs, t, WordsAt(fs, t)[i := WrapI32(v)])
  }

  /** The direct-slot loop from slot i: every slot of src other than -1 is duplicated and
      the copy stored in the same slot of dst. */
  function DupDirect(fs: Fs, src: int, dst: int, i: nat): (r: Res<()>)
    requires InRange(fs, src) && InRange(fs, dst) && i <= 900
    ensures r.Ok? ==> |r.fs.blocks| == |fs.blocks|
    decreases 900 - i
  {
    if i == 900 then Ok(fs, ())
    else
      var s := InodeAt(fs, src).direct[i];
      if s == NoBlock then DupDirect(fs, src, dst, i + 1)
      else
        var d := Dup(fs, s);
        if !d.Ok? then Fault
        else DupDirect(SetSlot(d.fs, dst, i, d.v), src, dst, i + 1)
  }

  /** The loop over a table of data blocks from entry i: every entry of table w other
      than -1 is duplicated and the copy stored in the same entry of table t. */
  function DupTable(fs: Fs, w: int, t: int, i: nat): (r: Res<()>)
    requires InRange(fs, w) && InRange(fs, t) && i <= 1000
    ensures r.Ok? ==> |r.fs.blocks| == |fs.blocks|
    decreases 1000 - i
  {
    if i == 1000 then Ok(fs, ())
    else
      var s := WordsAt(fs, w)[i];
      if s == NoBlock then DupTable(fs, w, t, i + 1)
      else
        var d := Dup(fs, s);
        if !d.Ok? then Fault
        else DupTable(PutEntry(d.fs, t, i, d.v), w, t, i + 1)
  }

  /** A fresh block set up as an empty table: every entry -1, then the kind tag. */
  function Blank(fs: Fs, a: int, tag: u32): (r: Fs)
    requires InRange(fs, a)
    ensures |r.blocks| == |fs.blocks|
  {
    SetTag(SetWords(fs, a, Resolver.Unlinked()), a, tag)
  }

  /** One entry s of a double-indirect table: a fresh table tagged 6 whose entries are
      copies of the blocks table s lists. The new table is not yet rehashed. */
  function Branch(fs: Fs, s: int): (r: Res<int>)
    ensures r.Ok? ==> |r.fs.blocks| == |fs.blocks| && InRange(r.fs, r.v)
  {
    var u := AllocDataBlock(fs);
    if !u.Ok? || !InRange(u.fs, u.v) || !InRange(u.fs, s) then Fault
    else
      var c := DupTable(Blank(u.fs, u.v, TagSingle), s, u.v, 0);
      if c.Ok? then Ok(c.fs, u.v) else Fault
  }

  /** The outer loop of the double-indirect copy from entry i: every entry of table w
      other than -1 gets its `Branch`, stored in the same entry of t and rehashed. */
  function DupTables(fs: Fs, w: int, t: int, i: nat): (r: Res<()>)
    requires InRange(fs, w) && InRange(fs, t) && i <= 1000
    ensures r.Ok? ==> |r.fs.blocks| == |fs.blocks|
    decreases 1000 - i
  {
    if i == 1000 then Ok(fs, ())
    else
      var s := WordsAt(fs, w)[i];
      if s == NoBlock then DupTables(fs, w, t, i + 1)
      else
        var b := Branch(fs, s);
        if !b.Ok? then Fault
        else DupTables(Rehash(PutEntry(b.fs, t, i, b.v), b.v), w, t, i + 1)
  }

  /** The new indirect table of dst: taken with `alloc_data_block`, named in dst, cleared
      to -1 and tagged 6 for a single-indirect copy or 7 for a double-indirect one. The
      single-indirect branch also digests the cleared table; both digest dst. */
  function Root(fs: Fs, dst: int, single: bool): (r: Res<int>)
    requires InRange(fs, dst)
    ensures r.Ok? ==> |r.fs.blocks| == |fs.blocks| && InRange(r.fs, r.v)
  {
    var a := AllocDataBlock(fs);
    if !a.Ok? || !InRange(a.fs, a.v) then Fault
    else Ok(Plant(a.fs, dst, a.v, single), a.v)
  }

  /** The writes of `Root` once block a is taken. */
  function Plant(fs: Fs, dst: int, a: int, single: bool): (r: Fs)
    requires InRange(fs, dst) && InRange(fs, a)
    ensures |r.blocks| == |fs.blocks|
  {
    var n := InodeAt(fs, dst);
    var fs1 := SetWords(SetInode(fs, dst, n.(indirect := WrapI32(a))), a, Resolver.Unlinked());
    if single then SetTag(Rehash(Rehash(fs1, a), dst), a, TagSingle)
    else SetTag(Rehash(fs1, dst), a, TagDouble)
  }

  /** The indirect part of `copy_interne`: when src has an indirect table d, a fresh
      table of the same kind (6 when d is tagged 6, 7 otherwise) filled by the matching
      loop and digested. */
  function DupIndirect(fs: Fs, src: int, dst: int): (r: Res<()>)
    requires InRange(fs, src) && InRange(fs, dst)
    ensures r.Ok? ==> |r.fs.blocks| == |fs.blocks|
  {
    var d := InodeAt(fs, src).indirect;
    if d == NoBlock then Ok(fs, ())
    else if !InRange(fs, d) then Fault
    else
      var single := fs.blocks[d].tag == TagSingle;
      var a := Root(fs, dst, single);
      if !a.Ok? then Fault
      else
        var c := if single then DupTable(a.fs, d, a.v, 0) else DupTables(a.fs, d, a.v, 0);
        if !c.Ok? then Fault else Ok(Rehash(c.fs, a.v), ())
  }

  /** `copy_interne(in, in2)` with in at block src and in2 at block dst: the direct
      blocks, then the indirect table. */
  function CopyInterne(fs: Fs, src: int, dst: int): (r: Res<()>)
    requires InRange(fs, src) && InRange(fs, dst)
    ensures r.Ok? ==> |r.fs.blocks| == |fs.blocks|
  {
    var r := DupDirect(fs, src, dst, 0);
    if !r.Ok? then Fault else DupIndirect(r.fs, src, dst)
  }

  // ---------------------------------------------------------------------------
  // copy_interne_main, copy_dossier, copy_dossier_main

  /** `add_inode(dir, b)` followed by the digest of the new inode b; a full directory is
      fatal. */
  function Link(fs: Fs, dir: int, b: int, now: u32): (r: Res<()>)
    requires InRange(fs, dir) && InRange(fs, b)
    ensures r.Ok? ==> |r.fs.blocks| == |fs.blocks|
  {
    var d := AddInode(fs, dir, WrapI32(b), now);
    if d.Exit? then Exit(d.fs) else if !d.Ok? then Fault else Ok(Rehash(d.fs, b), ())
  }

  /** A fresh inode for a copy of the entry at block src below directory dir: taken with
      `alloc_data_block`, given dir's depth plus one and initialised with src's name as a
      file or a directory. The block number comes back with the container. */
  function NewEntry(fs: Fs, src: int, dir: int, isDir: bool, now: u32): (r: Res<int>)
    requires InRange(fs, src) && InRange(fs, dir)
    ensures r.Ok? ==> |r.fs.blocks| == |fs.blocks| && InRange(r.fs, r.v)
  {
    var a := AllocDataBlock(fs);
    if !a.Ok? || !InRange(a.fs, a.v) then Fault
    else Ok(Stamp(a.fs, a.v, src, dir, isDir, now), a.v)
  }

  /** The writes of `NewEntry` once block b is taken. */
  function Stamp(fs: Fs, b: int, src: int, dir: int, isDir: bool, now: u32): (r: Fs)
    requires InRange(fs, b) && InRange(fs, src) && InRange(fs, dir)
    ensures |r.blocks| == |fs.blocks|
  {
    var fs1 := Mv.SetDepth(fs, b, Mv.NewDepth(fs, Mv.Under(dir)));
    InitInodeAt(fs1, b, NameText(InodeAt(fs1, src).name), isDir, now)
  }

  /** The copy of the file at block src into directory dir. As written (`fixed` false,
      `copy_interne_main`) the new inode is initialised as a directory and keeps size 0;
      with `fixed` it is initialised as a file and given src's size. */
  function CopyUnder(fs: Fs, src: int, dir: int, now: u32, fixed: bool): (r: Res<int>)
    requires InRange(fs, src) && InRange(fs, dir)
    ensures r.Ok? ==> |r.fs.blocks| == |fs.blocks| && InRange(r.fs, r.v)
  {
    var e := NewEntry(fs, src, dir, !fixed, now);
    if !e.Ok? then Fault
    else
      var b := e.v;
      var c := CopyInterne(Sized(e.fs, b, src, fixed), src, b);
      if !c.Ok? then Fault
      else
        var l := Link(c.fs, dir, b, now);
        if l.Exit? then Exit(l.fs) else if !l.Ok? then Fault else Ok(l.fs, b)
  }

  /** The fresh inode b before the copy: as written untouched, with `fixed` given the
      size of src. */
  function Sized(fs: Fs, b: int, src: int, fixed: bool): (r: Fs)
    requires InRange(fs, b) && InRange(fs, src)
    ensures |r.blocks| == |fs.blocks|
  {
    if fixed then SetInode(fs, b, InodeAt(fs, b).(size := InodeAt(fs, src).size)) else fs
  }

  /** `copy_interne_main(in, in2)`: the file at block src copied under directory dir. */
  function CopyInterneMain(fs: Fs, src: int, dir: int, now: u32): (r: Res<int>)
    requires InRange(fs, src) && InRange(fs, dir)
  {
    CopyUnder(fs, src, dir, now, false)
  }

  /** `copy_dossier(in, in2)` from slot i: every child of directory src is copied into
      directory dst, a directory recursively and a file through `copy_interne`. The
      recursion depth is bounded by fuel; running out of it is a Fault. With `fixed` a
      file child is not re-initialised and its copy gets its size. */
  function CopyDossier(fs: Fs, src: int, dst: int, now: u32, fuel: nat, i: nat, fixed: bool): (r: Res<()>)
    requires InRange(fs, src) && InRange(fs, dst) && i <= 900
    ensures r.Ok? ==> |r.fs.blocks| == |fs.blocks|
    decreases fuel, 901 - i
  {
    if i == 900 then Ok(fs, ())
    else
      var c := InodeAt(fs, src).direct[i];
      if c == NoBlock then CopyDossier(fs, src, dst, now, fuel, i + 1, fixed)
      else if !InRange(fs, c) then Fault
      else
        var r := CopyChild(fs, c, dst, now, fuel, fixed);
        if r.Exit? then Exit(r.fs)
        else if !r.Ok? then Fault
        else CopyDossier(r.fs, src, dst, now, fuel, i + 1, fixed)
  }

  /** One child c of the loop of `copy_dossier`, copied into directory dst. As written,
      the file branch first runs `init_inode` on the source file itself, which empties
      it, and then copies the emptied file. */
  function CopyChild(fs: Fs, c: int, dst: int, now: u32, fuel: nat, fixed: bool): (r: Res<()>)
    requires InRange(fs, c) && InRange(fs, dst)
    ensures r.Ok? ==> |r.fs.blocks| == |fs.blocks|
    decreases fuel, 0
  {
    if IsDir(InodeAt(fs, c)) then
      var e := NewEntry(fs, c, dst, true, now);
      if !e.Ok? || fuel == 0 then Fault
      else
        var r := CopyDossier(e.fs, c, e.v, now, fuel - 1, 0, fixed);
        if r.Exit? then Exit(r.fs) else if !r.Ok? then Fault else Link(r.fs, dst, e.v, now)
    else if fixed then
      var e := CopyUnder(fs, c, dst, now, true);
      if e.Exit? then Exit(e.fs) else if !e.Ok? then Fault else Ok(e.fs, ())
    else
      var a := AllocDataBlock(fs);
      if !a.Ok? || !InRange(a.fs, a.v) then Fault
      else
        var r := CopyInterne(Reinit(a.fs, a.v, c, dst, now), c, a.v);
        if !r.Ok? then Fault else Link(r.fs, dst, a.v, now)
  }

  /** The writes of the file branch of `copy_dossier` once block b is taken: the source
      c is re-initialised in place under its own name, then b is given dst's depth plus
      one and initialised with c's name. */
  function Reinit(fs: Fs, b: int, c: int, dst: int, now: u32): (r: Fs)
    requires InRange(fs, b) && InRange(fs, c) && InRange(fs, dst)
    ensures |r.blocks| == |fs.blocks|
  {
    var fs1 := InitInodeAt(fs, c, NameText(InodeAt(fs, c).name), false, now);
    var fs2 := Mv.SetDepth(fs1, b, Mv.NewDepth(fs1, Mv.Under(dst)));
    InitInodeAt(fs2, b, NameText(InodeAt(fs2, c).name), false, now)
  }

  /** `copy_dossier_main(in, in2)`: directory src copied as a new directory under
      directory dir. */
  function CopyDossierMain(fs: Fs, src: int, dir: int, now: u32, fuel: nat, fixed: bool): (r: Res<int>)
    requires InRange(fs, src) && InRange(fs, dir)
    ensures r.Ok? ==> |r.fs.blocks| == |fs.blocks| && InRange(r.fs, r.v)
  {
    var e := NewEntry(fs, src, dir, true, now);
    if !e.Ok? then Fault
    else
      var r := CopyDossier(e.fs, src, e.v, now, fuel, 0, fixed);
      if r.Exit? then Exit(r.fs)
      else if !r.Ok? then Fault
      else
        var l := Link(r.fs, dir, e.v, now);
        if l.Exit? then Exit(l.fs) else if !l.Ok? then Fault else Ok(l.fs, e.v)
  }

  // ---------------------------------------------------------------------------
  // Copies from and to the host

  /** A host file: the bytes it holds, named by a path. */
  datatype Written = Untouched | Wrote(name: CStr, bytes: seq<byte>)

  /** `copy_fichier_vers_externe(in, name)`: when the host file can be opened for
      writing, it receives the bytes the export reading of the inode yields. */
  function Export(fs: Fs, ino: int, name: CStr, writable: bool): (r: Res<Written>)
    requires InRange(fs, ino)
    ensures r.Ok? ==> r.fs == fs
  {
    if !writable then Ok(fs, Untouched)
    else
      var e := ReadFile(fs, ExportReader, InodeAt(fs, ino));
      if e.Stray? then Fault else Ok(fs, Wrote(name, e.out))
  }

  /** `copy_fichier_vers_interne(in, name)` for a regular host file holding bytes: the
      chunks of 4000 bytes go through `get_last_data_block_null` from a total of 0, the
      size word following the total, until the bytes run out or the file has its maximum
      number of blocks; then the time is stamped and the inode rehashed. The size word is
      not otherwise written. */
  function CopyIn(fs: Fs, ino: int, bytes: seq<byte>, now: u32): (r: Res<()>)
    requires InRange(fs, ino)
    ensures r.Ok? ==> |r.fs.blocks| == |fs.blocks|
  {
    var p := Append.Copy(fs, ino, 0, bytes);
    if !p.Ok? then Fault
    else Ok(Rehash(SetInode(p.fs, ino, InodeAt(p.fs, ino).(mtime := now)), ino), ())
  }

  /** The copy into the host file with the file emptied first, by `dealloc_data_block`,
      and the size written at the end. */
  function CopyInFixed(fs: Fs, ino: int, bytes: seq<byte>, now: u32): (r: Res<()>)
    requires InRange(fs, ino)
    ensures r.Ok? ==> |r.fs.blocks| == |fs.blocks|
  {
    var t := Teardown.DeallocDataBlock(fs, ino, now);
    if !t.Ok? then Fault
    else
      var f := Append.Finish(t.fs, ino, 0, bytes, now);
      if f.Ok? then Ok(f.fs, ()) else Fault
  }

  // ---------------------------------------------------------------------------
  // cmd_cp

  /** What `stat` says about the host path named like the first argument: nothing
      there, a regular file that cannot be opened for reading, a regular file holding
      bytes, or a directory. */
  datatype Host = Missing | Unreadable | Regular(bytes: seq<byte>) | Folder

  /** The answer of `cmd_cp` and the host file it wrote, if any. */
  datatype Outcome = Outcome(code: int, out: Written)

  /** The lookup of one internal path: the folder its parent resolves to for a folder
      path, the file the commands' lookup finds otherwise; -1 when missing. */
  function Find(fs: Fs, s: Split, isDir: bool): (r: Res<int>)
    ensures r.Ok? ==> r.fs == fs && (r.v == -1 || InRange(fs, r.v))
  {
    if isDir then FindInodeFolder(fs, s.parent) else FindFile(fs, s.parent, s.name)
  }

  /** The lookup of an internal path finds an entry. */
  predicate Found(fs: Fs, s: Split, isDir: bool) {
    var v := Find(fs, s, isDir);
    v.Ok? && v.v != -1
  }

  /** The end of a copy between internal paths: 0 when it completes. */
  function Settle(r: Res<int>): (o: Res<Outcome>) {
    match r
    case Ok(fs, _) => Ok(fs, Outcome(0, Untouched))
    case Exit(fs) => Exit(fs)
    case Fault => Fault
  }

  /** Internal path to host file: the file is exported under `target`. A folder path
      finds its folder and copies nothing. */
  function ToHost(fs: Fs, s: Split, isDir: bool, target: CStr, writable: bool): (r: Res<Outcome>)
    ensures r.Ok? ==> r.fs == fs && (r.v.code == 1 <==> Find(fs, s, isDir) == Ok(fs, -1))
    ensures r.Ok? && r.v.out.Wrote? ==> !isDir && r.v.out.name == target && r.v.code == 0
  {
    var v := Find(fs, s, isDir);
    if !v.Ok? then Fault
    else if v.v == -1 then Ok(fs, Outcome(1, Untouched))
    else if isDir then Ok(fs, Outcome(0, Untouched))
    else
      var e := Export(fs, v.v, target, writable);
      if e.Ok? then Ok(fs, Outcome(0, e.v)) else Fault
  }

  /** Host file to internal path: the bytes go into the entry found, file or folder. */
  function FromHost(fs: Fs, s: Split, isDir: bool, host: Host, now: u32, fixed: bool): (r: Res<Outcome>)
    ensures r.Ok? ==> r.v.out == Untouched && (r.v.code == 1 <==> Find(fs, s, isDir) == Ok(fs, -1))
    ensures r.Ok? && (r.v.code == 1 || !host.Regular?) ==> r.fs == fs
  {
    var v := Find(fs, s, isDir);
    if !v.Ok? then Fault
    else if v.v == -1 then Ok(fs, Outcome(1, Untouched))
    else if !host.Regular? then Ok(fs, Outcome(0, Untouched))
    else
      var c := if fixed then CopyInFixed(fs, v.v, host.bytes, now) else CopyIn(fs, v.v, host.bytes, now);
      if c.Ok? then Ok(c.fs, Outcome(0, Untouched)) else Fault
  }

  /** Internal path to internal path: both entries must exist; a folder goes into a
      folder with `copy_dossier_main`, a file into a folder with `copy_interne_main`, and
      any other pair copies nothing. */
  function Internal(fs: Fs, s1: Split, d1: bool, s2: Split, d2: bool, now: u32, fuel: nat, fixed: bool): (r: Res<Outcome>)
    ensures r.Ok? ==> r.v.out == Untouched && (r.v.code == 0 || r.v.code == 1)
    ensures r.Ok? && r.v.code == 1 ==>
      r.fs == fs && (Find(fs, s1, d1) == Ok(fs, -1) || (Found(fs, s1, d1) && Find(fs, s2, d2) == Ok(fs, -1)))
    ensures r.Ok? && r.v.code == 0 ==> Found(fs, s1, d1) && Found(fs, s2, d2)
    ensures r.Ok? && !d2 ==> r.fs == fs
  {
    var v := Find(fs, s1, d1);
    if !v.Ok? then Fault
    else if v.v == -1 then Ok(fs, Outcome(1, Untouched))
    else
      var w := Find(fs, s2, d2);
      if !w.Ok? then Fault
      else if w.v == -1 then Ok(fs, Outcome(1, Untouched))
      else if d1 && d2 then Settle(CopyDossierMain(fs, v.v, w.v, now, fuel, fixed))
      else if !d1 && d2 then Settle(CopyUnder(fs, v.v, w.v, now, fixed))
      else Ok(fs, Outcome(0, Untouched))
  }

  /** `cmd_cp(f1, f2, mode1, mode2)`, a mode being true for an internal path. A path
      whose parent overruns the split buffer is a Fault. Both existence checks of the
      host side look at f1. The host directory walk of an external folder is not part of
      this model. As written (`fixed` false) an export goes to the host file f1. */
  function Cmd(fs: Fs, f1: CStr, f2: CStr, mode1: bool, mode2: bool, host: Host, writable: bool,
               now: u32, fuel: nat, fixed: bool): (r: Res<Outcome>)
    requires mode1 || !mode2 || !host.Folder?
    ensures r.Ok? && r.v.out.Wrote? ==> mode1 && !mode2 && r.fs == fs && r.v.out.name == (if fixed then f2 else f1)
    ensures (!mode1 || !mode2) && host.Missing? && (mode1 ==> ParentFits(f1)) ==> r == Ok(fs, Outcome(1, Untouched))
    ensures !mode1 && !mode2 && !host.Missing? ==> r == Ok(fs, Outcome(0, Untouched))
  {
    if mode1 && !ParentFits(f1) then Fault
    else if !mode1 && host.Missing? then Ok(fs, Outcome(1, Untouched))
    else if mode2 && !ParentFits(f2) then Fault
    else if !mode2 && host.Missing? then Ok(fs, Outcome(1, Untouched))
    else
      var s1 := SplitPath(f1);
      var s2 := SplitPath(f2);
      var d1 := IsFolderPath(s1.parent, s1.name);
      var d2 := IsFolderPath(s2.parent, s2.name);
      if mode1 && !mode2 then ToHost(fs, s1, d1, if fixed then f2 else f1, writable)
      else if !mode1 && mode2 then FromHost(fs, s2, d2, host, now, fixed)
      else if mode1 && mode2 then Internal(fs, s1, d1, s2, d2, now, fuel, fixed)
      else Ok(fs, Outcome(0, Untouched))
  }

  /** `cmd_cp` as written. */
  function CmdCp(fs: Fs, f1: CStr, f2: CStr, mode1: bool, mode2: bool, host: Host, writable: bool,
                 now: u32, fuel: nat): (r: Res<Outcome>)
    requires mode1 || !mode2 || !host.Folder?
  {
    Cmd(fs, f1, f2, mode1, mode2, host, writable, now, fuel, false)
  }

  /** `cmd_cp` with the four corrections. */
  function CmdCpFixed(fs: Fs, f1: CStr, f2: CStr, mode1: bool, mode2: bool, host: Host, writable: bool,
                      now: u32, fuel: nat): (r: Res<Outcome>)
    requires mode1 || !mode2 || !host.Folder?
  {
    Cmd(fs, f1, f2, mode1, mode2, host, writable, now, fuel, true)
  }
  // ---------------------------------------------------------------------------
  // Frames

  /** Block b lies past the bitmap and is either in the inode region, whose blocks the
      bitmap leaves marked free, or a data block marked used. No allocation can hand it
      out. */
  predicate Held(fs: Fs, b: int) {
    InRange(fs, b) && b > Geom(fs).nb1 && !Open(fs, b)
  }

  /** Block b is a data block marked free: what `alloc_data_block` can hand out. */
  predicate Open(fs: Fs, b: int) {
    FreeAt(fs, b) && b >= Geom(fs).DataStart()
  }

  /** fs' keeps the layout of fs, frees no block, and leaves every block used in fs as
      it was, except x and y. */
  ghost predicate Stays(fs: Fs, fs': Fs, x: int, y: int) {
    && Growth.Kept(fs, fs')
    && forall c :: Held(fs, c) && c != x && c != y ==> fs'.blocks[c] == fs.blocks[c]
  }

  lemma StaysTrans(a: Fs, b: Fs, c: Fs, x: int, y: int)
    requires Stays(a, b, x, y) && Stays(b, c, x, y)
    ensures Stays(a, c, x, y)
  {
    forall k | Held(a, k) && k != x && k != y
      ensures c.blocks[k] == a.blocks[k]
    {
      assert Held(b, k);
    }
  }

  /** The exceptions of a frame can be traded for blocks the frame never protected. */
  lemma StaysWiden(fs: Fs, fs': Fs, x: int, y: int, x': int, y': int)
    requires Stays(fs, fs', x, y)
    requires x == x' || x == y' || !Held(fs, x)
    requires y == x' || y == y' || !Held(fs, y)
    ensures Stays(fs, fs', x', y')
  {
  }

  /** A write confined to block b past the bitmap. */
  lemma OneWrite(fs: Fs, fs': Fs, b: int)
    requires WellFormed(fs) && InRange(fs, b) && b > Geom(fs).nb1
    requires |fs'.blocks| == |fs.blocks|
    requires forall c :: 0 <= c < |fs.blocks| && c != b ==> fs'.blocks[c] == fs.blocks[c]
    ensures Stays(fs, fs', b, b)
  {
    Growth.WriteKeeps(fs, fs', b);
  }

  /** A block number of a well-formed container fits an `int32_t`. */
  lemma Fits(fs: Fs, b: int)
    requires WellFormed(fs) && InRange(fs, b)
    ensures WrapI32(b) == b
  {
    assert IsI32(b);
  }

  /** `alloc_data_block` touches no used block, and the block it hands out was free and
      is now used. */
  lemma AllocStays(fs: Fs)
    requires WellFormed(fs)
    ensures var a := AllocDataBlock(fs);
      && a.Ok? && Stays(fs, a.fs, NoBlock, NoBlock)
      && (a.v != NoBlock ==> InRange(a.fs, a.v) && Open(fs, a.v) && Held(a.fs, a.v))
  {
    Growth.AllocGrows(fs);
  }

  /** Dup: a block free before, used after, sealed, holding the bytes of s; no used
      block changes. */
  lemma DupSpec(fs: Fs, s: int)
    requires WellFormed(fs) && Held(fs, s)
    ensures var r := Dup(fs, s);
      r.Ok? ==>
        && Stays(fs, r.fs, NoBlock, NoBlock) && Open(fs, r.v) && Held(r.fs, r.v)
        && Sealed(r.fs.blocks[r.v]) && DataAt(r.fs, r.v) == DataAt(fs, s)
  {
    AllocStays(fs);
    var a := AllocDataBlock(fs);
    if a.v != NoBlock {
      var r := Dup(fs, s);
      if r.Ok? {
        assert a.fs.blocks[s] == fs.blocks[s];
        DupWrite(a.fs, s, a.v);
        DupChain(fs, a.fs, r.fs, s, a.v);
      }
    }
  }

  /** The copy written into block b: sealed, with the bytes of s, nothing else touched. */
  lemma DupWrite(fs: Fs, s: int, b: int)
    requires WellFormed(fs) && InRange(fs, s) && InRange(fs, b) && b > Geom(fs).nb1
    ensures var r := Rehash(SetData(fs, b, DataAt(fs, s)), b);
      && Stays(fs, r, b, b) && Sealed(r.blocks[b]) && DataAt(r, b) == DataAt(fs, s)
      && (s != b ==> r.blocks[s] == fs.blocks[s])
  {
    var d := DataAt(fs, s);
    var r := Rehash(SetData(fs, b, d), b);
    assert r.blocks[b].payload == BytesP(d);
    assert Image(BytesP(d)) == d;
    OneWrite(fs, r, b);
  }

  /** The allocation and the write put together. */
  lemma DupChain(fs: Fs, fs1: Fs, fs2: Fs, s: int, b: int)
    requires Stays(fs, fs1, NoBlock, NoBlock) && Open(fs, b) && Held(fs1, b) && InRange(fs1, s)
    requires Stays(fs1, fs2, b, b) && fs1.blocks[s] == fs.blocks[s]
    ensures Stays(fs, fs2, NoBlock, NoBlock) && Held(fs2, b)
  {
    HeldStays(fs1, fs2, b, b, b);
    StaysWiden(fs, fs1, NoBlock, NoBlock, b, b);
    StaysTrans(fs, fs1, fs2, b, b);
    StaysWiden(fs, fs2, b, b, NoBlock, NoBlock);
  }
  // ---------------------------------------------------------------------------
  // The copy against its source

  /** Entry c of a copy stands for entry s of its source: both are -1, or c is a block
      that was free in base and is now used and sealed, holding the bytes of the used
      block s. */
  ghost predicate Twin(base: Fs, fs: Fs, s: int, c: int) {
    || (s == NoBlock && c == NoBlock)
    || (Held(fs, s) && Open(base, c) && Held(fs, c) && Sealed(fs.blocks[c]) && DataAt(fs, c) == DataAt(fs, s))
  }

  /** The first n entries of v stand for those of w. */
  ghost predicate Twins(base: Fs, fs: Fs, w: seq<int>, v: seq<int>, n: int) {
    n <= |w| && n <= |v| && forall j :: 0 <= j < n ==> Twin(base, fs, w[j], v[j])
  }

  /** Every entry of w is -1 or a used block. */
  predicate Spare(fs: Fs, w: seq<int>) {
    forall j :: 0 <= j < |w| ==> w[j] == NoBlock || Held(fs, w[j])
  }

  /** Block x cannot be one of the blocks the entries w and v of a copy name: either it
      is free now, or it was used in base and is not listed in w. */
  predicate Clear(base: Fs, fs: Fs, w: seq<int>, x: int) {
    Open(fs, x) || (Held(base, x) && x !in w)
  }

  lemma TwinStays(base: Fs, fs: Fs, fs': Fs, s: int, c: int, x: int, y: int)
    requires Twin(base, fs, s, c) && Stays(fs, fs', x, y)
    requires s != x && s != y && c != x && c != y
    ensures Twin(base, fs', s, c)
  {
    if s != NoBlock {
      HeldStays(fs, fs', x, y, s);
      HeldStays(fs, fs', x, y, c);
      assert fs'.blocks[s] == fs.blocks[s] && fs'.blocks[c] == fs.blocks[c];
      assert DataAt(fs', c) == DataAt(fs, c) && DataAt(fs', s) == DataAt(fs, s);
    }
  }

  /** A frame whose exceptions are clear of the copy keeps the correspondence. */
  lemma TwinsStay(base: Fs, fs: Fs, fs': Fs, w: seq<int>, v: seq<int>, n: int, x: int, y: int)
    requires Twins(base, fs, w, v, n) && Stays(fs, fs', x, y)
    requires Clear(base, fs, w, x) && Clear(base, fs, w, y)
    ensures Twins(base, fs', w, v, n)
  {
    forall j | 0 <= j < n
      ensures Twin(base, fs', w[j], v[j])
    {
      TwinStays(base, fs, fs', w[j], v[j], x, y);
    }
  }

  /** The correspondence measured against a later base still holds against an earlier
      one: a block free later was free before. */
  lemma TwinsEarlier(base: Fs, base': Fs, fs: Fs, w: seq<int>, v: seq<int>, n: int)
    requires Twins(base', fs, w, v, n) && Growth.Kept(base, base')
    ensures Twins(base, fs, w, v, n)
  {
    forall j | 0 <= j < n
      ensures Twin(base, fs, w[j], v[j])
    {
      assert Twin(base', fs, w[j], v[j]);
    }
  }

  // ---------------------------------------------------------------------------
  // The table loop

  /** The state of the table loop at entry i, measured against base, the state it
      started from: the source table w is used and lists only -1 or used blocks other
      than the target table t; entries before i of t stand for those of w, the others
      are still -1; the tag of t and every used block but t are untouched. */
  ghost predicate TableInv(base: Fs, fs: Fs, w: int, t: int, i: int) {
    && 0 <= i <= 1000 && WellFormed(base) && |fs.blocks| == |base.blocks|
    && Stays(base, fs, t, t) && Held(base, w) && Held(base, t) && w != t
    && Spare(base, WordsAt(base, w)) && t !in WordsAt(base, w)
    && fs.blocks[t].tag == base.blocks[t].tag
    && Twins(base, fs, WordsAt(base, w), WordsAt(fs, t), i)
    && forall j :: i <= j < 1000 ==> WordsAt(fs, t)[j] == NoBlock
  }

  /** One more entry of the target table filled in with c, a block standing for the
      source entry, keeps the loop state. */
  lemma TableAdvance(base: Fs, fs: Fs, fs': Fs, w: int, t: int, i: int, c: i32)
    requires TableInv(base, fs, w, t, i) && i < 1000
    requires Stays(fs, fs', t, t) && fs'.blocks[t].tag == fs.blocks[t].tag
    requires InRange(fs', t) && WordsAt(fs', t) == WordsAt(fs, t)[i := c]
    requires Twin(base, fs', WordsAt(base, w)[i], c)
    ensures TableInv(base, fs', w, t, i + 1)
  {
    var W := WordsAt(base, w);
    StaysTrans(base, fs, fs', t, t);
    TwinsStay(base, fs, fs', W, WordsAt(fs, t), i, t, t);
  }

  /** Duplicating the used block s and storing the copy in entry i of the used table t
      changes no used block but t, and leaves a fresh, sealed block with the bytes of s. */
  lemma DupPut(fs: Fs, t: int, i: int, s: int) returns (ok: bool, fs': Fs, c: i32)
    requires WellFormed(fs) && Held(fs, s) && Held(fs, t) && s != t && 0 <= i < 1000
    ensures var d := Dup(fs, s);
      && (ok <==> d.Ok?)
      && (ok ==> InRange(d.fs, t) && c == d.v && fs' == PutEntry(d.fs, t, i, d.v))
    ensures ok ==> Stays(fs, fs', t, t) && fs'.blocks[t].tag == fs.blocks[t].tag
    ensures ok ==> WordsAt(fs', t) == WordsAt(fs, t)[i := c]
    ensures ok ==> Open(fs, c) && Held(fs', c) && Sealed(fs'.blocks[c]) && DataAt(fs', c) == DataAt(fs, s)
    ensures ok ==> fs'.blocks[s] == fs.blocks[s]
  {
    DupSpec(fs, s);
    var d := Dup(fs, s);
    ok := d.Ok?;
    if !ok {
      fs', c := fs, NoBlock;
      return;
    }
    fs' := PutEntry(d.fs, t, i, d.v);
    Fits(d.fs, d.v);
    c := d.v;
    EntryWrite(fs, d.fs, t, i, s, c);
  }

  /** Storing c, a block that was free in fs, in entry i of the table t of dfs (a state
      that kept every used block of fs) changes only t among the used blocks of fs. */
  lemma EntryWrite(fs: Fs, dfs: Fs, t: int, i: int, s: int, c: i32)
    requires WellFormed(fs) && Held(fs, s) && Held(fs, t) && s != t && 0 <= i < 1000
    requires Stays(fs, dfs, NoBlock, NoBlock) && Open(fs, c) && Held(dfs, c)
    ensures InRange(dfs, t)
    ensures var fs' := PutEntry(dfs, t, i, c);
      && Stays(fs, fs', t, t) && fs'.blocks[t].tag == fs.blocks[t].tag
      && WordsAt(fs', t) == WordsAt(fs, t)[i := c]
      && fs'.blocks[c] == dfs.blocks[c] && fs'.blocks[s] == fs.blocks[s]
      && Held(fs', c) && DataAt(fs', c) == DataAt(dfs, c)
  {
    var fs' := PutEntry(dfs, t, i, c);
    assert dfs.blocks[t] == fs.blocks[t];
    OneWrite(dfs, fs', t);
    StaysWiden(fs, dfs, NoBlock, NoBlock, t, t);
    StaysTrans(fs, dfs, fs', t, t);
    assert fs'.blocks[c] == dfs.blocks[c];
  }

  /** The same step seen from the loop: the copy stands for the source entry. */
  lemma TableDup(base: Fs, fs: Fs, w: int, t: int, i: int, s: int) returns (ok: bool, fs': Fs, c: i32)
    requires TableInv(base, fs, w, t, i) && i < 1000 && s == WordsAt(base, w)[i] && s != NoBlock
    ensures var d := Dup(fs, s);
      && (ok <==> d.Ok?)
      && (ok ==> InRange(d.fs, t) && c == d.v && fs' == PutEntry(d.fs, t, i, d.v))
    ensures ok ==> Stays(fs, fs', t, t) && fs'.blocks[t].tag == fs.blocks[t].tag
    ensures ok ==> InRange(fs', t) && WordsAt(fs', t) == WordsAt(fs, t)[i := c]
    ensures ok ==> Twin(base, fs', s, c)
  {
    assert Held(fs, s) by {
      assert Held(base, s);
      assert fs.blocks[s] == base.blocks[s];
    }
    ok, fs', c := DupPut(fs, t, i, s);
    if ok {
      assert Open(base, c);
      HeldStays(fs, fs', t, t, s);
      assert DataAt(fs', s) == DataAt(fs, s);
    }
  }

  lemma TableStep(base: Fs, fs: Fs, w: int, t: int, i: int) returns (ok: bool, fs': Fs)
    requires TableInv(base, fs, w, t, i) && i < 1000
    ensures InRange(fs, w) && InRange(fs, t)
    ensures ok ==> |fs'.blocks| == |fs.blocks| && DupTable(fs, w, t, i) == DupTable(fs', w, t, i + 1)
    ensures ok ==> TableInv(base, fs', w, t, i + 1)
    ensures !ok ==> DupTable(fs, w, t, i) == Fault
  {
    assert fs.blocks[w] == base.blocks[w];
    var s := WordsAt(base, w)[i];
    if s == NoBlock {
      ok, fs' := true, fs;
      TableAdvance(base, fs, fs, w, t, i, NoBlock);
    } else {
      var c;
      ok, fs', c := TableDup(base, fs, w, t, i, s);
      if ok {
        TableAdvance(base, fs, fs', w, t, i, c);
      }
    }
  }

  /** The table loop run to the end: every entry of the new table stands for the same
      entry of the source table. */
  lemma {:induction false} DupTableSpec(base: Fs, fs: Fs, w: int, t: int, i: int)
    requires TableInv(base, fs, w, t, i)
    ensures InRange(fs, w) && InRange(fs, t)
    ensures var r := DupTable(fs, w, t, i);
      r.Ok? ==> TableInv(base, r.fs, w, t, 1000)
    decreases 1000 - i
  {
    if i < 1000 {
      var ok, fs' := TableStep(base, fs, w, t, i);
      if ok {
        DupTableSpec(base, fs', w, t, i + 1);
      }
    }
  }
  lemma StaysSelf(fs: Fs, x: int, y: int)
    requires WellFormed(fs)
    ensures Stays(fs, fs, x, y)
  {
  }

  /** A used block stays used across a frame. */
  lemma HeldStays(fs: Fs, fs': Fs, x: int, y: int, c: int)
    requires Stays(fs, fs', x, y) && Held(fs, c)
    ensures Held(fs', c)
  {
  }

  lemma SpareStays(fs: Fs, fs': Fs, w: seq<int>, x: int, y: int)
    requires Stays(fs, fs', x, y) && Spare(fs, w)
    ensures Spare(fs', w)
  {
    forall j | 0 <= j < |w| && w[j] != NoBlock
      ensures Held(fs', w[j])
    {
      HeldStays(fs, fs', x, y, w[j]);
    }
  }

  /** A free block is none of the used blocks a table lists. */
  lemma FreeNotListed(fs: Fs, w: seq<int>, u: int)
    requires Spare(fs, w) && Open(fs, u)
    ensures u !in w
  {
    forall j | 0 <= j < |w|
      ensures w[j] != u
    {
    }
  }

  /** A fresh empty table: taken with `alloc_data_block`, every entry -1, tagged. Only
      the new block, which was free, changes. */
  lemma BlankSpec(fs: Fs, tag: u32) returns (ok: bool, u: int, mid: Fs)
    requires WellFormed(fs)
    ensures var a := AllocDataBlock(fs);
      && (ok <==> a.Ok? && InRange(a.fs, a.v))
      && (ok ==> u == a.v && mid == Blank(a.fs, u, tag))
    ensures ok ==> Open(fs, u) && Held(mid, u) && Stays(fs, mid, NoBlock, NoBlock)
    ensures ok ==> mid.blocks[u].tag == tag && WordsAt(mid, u) == Resolver.Unlinked()
  {
    AllocStays(fs);
    var a := AllocDataBlock(fs);
    ok := a.Ok? && InRange(a.fs, a.v);
    if !ok {
      u, mid := NoBlock, fs;
      return;
    }
    u := a.v;
    var fs1 := SetWords(a.fs, u, Resolver.Unlinked());
    mid := Blank(a.fs, u, tag);
    OneWrite(a.fs, fs1, u);
    OneWrite(fs1, mid, u);
    StaysTrans(a.fs, fs1, mid, u, u);
    StaysWiden(fs, a.fs, NoBlock, NoBlock, u, u);
    StaysTrans(fs, a.fs, mid, u, u);
    StaysWiden(fs, mid, u, u, NoBlock, NoBlock);
    HeldStays(a.fs, mid, u, u, u) by {
      assert Stays(a.fs, mid, u, u);
    }
  }

  /** One entry of a double-indirect table: the new table was free in fs, is now used
      and tagged 6, and each of its entries stands for the same entry of table s,
      measured against mid, the state in which the table had just been taken. */
  lemma BranchSpec(fs: Fs, s: int) returns (mid: Fs)
    requires WellFormed(fs) && Held(fs, s) && Spare(fs, WordsAt(fs, s))
    ensures var r := Branch(fs, s);
      r.Ok? ==>
        && Stays(fs, mid, NoBlock, NoBlock) && Open(fs, r.v) && Held(mid, r.v)
        && Stays(mid, r.fs, r.v, r.v) && Stays(fs, r.fs, NoBlock, NoBlock)
        && Held(r.fs, r.v) && r.fs.blocks[r.v].tag == TagSingle
        && Twins(mid, r.fs, WordsAt(fs, s), WordsAt(r.fs, r.v), 1000)
  {
    var ok, u;
    ok, u, mid := BlankSpec(fs, TagSingle);
    if !ok {
      return;
    }
    var W := WordsAt(fs, s);
    assert mid.blocks[s] == fs.blocks[s];
    HeldStays(fs, mid, NoBlock, NoBlock, s);
    SpareStays(fs, mid, W, NoBlock, NoBlock);
    FreeNotListed(fs, W, u);
    StaysSelf(mid, u, u);
    assert TableInv(mid, mid, s, u, 0);
    DupTableSpec(mid, mid, s, u, 0);
    var c := DupTable(mid, s, u, 0);
    if c.Ok? {
      assert TableInv(mid, c.fs, s, u, 1000);
      HeldStays(mid, c.fs, u, u, u);
      StaysWiden(fs, mid, NoBlock, NoBlock, u, u);
      StaysTrans(fs, mid, c.fs, u, u);
      StaysWiden(fs, c.fs, u, u, NoBlock, NoBlock);
    }
  }
  // ---------------------------------------------------------------------------
  // The double-indirect loop

  /** Entry c of a copied double-indirect table stands for entry s of the source one:
      both are -1, or c is a table that was free in base, is now used, sealed and tagged
      6, and whose entries stand for those of the used table s. */
  ghost predicate TwinTable(base: Fs, fs: Fs, s: int, c: int) {
    || (s == NoBlock && c == NoBlock)
    || (&& Held(fs, s) && Open(base, c) && Held(fs, c) && Sealed(fs.blocks[c])
        && fs.blocks[c].tag == TagSingle
        && Twins(base, fs, WordsAt(fs, s), WordsAt(fs, c), 1000))
  }

  ghost predicate TwinTables(base: Fs, fs: Fs, w: seq<int>, v: seq<int>, n: int) {
    n <= |w| && n <= |v| && forall j :: 0 <= j < n ==> TwinTable(base, fs, w[j], v[j])
  }

  /** Every entry of w is -1 or a used table whose entries are -1 or used blocks. */
  predicate Deep(fs: Fs, w: seq<int>) {
    && Spare(fs, w)
    && forall j :: 0 <= j < |w| && Held(fs, w[j]) ==> Spare(fs, WordsAt(fs, w[j]))
  }

  /** Block x is neither an entry of w nor an entry of a used table w lists. */
  predicate Avoids(fs: Fs, w: seq<int>, x: int) {
    && x !in w
    && forall j :: 0 <= j < |w| && Held(fs, w[j]) ==> x !in WordsAt(fs, w[j])
  }

  /** A frame whose exception x was used in base and is outside the source tables keeps
      one entry's correspondence. */
  lemma TwinTableStays(base: Fs, fs: Fs, fs': Fs, s: int, c: int, x: int)
    requires TwinTable(base, fs, s, c) && Stays(fs, fs', x, x) && Held(base, x) && s != x
    requires Held(fs, s) ==> x !in WordsAt(fs, s)
    ensures TwinTable(base, fs', s, c)
  {
    if s != NoBlock {
      assert fs'.blocks[s] == fs.blocks[s] && fs'.blocks[c] == fs.blocks[c];
      TwinsStay(base, fs, fs', WordsAt(fs, s), WordsAt(fs, c), 1000, x, x);
    }
  }

  lemma TwinTablesStay(base: Fs, fs: Fs, fs': Fs, w: seq<int>, v: seq<int>, n: int, x: int)
    requires TwinTables(base, fs, w, v, n) && Stays(fs, fs', x, x)
    requires Held(base, x) && Spare(fs, w) && Avoids(fs, w, x)
    ensures TwinTables(base, fs', w, v, n)
  {
    forall j | 0 <= j < n
      ensures TwinTable(base, fs', w[j], v[j])
    {
      TwinTableStays(base, fs, fs', w[j], v[j], x);
    }
  }

  /** The state of the double-indirect loop at entry i, as `TableInv` for one level. */
  ghost predicate TablesInv(base: Fs, fs: Fs, w: int, t: int, i: int) {
    && 0 <= i <= 1000 && WellFormed(base) && |fs.blocks| == |base.blocks|
    && Stays(base, fs, t, t) && Held(base, w) && Held(base, t) && w != t
    && Deep(base, WordsAt(base, w)) && Avoids(base, WordsAt(base, w), t)
    && fs.blocks[t].tag == base.blocks[t].tag
    && TwinTables(base, fs, WordsAt(base, w), WordsAt(fs, t), i)
    && forall j :: i <= j < 1000 ==> WordsAt(fs, t)[j] == NoBlock
  }

  lemma TablesAdvance(base: Fs, fs: Fs, fs': Fs, w: int, t: int, i: int, c: i32)
    requires TablesInv(base, fs, w, t, i) && i < 1000
    requires Stays(fs, fs', t, t) && fs'.blocks[t].tag == fs.blocks[t].tag
    requires InRange(fs', t) && WordsAt(fs', t) == WordsAt(fs, t)[i := c]
    requires TwinTable(base, fs', WordsAt(base, w)[i], c)
    ensures TablesInv(base, fs', w, t, i + 1)
  {
    var W := WordsAt(base, w);
    StaysTrans(base, fs, fs', t, t);
    SpareStays(base, fs, W, t, t);
    AvoidsStays(base, fs, W, t, t);
    TwinTablesStay(base, fs, fs', W, WordsAt(fs, t), i, t);
  }

  /** Storing the fresh table c in entry i of the used table t and sealing c. */
  lemma StoreBranch(fs: Fs, bfs: Fs, t: int, i: int, c: i32) returns (fs': Fs)
    requires WellFormed(fs) && Stays(fs, bfs, NoBlock, NoBlock) && Held(fs, t) && 0 <= i < 1000
    requires Open(fs, c) && Held(bfs, c)
    ensures fs' == Rehash(PutEntry(bfs, t, i, c), c)
    ensures Stays(bfs, fs', t, c) && Stays(fs, fs', t, t)
    ensures fs'.blocks[t].tag == fs.blocks[t].tag && WordsAt(fs', t) == WordsAt(fs, t)[i := c]
    ensures Held(fs', c) && Sealed(fs'.blocks[c])
    ensures fs'.blocks[c].payload == bfs.blocks[c].payload && fs'.blocks[c].tag == bfs.blocks[c].tag
  {
    var fs1 := PutEntry(bfs, t, i, c);
    fs' := Rehash(fs1, c);
    HeldStays(fs, bfs, NoBlock, NoBlock, t);
    OneWrite(bfs, fs1, t);
    OneWrite(fs1, fs', c);
    StaysWiden(bfs, fs1, t, t, t, c);
    StaysWiden(fs1, fs', c, c, t, c);
    StaysTrans(bfs, fs1, fs', t, c);
    StaysWiden(fs, bfs, NoBlock, NoBlock, t, c);
    StaysTrans(fs, bfs, fs', t, c);
    StaysWiden(fs, fs', t, c, t, t);
    HeldStays(bfs, fs', t, c, c);
  }

  /** A branch for the used table s stored in entry i of the used table t and sealed:
      only t changes among the used blocks, and the new table stands for s. */
  lemma BranchPut(fs: Fs, t: int, i: int, s: int) returns (ok: bool, fs': Fs, c: i32)
    requires WellFormed(fs) && Held(fs, s) && Held(fs, t) && s != t && 0 <= i < 1000
    requires Spare(fs, WordsAt(fs, s)) && t !in WordsAt(fs, s)
    ensures var b := Branch(fs, s);
      && (ok <==> b.Ok?)
      && (ok ==> InRange(b.fs, t) && c == b.v && fs' == Rehash(PutEntry(b.fs, t, i, b.v), b.v))
    ensures ok ==> Stays(fs, fs', t, t) && fs'.blocks[t].tag == fs.blocks[t].tag
    ensures ok ==> WordsAt(fs', t) == WordsAt(fs, t)[i := c]
    ensures ok ==> Open(fs, c) && TwinTable(fs, fs', s, c)
  {
    var mid := BranchSpec(fs, s);
    var b := Branch(fs, s);
    ok := b.Ok?;
    if !ok {
      fs', c := fs, NoBlock;
      return;
    }
    Fits(b.fs, b.v);
    c := b.v;
    fs' := StoreBranch(fs, b.fs, t, i, c);
    BranchTwin(fs, mid, b.fs, fs', s, t, c);
  }

  /** The branch c built in bfs for s, once stored in t and sealed (fs'), stands for s. */
  lemma BranchTwin(fs: Fs, mid: Fs, bfs: Fs, fs': Fs, s: int, t: int, c: i32)
    requires WellFormed(fs) && Held(fs, s) && Held(fs, t) && s != t
    requires Spare(fs, WordsAt(fs, s)) && t !in WordsAt(fs, s)
    requires Stays(fs, mid, NoBlock, NoBlock) && Open(fs, c) && Held(mid, c)
    requires Stays(mid, bfs, c, c) && Stays(fs, bfs, NoBlock, NoBlock)
    requires Held(bfs, c) && bfs.blocks[c].tag == TagSingle
    requires Twins(mid, bfs, WordsAt(fs, s), WordsAt(bfs, c), 1000)
    requires Stays(bfs, fs', t, c) && Stays(fs, fs', t, t)
    requires Held(fs', c) && Sealed(fs'.blocks[c])
    requires fs'.blocks[c].payload == bfs.blocks[c].payload && fs'.blocks[c].tag == bfs.blocks[c].tag
    ensures TwinTable(fs, fs', s, c)
  {
    var Ws := WordsAt(fs, s);
    assert fs'.blocks[s] == fs.blocks[s];
    FreeNotListed(fs, Ws, c);
    HeldStays(fs, mid, NoBlock, NoBlock, t);
    TwinsStay(mid, bfs, fs', Ws, WordsAt(bfs, c), 1000, t, c);
    TwinsEarlier(fs, mid, fs', Ws, WordsAt(bfs, c), 1000);
  }
  lemma TwinTableEarlier(base: Fs, base': Fs, fs: Fs, s: int, c: int)
    requires TwinTable(base', fs, s, c) && Growth.Kept(base, base')
    ensures TwinTable(base, fs, s, c)
  {
    if s != NoBlock {
      TwinsEarlier(base, base', fs, WordsAt(fs, s), WordsAt(fs, c), 1000);
    }
  }

  lemma TablesBranch(base: Fs, fs: Fs, w: int, t: int, i: int, s: int) returns (ok: bool, fs': Fs, c: i32)
    requires TablesInv(base, fs, w, t, i) && i < 1000 && s == WordsAt(base, w)[i] && s != NoBlock
    ensures var b := Branch(fs, s);
      && (ok <==> b.Ok?)
      && (ok ==> InRange(b.fs, t) && c == b.v && fs' == Rehash(PutEntry(b.fs, t, i, b.v), b.v))
    ensures ok ==> Stays(fs, fs', t, t) && fs'.blocks[t].tag == fs.blocks[t].tag
    ensures ok ==> InRange(fs', t) && WordsAt(fs', t) == WordsAt(fs, t)[i := c]
    ensures ok ==> TwinTable(base, fs', s, c)
  {
    var W := WordsAt(base, w);
    assert Held(base, s) && s != t;
    assert fs.blocks[s] == base.blocks[s];
    HeldStays(base, fs, t, t, s);
    SpareStays(base, fs, WordsAt(base, s), t, t);
    ok, fs', c := BranchPut(fs, t, i, s);
    if ok {
      TwinTableEarlier(base, fs, fs', s, c);
    }
  }

  lemma TablesStep(base: Fs, fs: Fs, w: int, t: int, i: int) returns (ok: bool, fs': Fs)
    requires TablesInv(base, fs, w, t, i) && i < 1000
    ensures InRange(fs, w) && InRange(fs, t)
    ensures ok ==> |fs'.blocks| == |fs.blocks| && DupTables(fs, w, t, i) == DupTables(fs', w, t, i + 1)
    ensures ok ==> TablesInv(base, fs', w, t, i + 1)
    ensures !ok ==> DupTables(fs, w, t, i) == Fault
  {
    assert fs.blocks[w] == base.blocks[w];
    var s := WordsAt(base, w)[i];
    if s == NoBlock {
      ok, fs' := true, fs;
      TablesAdvance(base, fs, fs, w, t, i, NoBlock);
    } else {
      var c;
      ok, fs', c := TablesBranch(base, fs, w, t, i, s);
      if ok {
        TablesAdvance(base, fs, fs', w, t, i, c);
      }
    }
  }

  /** The double-indirect loop run to the end: every entry of the new table stands for
      the same entry of the source table. */
  lemma {:induction false} DupTablesSpec(base: Fs, fs: Fs, w: int, t: int, i: int)
    requires TablesInv(base, fs, w, t, i)
    ensures InRange(fs, w) && InRange(fs, t)
    ensures var r := DupTables(fs, w, t, i);
      r.Ok? ==> TablesInv(base, r.fs, w, t, 1000)
    decreases 1000 - i
  {
    if i < 1000 {
      var ok, fs' := TablesStep(base, fs, w, t, i);
      if ok {
        DupTablesSpec(base, fs', w, t, i + 1);
      }
    }
  }
  // ---------------------------------------------------------------------------
  // The direct-slot loop

  /** The state of the direct-slot loop at slot i, measured against base: slots before i
      of dst stand for those of src, the others are still -1, and nothing else of dst
      or of any other used block has changed. */
  ghost predicate DirectInv(base: Fs, fs: Fs, src: int, dst: int, i: int) {
    && 0 <= i <= 900 && WellFormed(base) && |fs.blocks| == |base.blocks|
    && Stays(base, fs, dst, dst) && Held(base, src) && Held(base, dst) && src != dst
    && Spare(base, InodeAt(base, src).direct) && dst !in InodeAt(base, src).direct
    && fs.blocks[dst].tag == base.blocks[dst].tag && fs.blocks[dst].hash == base.blocks[dst].hash
    && InodeAt(fs, dst) == InodeAt(base, dst).(direct := InodeAt(fs, dst).direct)
    && Twins(base, fs, InodeAt(base, src).direct, InodeAt(fs, dst).direct, i)
    && forall j :: i <= j < 900 ==> InodeAt(fs, dst).direct[j] == NoBlock
  }

  lemma DirectAdvance(base: Fs, fs: Fs, fs': Fs, src: int, dst: int, i: int, c: i32)
    requires DirectInv(base, fs, src, dst, i) && i < 900
    requires Stays(fs, fs', dst, dst)
    requires fs'.blocks[dst].tag == fs.blocks[dst].tag && fs'.blocks[dst].hash == fs.blocks[dst].hash
    requires InRange(fs', dst)
    requires InodeAt(fs', dst) == WithSlot(InodeAt(fs, dst), i, c)
    requires Twin(base, fs', InodeAt(base, src).direct[i], c)
    ensures DirectInv(base, fs', src, dst, i + 1)
  {
    StaysTrans(base, fs, fs', dst, dst);
    TwinsStay(base, fs, fs', InodeAt(base, src).direct, InodeAt(fs, dst).direct, i, dst, dst);
  }

  /** Duplicating the used block s and storing the copy in slot i of the inode dst. */
  lemma DupSlot(fs: Fs, dst: int, i: int, s: int) returns (ok: bool, fs': Fs, c: i32)
    requires WellFormed(fs) && Held(fs, s) && Held(fs, dst) && s != dst && 0 <= i < 900
    ensures var d := Dup(fs, s);
      && (ok <==> d.Ok?)
      && (ok ==> InRange(d.fs, dst) && c == d.v && fs' == SetSlot(d.fs, dst, i, d.v))
    ensures ok ==> Stays(fs, fs', dst, dst)
    ensures ok ==> fs'.blocks[dst].tag == fs.blocks[dst].tag && fs'.blocks[dst].hash == fs.blocks[dst].hash
    ensures ok ==> InodeAt(fs', dst) == WithSlot(InodeAt(fs, dst), i, c)
    ensures ok ==> Open(fs, c) && Held(fs', c) && Sealed(fs'.blocks[c]) && DataAt(fs', c) == DataAt(fs, s)
    ensures ok ==> fs'.blocks[s] == fs.blocks[s]
  {
    DupSpec(fs, s);
    var d := Dup(fs, s);
    ok := d.Ok?;
    if !ok {
      fs', c := fs, NoBlock;
      return;
    }
    fs' := SetSlot(d.fs, dst, i, d.v);
    Fits(d.fs, d.v);
    c := d.v;
    SlotWrite(fs, d.fs, dst, i, s, c);
  }

  /** Storing c, a block that was free in fs, in slot i of the inode dst of dfs (a state
      that kept every used block of fs) changes only dst among the used blocks of fs. */
  lemma SlotWrite(fs: Fs, dfs: Fs, dst: int, i: int, s: int, c: i32)
    requires WellFormed(fs) && Held(fs, s) && Held(fs, dst) && s != dst && 0 <= i < 900
    requires Stays(fs, dfs, NoBlock, NoBlock) && Open(fs, c) && Held(dfs, c)
    ensures InRange(dfs, dst)
    ensures var fs' := SetSlot(dfs, dst, i, c);
      && Stays(fs, fs', dst, dst)
      && fs'.blocks[dst].tag == fs.blocks[dst].tag && fs'.blocks[dst].hash == fs.blocks[dst].hash
      && InodeAt(fs', dst) == WithSlot(InodeAt(fs, dst), i, c)
      && fs'.blocks[c] == dfs.blocks[c] && fs'.blocks[s] == fs.blocks[s]
      && Held(fs', c) && DataAt(fs', c) == DataAt(dfs, c)
  {
    var fs' := SetSlot(dfs, dst, i, c);
    assert dfs.blocks[dst] == fs.blocks[dst];
    OneWrite(dfs, fs', dst);
    StaysWiden(fs, dfs, NoBlock, NoBlock, dst, dst);
    StaysTrans(fs, dfs, fs', dst, dst);
    assert fs'.blocks[c] == dfs.blocks[c];
  }

  lemma DirectStep(base: Fs, fs: Fs, src: int, dst: int, i: int) returns (ok: bool, fs': Fs)
    requires DirectInv(base, fs, src, dst, i) && i < 900
    ensures InRange(fs, src) && InRange(fs, dst)
    ensures ok ==> |fs'.blocks| == |fs.blocks| && DupDirect(fs, src, dst, i) == DupDirect(fs', src, dst, i + 1)
    ensures ok ==> DirectInv(base, fs', src, dst, i + 1)
    ensures !ok ==> DupDirect(fs, src, dst, i) == Fault
  {
    assert fs.blocks[src] == base.blocks[src];
    var s := InodeAt(base, src).direct[i];
    if s == NoBlock {
      ok, fs' := true, fs;
      DirectAdvance(base, fs, fs, src, dst, i, NoBlock);
    } else {
      assert Held(fs, s) by {
        assert Held(base, s);
        assert fs.blocks[s] == base.blocks[s];
      }
      var c;
      ok, fs', c := DupSlot(fs, dst, i, s);
      if ok {
        assert Open(base, c);
        HeldStays(fs, fs', dst, dst, s);
        assert DataAt(fs', s) == DataAt(fs, s);
        assert Twin(base, fs', s, c);
        DirectAdvance(base, fs, fs', src, dst, i, c);
      }
    }
  }

  /** The direct-slot loop run to the end: every slot of dst stands for the same slot of
      src. */
  lemma {:induction false} DupDirectSpec(base: Fs, fs: Fs, src: int, dst: int, i: int)
    requires DirectInv(base, fs, src, dst, i)
    ensures InRange(fs, src) && InRange(fs, dst)
    ensures var r := DupDirect(fs, src, dst, i);
      r.Ok? ==> DirectInv(base, r.fs, src, dst, 900)
    decreases 900 - i
  {
    if i < 900 {
      var ok, fs' := DirectStep(base, fs, src, dst, i);
      if ok {
        DupDirectSpec(base, fs', src, dst, i + 1);
      }
    }
  }
  // ---------------------------------------------------------------------------
  // The whole copy

  /** Writes confined to the blocks x and y past the bitmap. */
  lemma TwoWrites(fs: Fs, fs': Fs, x: int, y: int)
    requires WellFormed(fs) && InRange(fs, x) && InRange(fs, y) && x > Geom(fs).nb1 && y > Geom(fs).nb1
    requires |fs'.blocks| == |fs.blocks|
    requires forall c :: 0 <= c < |fs.blocks| && c != x && c != y ==> fs'.blocks[c] == fs.blocks[c]
    ensures Stays(fs, fs', x, y)
  {
    var fs1 := Put(fs, x, fs'.blocks[x]);
    OneWrite(fs, fs1, x);
    OneWrite(fs1, fs', y);
    StaysWiden(fs, fs1, x, x, x, y);
    StaysWiden(fs1, fs', y, y, x, y);
    StaysTrans(fs, fs1, fs', x, y);
  }

  lemma PlantSpec(fs: Fs, dst: int, a: int, single: bool)
    requires WellFormed(fs) && Held(fs, dst) && Held(fs, a) && dst != a
    ensures var r := Plant(fs, dst, a, single);
      && Stays(fs, r, dst, a)
      && WordsAt(r, a) == Resolver.Unlinked()
      && r.blocks[a].tag == (if single then TagSingle else TagDouble)
      && InodeAt(r, dst) == InodeAt(fs, dst).(indirect := a)
      && r.blocks[dst].tag == fs.blocks[dst].tag
  {
    Fits(fs, a);
    TwoWrites(fs, Plant(fs, dst, a, single), dst, a);
  }

  /** The root of the copied indirect table: a block free before, used after, cleared,
      tagged by kind, and named in dst, whose other fields are untouched. */
  lemma RootSpec(fs: Fs, dst: int, single: bool)
    requires WellFormed(fs) && Held(fs, dst)
    ensures var r := Root(fs, dst, single);
      r.Ok? ==>
        && Open(fs, r.v) && Held(r.fs, r.v) && Stays(fs, r.fs, dst, dst)
        && WordsAt(r.fs, r.v) == Resolver.Unlinked()
        && r.fs.blocks[r.v].tag == (if single then TagSingle else TagDouble)
        && InodeAt(r.fs, dst) == InodeAt(fs, dst).(indirect := r.v)
        && r.fs.blocks[dst].tag == fs.blocks[dst].tag
  {
    AllocStays(fs);
    var a := AllocDataBlock(fs);
    var r := Root(fs, dst, single);
    if r.Ok? {
      assert a.fs.blocks[dst] == fs.blocks[dst];
      HeldStays(fs, a.fs, NoBlock, NoBlock, dst);
      PlantSpec(a.fs, dst, a.v, single);
      StaysWiden(fs, a.fs, NoBlock, NoBlock, dst, a.v);
      StaysTrans(fs, a.fs, r.fs, dst, a.v);
      StaysWiden(fs, r.fs, dst, a.v, dst, dst);
      HeldStays(a.fs, r.fs, dst, a.v, a.v);
    }
  }
  /** An inode owning no block: every direct slot and the indirect pointer are -1. */
  predicate Vacant(n: Inode) {
    n.indirect == NoBlock && forall j :: 0 <= j < 900 ==> n.direct[j] == NoBlock
  }

  /** The blocks of the inode at src are consistently marked used: the inode itself,
      every direct block, the indirect table, and every block it lists directly (tag 6)
      or through its second-level tables (any other tag). */
  predicate Shaped(fs: Fs, src: int) {
    && Held(fs, src)
    && var n := InodeAt(fs, src);
    && Spare(fs, n.direct)
    && (n.indirect != NoBlock ==>
          && Held(fs, n.indirect)
          && (fs.blocks[n.indirect].tag == TagSingle ==> Spare(fs, WordsAt(fs, n.indirect)))
          && (fs.blocks[n.indirect].tag != TagSingle ==> Deep(fs, WordsAt(fs, n.indirect))))
  }

  /** Block x is none of the blocks the inode at src owns, nor src itself. */
  predicate Outside(fs: Fs, src: int, x: int) {
    && InRange(fs, src) && x != src
    && var n := InodeAt(fs, src);
    && x !in n.direct
    && (n.indirect != NoBlock && InRange(fs, n.indirect) ==>
          && x != n.indirect
          && (fs.blocks[n.indirect].tag == TagSingle ==> x !in WordsAt(fs, n.indirect))
          && (fs.blocks[n.indirect].tag != TagSingle ==> Avoids(fs, WordsAt(fs, n.indirect), x)))
  }

  /** A block that is free lies outside every shaped inode. */
  lemma FreeOutside(fs: Fs, src: int, x: int)
    requires Shaped(fs, src) && Open(fs, x)
    ensures Outside(fs, src, x)
  {
    var n := InodeAt(fs, src);
    FreeNotListed(fs, n.direct, x);
    if n.indirect != NoBlock {
      var W := WordsAt(fs, n.indirect);
      FreeNotListed(fs, W, x);
      if fs.blocks[n.indirect].tag != TagSingle {
        FreeAvoided(fs, W, x);
      }
    }
  }

  lemma FreeAvoided(fs: Fs, w: seq<int>, x: int)
    requires Deep(fs, w) && Open(fs, x)
    ensures Avoids(fs, w, x)
  {
    FreeNotListed(fs, w, x);
    forall j | 0 <= j < |w| && Held(fs, w[j])
      ensures x !in WordsAt(fs, w[j])
    {
      FreeNotListed(fs, WordsAt(fs, w[j]), x);
    }
  }

  /** A frame whose exception x lies outside a shaped inode leaves the inode, its
      tables and what it owns as they were. */
  lemma ShapedStays(fs: Fs, fs': Fs, src: int, x: int)
    requires Stays(fs, fs', x, x) && Shaped(fs, src) && Outside(fs, src, x)
    ensures Shaped(fs', src) && fs'.blocks[src] == fs.blocks[src]
    ensures var d := InodeAt(fs, src).indirect;
      d != NoBlock ==> fs'.blocks[d] == fs.blocks[d]
  {
    var n := InodeAt(fs, src);
    SpareStays(fs, fs', n.direct, x, x);
    if n.indirect != NoBlock {
      var W := WordsAt(fs, n.indirect);
      assert fs'.blocks[n.indirect] == fs.blocks[n.indirect];
      SpareStays(fs, fs', W, x, x);
      if fs.blocks[n.indirect].tag != TagSingle {
        DeepStays(fs, fs', W, x);
      }
    }
  }

  lemma DeepStays(fs: Fs, fs': Fs, w: seq<int>, x: int)
    requires Stays(fs, fs', x, x) && Deep(fs, w) && x !in w
    ensures Deep(fs', w)
    ensures forall j :: 0 <= j < |w| && Held(fs, w[j]) ==> fs'.blocks[w[j]] == fs.blocks[w[j]]
  {
    SpareStays(fs, fs', w, x, x);
    forall j | 0 <= j < |w| && Held(fs', w[j])
      ensures Spare(fs', WordsAt(fs', w[j]))
    {
      assert Held(fs, w[j]);
      assert fs'.blocks[w[j]] == fs.blocks[w[j]];
      SpareStays(fs, fs', WordsAt(fs, w[j]), x, x);
    }
  }

  lemma AvoidsStays(fs: Fs, fs': Fs, w: seq<int>, x: int, z: int)
    requires Stays(fs, fs', x, x) && Spare(fs, w) && x !in w && Avoids(fs, w, z)
    ensures Avoids(fs', w, z)
  {
    forall j | 0 <= j < |w| && Held(fs', w[j])
      ensures z !in WordsAt(fs', w[j])
    {
      assert Held(fs, w[j]);
      assert fs'.blocks[w[j]] == fs.blocks[w[j]];
    }
  }

  lemma OutsideStays(fs: Fs, fs': Fs, src: int, x: int, z: int)
    requires Stays(fs, fs', x, x) && Shaped(fs, src) && Outside(fs, src, x) && Outside(fs, src, z)
    ensures Outside(fs', src, z)
  {
    ShapedStays(fs, fs', src, x);
    var n := InodeAt(fs, src);
    if n.indirect != NoBlock && fs.blocks[n.indirect].tag != TagSingle {
      AvoidsStays(fs, fs', WordsAt(fs, n.indirect), x, z);
    }
  }
  /** The indirect part of a copy: dst has an indirect table exactly when src has one;
      it was free in base, is now used and sealed, has the kind of src's table (6 when
      that one is tagged 6, 7 otherwise), and its entries stand for src's. */
  ghost predicate IndirectMirror(base: Fs, fs: Fs, src: int, dst: int) {
    && InRange(fs, src) && InRange(fs, dst)
    && var d := InodeAt(fs, src).indirect;
    && var e := InodeAt(fs, dst).indirect;
    && (d == NoBlock ==> e == NoBlock)
    && (d != NoBlock ==>
          && Held(fs, d) && Open(base, e) && Held(fs, e) && Sealed(fs.blocks[e])
          && (fs.blocks[d].tag == TagSingle ==>
                fs.blocks[e].tag == TagSingle && Twins(base, fs, WordsAt(fs, d), WordsAt(fs, e), 1000))
          && (fs.blocks[d].tag != TagSingle ==>
                fs.blocks[e].tag == TagDouble && TwinTables(base, fs, WordsAt(fs, d), WordsAt(fs, e), 1000)))
  }

  /** The inode at dst is a copy of the inode at src: each direct slot stands for src's,
      and so does the indirect table. */
  ghost predicate Mirror(base: Fs, fs: Fs, src: int, dst: int) {
    && InRange(fs, src) && InRange(fs, dst)
    && Twins(base, fs, InodeAt(fs, src).direct, InodeAt(fs, dst).direct, 900)
    && IndirectMirror(base, fs, src, dst)
  }

  lemma TwinTablesEarlier(base: Fs, base': Fs, fs: Fs, w: seq<int>, v: seq<int>, n: int)
    requires TwinTables(base', fs, w, v, n) && Growth.Kept(base, base')
    ensures TwinTables(base, fs, w, v, n)
  {
    forall j | 0 <= j < n
      ensures TwinTable(base, fs, w[j], v[j])
    {
      TwinTableEarlier(base, base', fs, w[j], v[j]);
    }
  }

  lemma IndirectEarlier(base: Fs, base': Fs, fs: Fs, src: int, dst: int)
    requires IndirectMirror(base', fs, src, dst) && Growth.Kept(base, base')
    ensures IndirectMirror(base, fs, src, dst)
  {
    var d := InodeAt(fs, src).indirect;
    var e := InodeAt(fs, dst).indirect;
    if d != NoBlock {
      if fs.blocks[d].tag == TagSingle {
        TwinsEarlier(base, base', fs, WordsAt(fs, d), WordsAt(fs, e), 1000);
      } else {
        TwinTablesEarlier(base, base', fs, WordsAt(fs, d), WordsAt(fs, e), 1000);
      }
    }
  }

  /** The state right after `Root`, as seen from the table loops: fs2 keeps every used
      block of fs but dst, whose indirect pointer now names the fresh cleared table a. */
  ghost predicate Rooted(fs: Fs, fs2: Fs, src: int, dst: int, a: int) {
    && WellFormed(fs) && Shaped(fs, src) && Outside(fs, src, dst) && Held(fs, dst)
    && InodeAt(fs, src).indirect != NoBlock
    && Open(fs, a) && Held(fs2, a) && Stays(fs, fs2, dst, dst)
    && WordsAt(fs2, a) == Resolver.Unlinked()
    && InodeAt(fs2, dst) == InodeAt(fs, dst).(indirect := a)
    && fs2.blocks[dst].tag == fs.blocks[dst].tag
  }

  lemma RootedStart(fs: Fs, src: int, dst: int, single: bool) returns (fs2: Fs, a: int)
    requires WellFormed(fs) && Shaped(fs, src) && Outside(fs, src, dst) && Held(fs, dst)
    requires InodeAt(fs, src).indirect != NoBlock
    ensures var ra := Root(fs, dst, single);
      ra.Ok? ==> fs2 == ra.fs && a == ra.v && Rooted(fs, fs2, src, dst, a)
    ensures var ra := Root(fs, dst, single);
      ra.Ok? ==> fs2.blocks[a].tag == (if single then TagSingle else TagDouble)
  {
    RootSpec(fs, dst, single);
    var ra := Root(fs, dst, single);
    if ra.Ok? {
      fs2, a := ra.fs, ra.v;
    } else {
      fs2, a := fs, NoBlock;
    }
  }

  /** Sealing the filled table a ends the copy of the indirect table. */
  lemma RootedFinish(fs: Fs, fs2: Fs, fs3: Fs, src: int, dst: int, a: int)
    requires Rooted(fs, fs2, src, dst, a) && Stays(fs2, fs3, a, a)
    ensures var r := Rehash(fs3, a);
      && Stays(fs, r, dst, dst) && Stays(fs2, r, a, a) && Stays(fs3, r, a, a)
      && r.blocks[dst] == fs2.blocks[dst] && r.blocks[src] == fs.blocks[src]
      && r.blocks[InodeAt(fs, src).indirect] == fs.blocks[InodeAt(fs, src).indirect]
      && Held(r, a) && Sealed(r.blocks[a]) && r.blocks[a].tag == fs3.blocks[a].tag
      && r.blocks[a].payload == fs3.blocks[a].payload
  {
    var d := InodeAt(fs, src).indirect;
    var r := Rehash(fs3, a);
    OneWrite(fs3, r, a);
    StaysTrans(fs2, fs3, r, a, a);
    HeldStays(fs, fs2, dst, dst, d);
    HeldStays(fs, fs2, dst, dst, src);
    HeldStays(fs, fs2, dst, dst, dst);
    StaysWiden(fs, fs2, dst, dst, dst, a);
    StaysWiden(fs2, r, a, a, dst, a);
    StaysTrans(fs, fs2, r, dst, a);
    StaysWiden(fs, r, dst, a, dst, dst);
    HeldStays(fs2, r, a, a, a);
  }

  /** What the copy of the indirect table promises about its final state r. */
  ghost predicate Copied(fs: Fs, r: Fs, src: int, dst: int) {
    && Stays(fs, r, dst, dst) && InRange(r, dst) && r.blocks[dst].tag == fs.blocks[dst].tag
    && InodeAt(r, dst) == InodeAt(fs, dst).(indirect := InodeAt(r, dst).indirect)
    && IndirectMirror(fs, r, src, dst)
  }

  lemma SingleStart(fs: Fs, src: int, dst: int) returns (fs2: Fs, a: int)
    requires WellFormed(fs) && Shaped(fs, src) && Outside(fs, src, dst) && Held(fs, dst)
    requires InodeAt(fs, src).indirect != NoBlock
    ensures var ra := Root(fs, dst, true);
      ra.Ok? ==>
        && fs2 == ra.fs && a == ra.v && Rooted(fs, fs2, src, dst, a)
        && fs2.blocks[a].tag == TagSingle
        && TableInv(fs2, fs2, InodeAt(fs, src).indirect, a, 0)
  {
    fs2, a := RootedStart(fs, src, dst, true);
    if Root(fs, dst, true).Ok? {
      RootedTable(fs, fs2, src, dst, a);
    }
  }

  /** The fresh empty table a, next to src's single table, starts the copy loop. */
  lemma RootedTable(fs: Fs, fs2: Fs, src: int, dst: int, a: int)
    requires Rooted(fs, fs2, src, dst, a)
    ensures TableInv(fs2, fs2, InodeAt(fs, src).indirect, a, 0)
  {
    var d := InodeAt(fs, src).indirect;
    var W := WordsAt(fs, d);
    assert fs2.blocks[d] == fs.blocks[d];
    SpareStays(fs, fs2, W, dst, dst);
    FreeNotListed(fs, W, a);
    StaysSelf(fs2, a, a);
  }

  lemma SingleFinish(fs: Fs, fs2: Fs, fs3: Fs, src: int, dst: int, a: int)
    requires Rooted(fs, fs2, src, dst, a) && fs2.blocks[a].tag == TagSingle
    requires InodeAt(fs, dst).indirect == NoBlock
    requires fs.blocks[InodeAt(fs, src).indirect].tag == TagSingle
    requires TableInv(fs2, fs3, InodeAt(fs, src).indirect, a, 1000)
    ensures Copied(fs, Rehash(fs3, a), src, dst)
  {
    var d := InodeAt(fs, src).indirect;
    var W := WordsAt(fs, d);
    RootedFinish(fs, fs2, fs3, src, dst, a);
    var r := Rehash(fs3, a);
    assert fs2.blocks[d] == fs.blocks[d];
    assert WordsAt(fs2, d) == W;
    assert Twins(fs2, fs3, W, WordsAt(fs3, a), 1000);
    assert Clear(fs2, fs3, W, a);
    TwinsStay(fs2, fs3, r, W, WordsAt(fs3, a), 1000, a, a);
    TwinsEarlier(fs, fs2, r, W, WordsAt(fs3, a), 1000);
  }

  /** The single-indirect copy of src's table, tagged 6, into a fresh table. */
  lemma IndirectSingle(fs: Fs, src: int, dst: int)
    requires WellFormed(fs) && Shaped(fs, src) && Outside(fs, src, dst) && Held(fs, dst)
    requires InodeAt(fs, dst).indirect == NoBlock
    requires InodeAt(fs, src).indirect != NoBlock
    requires fs.blocks[InodeAt(fs, src).indirect].tag == TagSingle
    ensures var r := DupIndirect(fs, src, dst);
      r.Ok? ==> Copied(fs, r.fs, src, dst)
  {
    var d := InodeAt(fs, src).indirect;
    var fs2, a := SingleStart(fs, src, dst);
    if Root(fs, dst, true).Ok? {
      DupTableSpec(fs2, fs2, d, a, 0);
      var c := DupTable(fs2, d, a, 0);
      if c.Ok? {
        SingleFinish(fs, fs2, c.fs, src, dst, a);
      }
    }
  }
  lemma DoubleStart(fs: Fs, src: int, dst: int) returns (fs2: Fs, a: int)
    requires WellFormed(fs) && Shaped(fs, src) && Outside(fs, src, dst) && Held(fs, dst)
    requires InodeAt(fs, src).indirect != NoBlock
    requires fs.blocks[InodeAt(fs, src).indirect].tag != TagSingle
    ensures var ra := Root(fs, dst, false);
      ra.Ok? ==>
        && fs2 == ra.fs && a == ra.v && Rooted(fs, fs2, src, dst, a)
        && fs2.blocks[a].tag == TagDouble
        && TablesInv(fs2, fs2, InodeAt(fs, src).indirect, a, 0)
  {
    fs2, a := RootedStart(fs, src, dst, false);
    if Root(fs, dst, false).Ok? {
      RootedTables(fs, fs2, src, dst, a);
    }
  }

  /** The fresh empty table a, next to src's table of tables, starts the copy loop. */
  lemma RootedTables(fs: Fs, fs2: Fs, src: int, dst: int, a: int)
    requires Rooted(fs, fs2, src, dst, a) && fs.blocks[InodeAt(fs, src).indirect].tag != TagSingle
    ensures TablesInv(fs2, fs2, InodeAt(fs, src).indirect, a, 0)
  {
    var d := InodeAt(fs, src).indirect;
    var W := WordsAt(fs, d);
    assert fs2.blocks[d] == fs.blocks[d];
    DeepStays(fs, fs2, W, dst);
    FreeAvoided(fs, W, a);
    AvoidsStays(fs, fs2, W, dst, a);
    StaysSelf(fs2, a, a);
  }

  lemma DoubleFinish(fs: Fs, fs2: Fs, fs3: Fs, src: int, dst: int, a: int)
    requires Rooted(fs, fs2, src, dst, a) && fs2.blocks[a].tag == TagDouble
    requires InodeAt(fs, dst).indirect == NoBlock
    requires fs.blocks[InodeAt(fs, src).indirect].tag != TagSingle
    requires TablesInv(fs2, fs3, InodeAt(fs, src).indirect, a, 1000)
    ensures Copied(fs, Rehash(fs3, a), src, dst)
  {
    var d := InodeAt(fs, src).indirect;
    var W := WordsAt(fs, d);
    RootedFinish(fs, fs2, fs3, src, dst, a);
    var r := Rehash(fs3, a);
    assert fs2.blocks[d] == fs.blocks[d];
    assert WordsAt(fs2, d) == W;
    DoubleTables(fs, fs2, fs3, r, d, a);
  }

  /** The finished double table, rehashed, still twins src's table as seen from fs. */
  lemma DoubleTables(fs: Fs, fs2: Fs, fs3: Fs, r: Fs, d: int, a: int)
    requires TablesInv(fs2, fs3, d, a, 1000) && Stays(fs3, r, a, a) && Growth.Kept(fs, fs2)
    ensures TwinTables(fs, r, WordsAt(fs2, d), WordsAt(fs3, a), 1000)
  {
    var W := WordsAt(fs2, d);
    SpareStays(fs2, fs3, W, a, a);
    AvoidsStays(fs2, fs3, W, a, a);
    TwinTablesStay(fs2, fs3, r, W, WordsAt(fs3, a), 1000, a);
    TwinTablesEarlier(fs, fs2, r, W, WordsAt(fs3, a), 1000);
  }

  /** The double-indirect copy of src's table, tagged anything but 6, into a fresh table
      tagged 7. */
  lemma IndirectDouble(fs: Fs, src: int, dst: int)
    requires WellFormed(fs) && Shaped(fs, src) && Outside(fs, src, dst) && Held(fs, dst)
    requires InodeAt(fs, dst).indirect == NoBlock
    requires InodeAt(fs, src).indirect != NoBlock
    requires fs.blocks[InodeAt(fs, src).indirect].tag != TagSingle
    ensures var r := DupIndirect(fs, src, dst);
      r.Ok? ==> Copied(fs, r.fs, src, dst)
  {
    var d := InodeAt(fs, src).indirect;
    var fs2, a := DoubleStart(fs, src, dst);
    if Root(fs, dst, false).Ok? {
      DupTablesSpec(fs2, fs2, d, a, 0);
      var c := DupTables(fs2, d, a, 0);
      if c.Ok? {
        DoubleFinish(fs, fs2, c.fs, src, dst, a);
      }
    }
  }

  /** The indirect part of `copy_interne`: src's table, if any, copied into a fresh
      table of the matching kind; of dst only the indirect pointer changes. */
  lemma DupIndirectSpec(fs: Fs, src: int, dst: int)
    requires WellFormed(fs) && Shaped(fs, src) && Outside(fs, src, dst) && Held(fs, dst)
    requires InodeAt(fs, dst).indirect == NoBlock
    ensures var r := DupIndirect(fs, src, dst);
      r.Ok? ==> Copied(fs, r.fs, src, dst)
  {
    var d := InodeAt(fs, src).indirect;
    if d == NoBlock {
      StaysSelf(fs, dst, dst);
    } else if fs.blocks[d].tag == TagSingle {
      IndirectSingle(fs, src, dst);
    } else {
      IndirectDouble(fs, src, dst);
    }
  }
  /** `copy_interne` into a vacant inode: dst becomes a copy of src (each direct slot and
      the indirect table stand for src's, in blocks that were free), only dst's block
      pointers change, and no used block other than dst is touched, src included. */
  lemma CopyInterneSpec(fs: Fs, src: int, dst: int)
    requires WellFormed(fs) && Shaped(fs, src) && Outside(fs, src, dst) && Held(fs, dst)
    requires Vacant(InodeAt(fs, dst))
    ensures var r := CopyInterne(fs, src, dst);
      r.Ok? ==>
        && Stays(fs, r.fs, dst, dst) && Mirror(fs, r.fs, src, dst)
        && r.fs.blocks[src] == fs.blocks[src] && r.fs.blocks[dst].tag == fs.blocks[dst].tag
        && InodeAt(r.fs, dst) == InodeAt(fs, dst).(direct := InodeAt(r.fs, dst).direct,
                                                   indirect := InodeAt(r.fs, dst).indirect)
  {
    StaysSelf(fs, dst, dst);
    assert DirectInv(fs, fs, src, dst, 0);
    DupDirectSpec(fs, fs, src, dst, 0);
    var r := DupDirect(fs, src, dst, 0);
    if r.Ok? {
      CopyRest(fs, r.fs, src, dst);
    }
  }

  lemma CopyRest(fs: Fs, fs1: Fs, src: int, dst: int)
    requires WellFormed(fs) && Shaped(fs, src) && Outside(fs, src, dst) && Held(fs, dst)
    requires Vacant(InodeAt(fs, dst)) && DirectInv(fs, fs1, src, dst, 900)
    ensures var r := DupIndirect(fs1, src, dst);
      r.Ok? ==>
        && Stays(fs, r.fs, dst, dst) && Mirror(fs, r.fs, src, dst)
        && r.fs.blocks[src] == fs.blocks[src] && r.fs.blocks[dst].tag == fs.blocks[dst].tag
        && InodeAt(r.fs, dst) == InodeAt(fs, dst).(direct := InodeAt(r.fs, dst).direct,
                                                   indirect := InodeAt(r.fs, dst).indirect)
  {
    ShapedStays(fs, fs1, src, dst);
    OutsideStays(fs, fs1, src, dst, dst);
    HeldStays(fs, fs1, dst, dst, dst);
    DupIndirectSpec(fs1, src, dst);
    var r := DupIndirect(fs1, src, dst);
    if r.Ok? {
      StaysTrans(fs, fs1, r.fs, dst, dst);
      var D := InodeAt(fs, src).direct;
      assert r.fs.blocks[src] == fs1.blocks[src];
      TwinsStay(fs, fs1, r.fs, D, InodeAt(fs1, dst).direct, 900, dst, dst);
      IndirectEarlier(fs, fs1, r.fs, src, dst);
    }
  }
  // ---------------------------------------------------------------------------
  // A copy reads like its source

  /** Twin entries are holes together and, when they are not, emit the same bytes. */
  lemma TwinChunk(base: Fs, fs: Fs, rd: Reader, s: int, c: int, e: Emit)
    requires Twin(base, fs, s, c) && e.Emit?
    ensures Hole(rd, s) <==> Hole(rd, c)
    ensures !Hole(rd, s) ==> InRange(fs, s) && InRange(fs, c) && Chunk(fs, s, e) == Chunk(fs, c, e)
  {
  }

  lemma {:induction false} DirectTwins(base: Fs, fs: Fs, rd: Reader, w: Direct, v: Direct, i: nat, e: Emit)
    requires Twins(base, fs, w, v, 900) && i <= 900
    ensures ReadDirect(fs, rd, v, i, e) == ReadDirect(fs, rd, w, i, e)
    decreases 900 - i
  {
    if e.Emit? && i < 900 && e.rem != 0 {
      TwinChunk(base, fs, rd, w[i], v[i], e);
      if !Hole(rd, w[i]) {
        DirectTwins(base, fs, rd, w, v, i + 1, Chunk(fs, w[i], e));
      }
    }
  }

  lemma {:induction false} TableTwins(base: Fs, fs: Fs, rd: Reader, w: Addresses, v: Addresses, i: nat, e: Emit)
    requires Twins(base, fs, w, v, 1000) && i <= 1000
    ensures ReadTable(fs, rd, v, i, e) == ReadTable(fs, rd, w, i, e)
    decreases 1000 - i
  {
    if e.Emit? && i < 1000 && e.rem != 0 {
      TwinChunk(base, fs, rd, w[i], v[i], e);
      if !Hole(rd, w[i]) {
        TableTwins(base, fs, rd, w, v, i + 1, Chunk(fs, w[i], e));
      } else if rd.CatReader? {
        TableTwins(base, fs, rd, w, v, i + 1, e);
      }
    }
  }

  lemma {:induction false} TablesTwins(base: Fs, fs: Fs, rd: Reader, w: Addresses, v: Addresses, i: nat, e: Emit)
    requires TwinTables(base, fs, w, v, 1000) && i <= 1000
    ensures ReadTables(fs, rd, v, i, e) == ReadTables(fs, rd, w, i, e)
    decreases 1000 - i
  {
    if e.Emit? && i < 1000 && e.rem != 0 {
      assert TwinTable(base, fs, w[i], v[i]);
      if w[i] != NoBlock {
        TableTwins(base, fs, rd, WordsAt(fs, w[i]), WordsAt(fs, v[i]), 0, e);
        TablesTwins(base, fs, rd, w, v, i + 1, ReadTable(fs, rd, WordsAt(fs, w[i]), 0, e));
      } else if rd.CatReader? {
        TablesTwins(base, fs, rd, w, v, i + 1, e);
      }
    }
  }

  /** A copy of the same size reads, through either reader, exactly like its source. */
  lemma MirrorReads(base: Fs, fs: Fs, src: int, dst: int, rd: Reader)
    requires Mirror(base, fs, src, dst) && InodeAt(fs, dst).size == InodeAt(fs, src).size
    ensures ReadFile(fs, rd, InodeAt(fs, dst)) == ReadFile(fs, rd, InodeAt(fs, src))
  {
    var n := InodeAt(fs, src);
    var m := InodeAt(fs, dst);
    DirectTwins(base, fs, rd, n.direct, m.direct, 0, Emit([], n.size));
    var e := ReadDirect(fs, rd, n.direct, 0, Emit([], n.size));
    if e.Emit? && e.rem != 0 && n.indirect != NoBlock {
      if fs.blocks[n.indirect].tag == TagSingle {
        TableTwins(base, fs, rd, WordsAt(fs, n.indirect), WordsAt(fs, m.indirect), 0, e);
      } else {
        TablesTwins(base, fs, rd, WordsAt(fs, n.indirect), WordsAt(fs, m.indirect), 0, e);
      }
    }
  }
  // ---------------------------------------------------------------------------
  // copy_interne_main

  /** A frame whose exception x is a block used in base, outside src, and either not
      dst or a rewrite of dst's digest alone, keeps a copy a copy. */
  lemma MirrorStays(base: Fs, fs: Fs, fs': Fs, src: int, dst: int, x: int)
    requires Mirror(base, fs, src, dst) && Stays(fs, fs', x, x)
    requires Held(fs, src) && Held(fs, dst) && Held(base, x) && Outside(fs, src, x)
    requires x != dst || fs'.blocks[x].payload == fs.blocks[x].payload
    ensures Mirror(base, fs', src, dst)
  {
    assert fs'.blocks[src] == fs.blocks[src];
    assert InodeAt(fs', dst) == InodeAt(fs, dst);
    var n := InodeAt(fs, src);
    var m := InodeAt(fs, dst);
    TwinsStay(base, fs, fs', n.direct, m.direct, 900, x, x);
    var d := n.indirect;
    if d != NoBlock {
      var e := m.indirect;
      assert fs'.blocks[d] == fs.blocks[d] && fs'.blocks[e] == fs.blocks[e];
      if fs.blocks[d].tag == TagSingle {
        TwinsStay(base, fs, fs', WordsAt(fs, d), WordsAt(fs, e), 1000, x, x);
      } else {
        TwinTablesStay(base, fs, fs', WordsAt(fs, d), WordsAt(fs, e), 1000, x);
      }
    }
  }

  lemma MirrorEarlier(base: Fs, base': Fs, fs: Fs, src: int, dst: int)
    requires Mirror(base', fs, src, dst) && Growth.Kept(base, base')
    ensures Mirror(base, fs, src, dst)
  {
    TwinsEarlier(base, base', fs, InodeAt(fs, src).direct, InodeAt(fs, dst).direct, 900);
    IndirectEarlier(base, base', fs, src, dst);
  }
  /** The fresh inode of a copy: a data block free before and used after, sealed, tagged
      as an inode, one level below dir, initialised with src's name as the requested
      kind, owning no block; no used block changes. */
  lemma NewEntrySpec(fs: Fs, src: int, dir: int, isDir: bool, now: u32)
    requires WellFormed(fs) && Held(fs, src) && Held(fs, dir)
    ensures var e := NewEntry(fs, src, dir, isDir, now);
      e.Ok? ==>
        && Open(fs, e.v) && Held(e.fs, e.v) && Stays(fs, e.fs, NoBlock, NoBlock)
        && Fresh(InodeAt(e.fs, e.v), NameText(InodeAt(fs, src).name), isDir, now)
        && Vacant(InodeAt(e.fs, e.v))
        && InodeAt(e.fs, e.v).depth == Wrap32(InodeAt(fs, dir).depth as int + 1)
        && Sealed(e.fs.blocks[e.v]) && e.fs.blocks[e.v].tag == TagInode
  {
    NewEntryFrame(fs, src, dir, isDir, now);
    NewEntryInode(fs, src, dir, isDir, now);
    NewEntryDepth(fs, src, dir, isDir, now);
  }

  lemma NewEntryFrame(fs: Fs, src: int, dir: int, isDir: bool, now: u32)
    requires WellFormed(fs) && Held(fs, src) && Held(fs, dir)
    ensures var e := NewEntry(fs, src, dir, isDir, now);
      e.Ok? ==> Open(fs, e.v) && Held(e.fs, e.v) && Stays(fs, e.fs, NoBlock, NoBlock)
  {
    AllocStays(fs);
    var a := AllocDataBlock(fs);
    var e := NewEntry(fs, src, dir, isDir, now);
    if e.Ok? {
      var b := a.v;
      TwoWrites(a.fs, e.fs, b, b);
      StaysWiden(fs, a.fs, NoBlock, NoBlock, b, b);
      StaysTrans(fs, a.fs, e.fs, b, b);
      StaysWiden(fs, e.fs, b, b, NoBlock, NoBlock);
      HeldStays(a.fs, e.fs, b, b, b);
    }
  }

  lemma NewEntryInode(fs: Fs, src: int, dir: int, isDir: bool, now: u32)
    requires WellFormed(fs) && Held(fs, src) && Held(fs, dir)
    ensures var e := NewEntry(fs, src, dir, isDir, now);
      e.Ok? ==>
        && Fresh(InodeAt(e.fs, e.v), NameText(InodeAt(fs, src).name), isDir, now)
        && Vacant(InodeAt(e.fs, e.v))
        && Sealed(e.fs.blocks[e.v]) && e.fs.blocks[e.v].tag == TagInode
  {
    AllocStays(fs);
    var a := AllocDataBlock(fs);
    if a.v != NoBlock {
      SameInode(fs, a.fs, src);
      StampSpec(a.fs, a.v, src, dir, isDir, now);
    }
  }

  lemma NewEntryDepth(fs: Fs, src: int, dir: int, isDir: bool, now: u32)
    requires WellFormed(fs) && Held(fs, src) && Held(fs, dir)
    ensures var e := NewEntry(fs, src, dir, isDir, now);
      e.Ok? ==> InodeAt(e.fs, e.v).depth == Wrap32(InodeAt(fs, dir).depth as int + 1)
  {
    AllocStays(fs);
    var a := AllocDataBlock(fs);
    if a.v != NoBlock {
      SameInode(fs, a.fs, dir);
      StampSpec(a.fs, a.v, src, dir, isDir, now);
    }
  }

  lemma StampSpec(fs: Fs, b: int, src: int, dir: int, isDir: bool, now: u32)
    requires InRange(fs, b) && InRange(fs, src) && InRange(fs, dir) && b != src && b != dir
    ensures var r := Stamp(fs, b, src, dir, isDir, now);
      && Fresh(InodeAt(r, b), NameText(InodeAt(fs, src).name), isDir, now)
      && Vacant(InodeAt(r, b))
      && InodeAt(r, b).depth == Wrap32(InodeAt(fs, dir).depth as int + 1)
      && Sealed(r.blocks[b]) && r.blocks[b].tag == TagInode
  {
    var fs1 := Mv.SetDepth(fs, b, Mv.NewDepth(fs, Mv.Under(dir)));
    SameInode(fs, fs1, src);
    InitInodeAtSpec(fs1, b, NameText(InodeAt(fs1, src).name), isDir, now);
  }

  lemma SameInode(fs: Fs, fs': Fs, b: int)
    requires InRange(fs, b) && InRange(fs', b) && fs'.blocks[b] == fs.blocks[b]
    ensures InodeAt(fs', b) == InodeAt(fs, b)
  {
  }

  lemma InitInodeAtSpec(fs: Fs, b: int, name: CStr, isDir: bool, now: u32)
    requires InRange(fs, b)
    ensures var r := InitInodeAt(fs, b, name, isDir, now);
      && Fresh(InodeAt(r, b), name, isDir, now) && Vacant(InodeAt(r, b))
      && InodeAt(r, b).depth == InodeAt(fs, b).depth
      && Sealed(r.blocks[b]) && r.blocks[b].tag == TagInode
  {
    var m := InitInode(InodeAt(fs, b), name, isDir, now);
    assert InodeAt(InitInodeAt(fs, b, name, isDir, now), b) == m;
    InitInodeFresh(InodeAt(fs, b), name, isDir, now);
  }

  // ---------------------------------------------------------------------------
  // copy_interne_main as a whole

  /** Linking b into dir: a full directory is fatal and writes nothing; otherwise b is
      listed in dir's first empty slot, dir's time is stamped, b is sealed with its
      contents kept, and no other used block changes. mid is the state between
      `add_inode` and the digest of b. */
  lemma LinkSpec(fs: Fs, dir: int, b: int, now: u32) returns (mid: Fs)
    requires WellFormed(fs) && Held(fs, dir) && Held(fs, b) && dir != b
    ensures var l := Link(fs, dir, b, now);
      && !l.Fault? && (l.Exit? <==> NoBlock !in InodeAt(fs, dir).direct) && (l.Exit? ==> l.fs == fs)
    ensures var l := Link(fs, dir, b, now);
      l.Ok? ==>
        && Stays(fs, mid, dir, dir) && Stays(mid, l.fs, b, b) && Held(mid, b)
        && mid.blocks[b] == fs.blocks[b] && l.fs.blocks[b].payload == fs.blocks[b].payload
        && Sealed(l.fs.blocks[b]) && l.fs.blocks[b].tag == fs.blocks[b].tag
        && InodeAt(l.fs, dir) == InodeAt(fs, dir).(direct := AddSlot(InodeAt(fs, dir).direct, WrapI32(b)), mtime := now)
  {
    AddInodeSpec(fs, dir, WrapI32(b), now);
    var d := AddInode(fs, dir, WrapI32(b), now);
    mid := d.fs;
    if d.Ok? {
      OneWrite(fs, mid, dir);
      HeldStays(fs, mid, dir, dir, b);
      var r := Rehash(mid, b);
      OneWrite(mid, r, b);
      assert r.blocks[dir] == mid.blocks[dir];
      SameInode(mid, r, dir);
    }
  }

  /** The fresh inode before the copy: a block free in fs and used now, vacant, of the
      kind and size a copy gets, one level below dir; no used block changed, so src is
      still shaped and neither b nor dir lies inside it. */
  lemma ReadyFrame(fs: Fs, src: int, dir: int, now: u32, fixed: bool)
    requires WellFormed(fs) && Shaped(fs, src) && Held(fs, dir) && Outside(fs, src, dir)
    ensures var e := NewEntry(fs, src, dir, !fixed, now);
      e.Ok? ==>
        && InRange(e.fs, src)
        && var fs1 := Sized(e.fs, e.v, src, fixed);
        && Stays(fs, fs1, NoBlock, NoBlock) && Open(fs, e.v) && Held(fs1, e.v) && Held(fs1, dir)
        && Shaped(fs1, src) && Outside(fs1, src, e.v) && Outside(fs1, src, dir)
        && fs1.blocks[src] == fs.blocks[src] && fs1.blocks[dir] == fs.blocks[dir]
  {
    NewEntryFrame(fs, src, dir, !fixed, now);
    var e := NewEntry(fs, src, dir, !fixed, now);
    if e.Ok? {
      var b := e.v;
      var fs1 := Sized(e.fs, b, src, fixed);
      SizedStays(fs, e.fs, b, src, fixed);
      HeldStays(fs, fs1, NoBlock, NoBlock, dir);
      FreeOutside(fs, src, b);
      StaysWiden(fs, fs1, NoBlock, NoBlock, b, b);
      ShapedStays(fs, fs1, src, b);
      OutsideStays(fs, fs1, src, b, b);
      OutsideStays(fs, fs1, src, b, dir);
    }
  }

  lemma SizedStays(fs: Fs, efs: Fs, b: int, src: int, fixed: bool)
    requires Stays(fs, efs, NoBlock, NoBlock) && Open(fs, b) && Held(efs, b) && InRange(efs, src)
    ensures var fs1 := Sized(efs, b, src, fixed);
      Stays(fs, fs1, NoBlock, NoBlock) && Held(fs1, b)
  {
    var fs1 := Sized(efs, b, src, fixed);
    if fixed {
      OneWrite(efs, fs1, b);
      StaysWiden(fs, efs, NoBlock, NoBlock, b, b);
      StaysTrans(fs, efs, fs1, b, b);
      StaysWiden(fs, fs1, b, b, NoBlock, NoBlock);
      HeldStays(efs, fs1, b, b, b);
    }
  }

  /** The fresh inode before the copy, field by field. */
  lemma ReadyInode(fs: Fs, src: int, dir: int, now: u32, fixed: bool)
    requires WellFormed(fs) && Held(fs, src) && Held(fs, dir)
    ensures var e := NewEntry(fs, src, dir, !fixed, now);
      e.Ok? ==>
        && InRange(e.fs, src)
        && var n := InodeAt(Sized(e.fs, e.v, src, fixed), e.v);
        && Vacant(n) && (IsDir(n) <==> !fixed)
        && n.size == (if fixed then InodeAt(fs, src).size else 0)
        && NameText(n.name) == Trunc(NameText(InodeAt(fs, src).name), 255)
        && n.depth == Wrap32(InodeAt(fs, dir).depth as int + 1)
        && Sized(e.fs, e.v, src, fixed).blocks[e.v].tag == TagInode
  {
    NewEntryFrame(fs, src, dir, !fixed, now);
    NewEntryInode(fs, src, dir, !fixed, now);
    NewEntryDepth(fs, src, dir, !fixed, now);
    var e := NewEntry(fs, src, dir, !fixed, now);
    if e.Ok? && fixed {
      assert e.fs.blocks[src] == fs.blocks[src];
      SameInode(fs, e.fs, src);
    }
  }

  /** Equal payloads hold the same inode. */
  lemma SamePayload(fs: Fs, fs': Fs, b: int)
    requires InRange(fs, b) && InRange(fs', b) && fs'.blocks[b].payload == fs.blocks[b].payload
    ensures InodeAt(fs', b) == InodeAt(fs, b)
  {
  }

  /** The copy into the fresh inode b and its link into dir keep b a copy of src. */
  lemma LinkedMirror(fs1: Fs, src: int, dir: int, b: int, now: u32)
    requires WellFormed(fs1) && Shaped(fs1, src) && Outside(fs1, src, b) && Outside(fs1, src, dir)
    requires Held(fs1, b) && Held(fs1, dir) && Vacant(InodeAt(fs1, b)) && b != dir
    ensures var c := CopyInterne(fs1, src, b);
      c.Ok? ==>
        && Stays(fs1, c.fs, b, b)
        && var l := Link(c.fs, dir, b, now);
        && !l.Fault? && (l.Exit? ==> NoBlock !in InodeAt(fs1, dir).direct)
        && (l.Ok? ==> Mirror(fs1, l.fs, src, b))
  {
    CopyInterneSpec(fs1, src, b);
    var c := CopyInterne(fs1, src, b);
    if c.Ok? {
      HeldStays(fs1, c.fs, b, b, dir);
      HeldStays(fs1, c.fs, b, b, b);
      var mid := LinkSpec(c.fs, dir, b, now);
      assert c.fs.blocks[dir] == fs1.blocks[dir];
      SameInode(fs1, c.fs, dir);
      var l := Link(c.fs, dir, b, now);
      if l.Ok? {
        ShapedStays(fs1, c.fs, src, b);
        OutsideStays(fs1, c.fs, src, b, dir);
        OutsideStays(fs1, c.fs, src, b, b);
        MirrorStays(fs1, c.fs, mid, src, b, dir);
        HeldStays(c.fs, mid, dir, dir, src);
        OutsideStays(c.fs, mid, src, dir, b);
        MirrorStays(fs1, mid, l.fs, src, b, b);
      }
    }
  }

  /** The copy into the fresh inode b and its link into dir touch no used block but b
      and dir, change only b's block pointers, and leave b sealed. */
  lemma LinkedFrame(fs1: Fs, src: int, dir: int, b: int, now: u32)
    requires WellFormed(fs1) && Shaped(fs1, src) && Outside(fs1, src, b) && Outside(fs1, src, dir)
    requires Held(fs1, b) && Held(fs1, dir) && Vacant(InodeAt(fs1, b)) && b != dir
    ensures var c := CopyInterne(fs1, src, b);
      c.Ok? ==>
        var l := Link(c.fs, dir, b, now);
        l.Ok? ==>
          && Stays(fs1, l.fs, dir, b) && Sealed(l.fs.blocks[b]) && l.fs.blocks[b].tag == fs1.blocks[b].tag
          && InodeAt(l.fs, b) == InodeAt(fs1, b).(direct := InodeAt(l.fs, b).direct,
                                                  indirect := InodeAt(l.fs, b).indirect)
          && HasRoom(InodeAt(fs1, dir).direct)
          && InodeAt(l.fs, dir) == InodeAt(fs1, dir).(direct := AddSlot(InodeAt(fs1, dir).direct, WrapI32(b)), mtime := now)
  {
    CopyInterneSpec(fs1, src, b);
    var c := CopyInterne(fs1, src, b);
    if c.Ok? {
      HeldStays(fs1, c.fs, b, b, dir);
      HeldStays(fs1, c.fs, b, b, b);
      var mid := LinkSpec(c.fs, dir, b, now);
      assert c.fs.blocks[dir] == fs1.blocks[dir];
      SameInode(fs1, c.fs, dir);
      var l := Link(c.fs, dir, b, now);
      if l.Ok? {
        AddSlotSpec(InodeAt(fs1, dir).direct, WrapI32(b));
        SamePayload(c.fs, l.fs, b);
        StaysWiden(fs1, c.fs, b, b, dir, b);
        StaysWiden(c.fs, mid, dir, dir, dir, b);
        StaysWiden(mid, l.fs, b, b, dir, b);
        StaysTrans(fs1, c.fs, mid, dir, b);
        StaysTrans(fs1, mid, l.fs, dir, b);
      }
    }
  }

  /** `copy_interne_main` (`fixed` false) and its corrected form: the copy is a block that
      was free and is now used, sealed, and listed in dir's first empty slot; its blocks
      stand for src's in blocks that were free; no block used before changes except dir,
      so src is left as it was. A full directory is fatal. */
  lemma CopyUnderSpec(fs: Fs, src: int, dir: int, now: u32, fixed: bool)
    requires WellFormed(fs) && Shaped(fs, src) && Held(fs, dir) && Outside(fs, src, dir)
    ensures var r := CopyUnder(fs, src, dir, now, fixed);
      r.Exit? ==> NoBlock !in InodeAt(fs, dir).direct
    ensures var r := CopyUnder(fs, src, dir, now, fixed);
      r.Ok? ==>
        && Open(fs, r.v) && Held(r.fs, r.v) && Stays(fs, r.fs, dir, dir)
        && Mirror(fs, r.fs, src, r.v) && Sealed(r.fs.blocks[r.v]) && r.fs.blocks[r.v].tag == TagInode
        && HasRoom(InodeAt(fs, dir).direct)
        && InodeAt(r.fs, dir) == InodeAt(fs, dir).(direct := AddSlot(InodeAt(fs, dir).direct, WrapI32(r.v)), mtime := now)
  {
    ReadyFrame(fs, src, dir, now, fixed);
    ReadyInode(fs, src, dir, now, fixed);
    var e := NewEntry(fs, src, dir, !fixed, now);
    if e.Ok? {
      var b := e.v;
      var fs1 := Sized(e.fs, b, src, fixed);
      SameInode(fs, fs1, dir);
      LinkedMirror(fs1, src, dir, b, now);
      LinkedFrame(fs1, src, dir, b, now);
      var c := CopyInterne(fs1, src, b);
      if c.Ok? {
        var l := Link(c.fs, dir, b, now);
        if l.Ok? {
          CopyUnderChain(fs, fs1, l.fs, src, dir, b, now);
          assert CopyUnder(fs, src, dir, now, fixed) == Ok(l.fs, b);
        }
      }
    }
  }

  /** The stages of a copy put together: the fresh inode b, then the copy and the link. */
  lemma CopyUnderChain(fs: Fs, fs1: Fs, fs2: Fs, src: int, dir: int, b: int, now: u32)
    requires WellFormed(fs) && InRange(fs, dir) && InRange(fs, b)
    requires Stays(fs, fs1, NoBlock, NoBlock) && Open(fs, b) && Held(fs1, b)
    requires fs1.blocks[dir] == fs.blocks[dir] && fs1.blocks[b].tag == TagInode
    requires Stays(fs1, fs2, dir, b) && Sealed(fs2.blocks[b]) && fs2.blocks[b].tag == fs1.blocks[b].tag
    requires Mirror(fs1, fs2, src, b) && HasRoom(InodeAt(fs1, dir).direct)
    requires InodeAt(fs2, dir) == InodeAt(fs1, dir).(direct := AddSlot(InodeAt(fs1, dir).direct, WrapI32(b)), mtime := now)
    ensures Held(fs2, b) && Stays(fs, fs2, dir, dir) && Mirror(fs, fs2, src, b)
    ensures HasRoom(InodeAt(fs, dir).direct)
    ensures InodeAt(fs2, dir) == InodeAt(fs, dir).(direct := AddSlot(InodeAt(fs, dir).direct, WrapI32(b)), mtime := now)
  {
    SameInode(fs, fs1, dir);
    HeldStays(fs1, fs2, dir, b, b);
    StaysWiden(fs, fs1, NoBlock, NoBlock, dir, b);
    StaysTrans(fs, fs1, fs2, dir, b);
    StaysWiden(fs, fs2, dir, b, dir, dir);
    MirrorEarlier(fs, fs1, fs2, src, b);
  }

  /** The inode of a copy: as written a directory of size 0, corrected a file of src's
      size; either way named like src. */
  lemma CopyUnderInode(fs: Fs, src: int, dir: int, now: u32, fixed: bool)
    requires WellFormed(fs) && Shaped(fs, src) && Held(fs, dir) && Outside(fs, src, dir)
    ensures var r := CopyUnder(fs, src, dir, now, fixed);
      r.Ok? ==>
        && InRange(r.fs, r.v)
        && var n := InodeAt(r.fs, r.v);
        && (IsDir(n) <==> !fixed)
        && n.size == (if fixed then InodeAt(fs, src).size else 0)
        && NameText(n.name) == Trunc(NameText(InodeAt(fs, src).name), 255)
        && n.depth == Wrap32(InodeAt(fs, dir).depth as int + 1)
  {
    ReadyFrame(fs, src, dir, now, fixed);
    ReadyInode(fs, src, dir, now, fixed);
    var e := NewEntry(fs, src, dir, !fixed, now);
    if e.Ok? {
      var b := e.v;
      var fs1 := Sized(e.fs, b, src, fixed);
      LinkedFrame(fs1, src, dir, b, now);
      var c := CopyInterne(fs1, src, b);
      if c.Ok? {
        var l := Link(c.fs, dir, b, now);
        if l.Ok? {
          var n1 := InodeAt(fs1, b);
          var n := InodeAt(l.fs, b);
          assert n == n1.(direct := n.direct, indirect := n.indirect);
          assert n.flags == n1.flags && n.size == n1.size && n.name == n1.name && n.depth == n1.depth;
        }
      }
    }
  }

  // ---------------------------------------------------------------------------
  // Reading after the copy

  /** Every block w names is where it was and as it was. */
  ghost predicate Same(fs: Fs, fs': Fs, w: seq<int>) {
    && |fs'.blocks| == |fs.blocks|
    && forall j :: 0 <= j < |w| && w[j] != NoBlock ==> InRange(fs, w[j]) && fs'.blocks[w[j]] == fs.blocks[w[j]]
  }

  lemma SpareSame(fs: Fs, fs': Fs, w: seq<int>, x: int)
    requires Stays(fs, fs', x, x) && Spare(fs, w) && x !in w
    ensures Same(fs, fs', w)
  {
    forall j | 0 <= j < |w| && w[j] != NoBlock
      ensures InRange(fs, w[j]) && fs'.blocks[w[j]] == fs.blocks[w[j]]
    {
      assert Held(fs, w[j]);
    }
  }

  lemma {:induction false} DirectSame(fs: Fs, fs': Fs, rd: Reader, w: Direct, i: nat, e: Emit)
    requires Same(fs, fs', w) && Spare(fs, w) && i <= 900
    ensures ReadDirect(fs', rd, w, i, e) == ReadDirect(fs, rd, w, i, e)
    decreases 900 - i
  {
    if e.Emit? && i < 900 && e.rem != 0 && !Hole(rd, w[i]) {
      assert Held(fs, w[i]);
      DirectSame(fs, fs', rd, w, i + 1, Chunk(fs, w[i], e));
    }
  }

  lemma {:induction false} TableSame(fs: Fs, fs': Fs, rd: Reader, w: Addresses, i: nat, e: Emit)
    requires Same(fs, fs', w) && Spare(fs, w) && i <= 1000
    ensures ReadTable(fs', rd, w, i, e) == ReadTable(fs, rd, w, i, e)
    decreases 1000 - i
  {
    if e.Emit? && i < 1000 && e.rem != 0 {
      if !Hole(rd, w[i]) {
        assert Held(fs, w[i]);
        TableSame(fs, fs', rd, w, i + 1, Chunk(fs, w[i], e));
      } else if rd.CatReader? {
        TableSame(fs, fs', rd, w, i + 1, e);
      }
    }
  }

  lemma {:induction false} TablesSame(fs: Fs, fs': Fs, rd: Reader, w: Addresses, i: nat, e: Emit, x: int)
    requires Stays(fs, fs', x, x) && Deep(fs, w) && Avoids(fs, w, x) && i <= 1000
    ensures ReadTables(fs', rd, w, i, e) == ReadTables(fs, rd, w, i, e)
    decreases 1000 - i
  {
    if e.Emit? && i < 1000 && e.rem != 0 {
      if !Hole(rd, w[i]) {
        assert Held(fs, w[i]);
        var t := WordsAt(fs, w[i]);
        assert fs'.blocks[w[i]] == fs.blocks[w[i]];
        SpareSame(fs, fs', t, x);
        TableSame(fs, fs', rd, t, 0, e);
        TablesSame(fs, fs', rd, w, i + 1, ReadTable(fs, rd, t, 0, e), x);
      } else if rd.CatReader? {
        TablesSame(fs, fs', rd, w, i + 1, e, x);
      }
    }
  }

  /** A frame whose exception lies outside a shaped inode leaves what the inode reads
      as it was, through either reader. */
  lemma FileSame(fs: Fs, fs': Fs, src: int, x: int, rd: Reader)
    requires Stays(fs, fs', x, x) && Shaped(fs, src) && Outside(fs, src, x)
    ensures InRange(fs', src) && InodeAt(fs', src) == InodeAt(fs, src)
    ensures ReadFile(fs', rd, InodeAt(fs', src)) == ReadFile(fs, rd, InodeAt(fs, src))
  {
    assert fs'.blocks[src] == fs.blocks[src];
    var n := InodeAt(fs, src);
    SpareSame(fs, fs', n.direct, x);
    DirectSame(fs, fs', rd, n.direct, 0, Emit([], n.size));
    var e := ReadDirect(fs, rd, n.direct, 0, Emit([], n.size));
    if e.Emit? && e.rem != 0 && !Hole(rd, n.indirect) {
      assert Held(fs, n.indirect);
      assert fs'.blocks[n.indirect] == fs.blocks[n.indirect];
      var W := WordsAt(fs, n.indirect);
      if fs.blocks[n.indirect].tag == TagSingle {
        SpareSame(fs, fs', W, x);
        TableSame(fs, fs', rd, W, 0, e);
      } else {
        TablesSame(fs, fs', rd, W, 0, e, x);
      }
    }
  }

  /** The corrected copy reads, through either reader, exactly as its source read
      before the copy; the source itself is untouched. */
  lemma CopyReadsLikeSource(fs: Fs, src: int, dir: int, now: u32, rd: Reader)
    requires WellFormed(fs) && Shaped(fs, src) && Held(fs, dir) && Outside(fs, src, dir)
    ensures var r := CopyUnder(fs, src, dir, now, true);
      r.Ok? ==>
        && InodeAt(r.fs, src) == InodeAt(fs, src)
        && ReadFile(r.fs, rd, InodeAt(r.fs, r.v)) == ReadFile(fs, rd, InodeAt(fs, src))
  {
    CopyUnderSpec(fs, src, dir, now, true);
    CopyUnderInode(fs, src, dir, now, true);
    var r := CopyUnder(fs, src, dir, now, true);
    if r.Ok? {
      FileSame(fs, r.fs, src, dir, rd);
      MirrorReads(fs, r.fs, src, r.v, rd);
    }
  }

  /** As written the copy is an empty directory: reading it yields nothing, whatever
      the source holds. */
  lemma CopyIsEmptyFolder(fs: Fs, src: int, dir: int, now: u32, rd: Reader)
    requires WellFormed(fs) && Shaped(fs, src) && Held(fs, dir) && Outside(fs, src, dir)
    ensures var r := CopyUnder(fs, src, dir, now, false);
      r.Ok? ==>
        && IsDir(InodeAt(r.fs, r.v))
        && ReadFile(r.fs, rd, InodeAt(r.fs, r.v)) == Emit([], 0)
  {
    CopyUnderInode(fs, src, dir, now, false);
  }

  // ---------------------------------------------------------------------------
  // A file inside a copied folder

  /** The writes before the copy of a file child: only c and b change, and both are
      left vacant. */
  lemma ReinitSpec(fs: Fs, b: int, c: int, dst: int, now: u32)
    requires WellFormed(fs) && Held(fs, b) && Held(fs, c) && InRange(fs, dst) && b != c
    ensures var r := Reinit(fs, b, c, dst, now);
      && Stays(fs, r, c, b) && Held(r, b) && Held(r, c)
      && Vacant(InodeAt(r, c)) && InodeAt(r, c).size == 0 && Vacant(InodeAt(r, b))
  {
    ReinitWrites(fs, b, c, dst, now);
    var r := Reinit(fs, b, c, dst, now);
    TwoWrites(fs, r, c, b);
    HeldStays(fs, r, c, b, b);
    HeldStays(fs, r, c, b, c);
  }

  lemma ReinitWrites(fs: Fs, b: int, c: int, dst: int, now: u32)
    requires InRange(fs, b) && InRange(fs, c) && InRange(fs, dst) && b != c
    ensures var r := Reinit(fs, b, c, dst, now);
      && (forall k :: 0 <= k < |fs.blocks| && k != c && k != b ==> r.blocks[k] == fs.blocks[k])
      && Vacant(InodeAt(r, c)) && InodeAt(r, c).size == 0 && Vacant(InodeAt(r, b))
  {
    ReinitFrame(fs, b, c, dst, now);
    var fs1 := InitInodeAt(fs, c, NameText(InodeAt(fs, c).name), false, now);
    var fs2 := Mv.SetDepth(fs1, b, Mv.NewDepth(fs1, Mv.Under(dst)));
    var r := Reinit(fs, b, c, dst, now);
    InitInodeAtSpec(fs, c, NameText(InodeAt(fs, c).name), false, now);
    InitInodeAtSpec(fs2, b, NameText(InodeAt(fs2, c).name), false, now);
    SameInode(fs1, r, c);
  }

  lemma ReinitFrame(fs: Fs, b: int, c: int, dst: int, now: u32)
    requires InRange(fs, b) && InRange(fs, c) && InRange(fs, dst) && b != c
    ensures var r := Reinit(fs, b, c, dst, now);
      && r.blocks[c] == InitInodeAt(fs, c, NameText(InodeAt(fs, c).name), false, now).blocks[c]
      && forall k :: 0 <= k < |fs.blocks| && k != c && k != b ==> r.blocks[k] == fs.blocks[k]
  {
  }

  /** An inode of size 0 reads as nothing. */
  lemma EmptyReadsNothing(fs: Fs, rd: Reader, n: Inode)
    requires n.size == 0
    ensures ReadFile(fs, rd, n) == Emit([], 0)
  {
  }

  /** As written, copying a file c into a copied folder empties c itself first: once
      the child is copied, c owns no block, has size 0 and reads as nothing. */
  lemma ChildWipesSource(fs: Fs, c: int, dst: int, now: u32, fuel: nat, rd: Reader)
    requires WellFormed(fs) && Held(fs, c) && Held(fs, dst) && c != dst && !IsDir(InodeAt(fs, c))
    ensures var r := CopyChild(fs, c, dst, now, fuel, false);
      r.Ok? ==>
        && InRange(r.fs, c) && Vacant(InodeAt(r.fs, c)) && InodeAt(r.fs, c).size == 0
        && ReadFile(r.fs, rd, InodeAt(r.fs, c)) == Emit([], 0)
  {
    AllocStays(fs);
    var a := AllocDataBlock(fs);
    if a.v != NoBlock {
      var b := a.v;
      HeldStays(fs, a.fs, NoBlock, NoBlock, c);
      HeldStays(fs, a.fs, NoBlock, NoBlock, dst);
      ReinitSpec(a.fs, b, c, dst, now);
      var fs3 := Reinit(a.fs, b, c, dst, now);
      HeldStays(a.fs, fs3, c, b, dst);
      ChildCopied(fs3, c, dst, b, now);
      var r := CopyInterne(fs3, c, b);
      if r.Ok? {
        var l := Link(r.fs, dst, b, now);
        if l.Ok? {
          SameInode(fs3, l.fs, c);
          assert CopyChild(fs, c, dst, now, fuel, false) == l;
          EmptyReadsNothing(l.fs, rd, InodeAt(l.fs, c));
        }
      }
    }
  }

  lemma ChildCopied(fs: Fs, c: int, dst: int, b: int, now: u32)
    requires WellFormed(fs) && Held(fs, c) && Held(fs, dst) && Held(fs, b)
    requires c != dst && c != b && b != dst && Vacant(InodeAt(fs, c)) && Vacant(InodeAt(fs, b))
    ensures var r := CopyInterne(fs, c, b);
      r.Ok? ==>
        var l := Link(r.fs, dst, b, now);
        l.Ok? ==> l.fs.blocks[c] == fs.blocks[c]
  {
    assert Shaped(fs, c);
    assert Outside(fs, c, b);
    CopyInterneSpec(fs, c, b);
    var r := CopyInterne(fs, c, b);
    if r.Ok? {
      HeldStays(fs, r.fs, b, b, dst);
      HeldStays(fs, r.fs, b, b, b);
      HeldStays(fs, r.fs, b, b, c);
      var mid := LinkSpec(r.fs, dst, b, now);
    }
  }

  /** Corrected, a file c copied into a copied folder is left as it was and still
      reads the same. */
  lemma ChildKeepsSource(fs: Fs, c: int, dst: int, now: u32, fuel: nat, rd: Reader)
    requires WellFormed(fs) && Shaped(fs, c) && Held(fs, dst) && Outside(fs, c, dst) && !IsDir(InodeAt(fs, c))
    ensures var r := CopyChild(fs, c, dst, now, fuel, true);
      r.Ok? ==>
        && InRange(r.fs, c) && InodeAt(r.fs, c) == InodeAt(fs, c)
        && ReadFile(r.fs, rd, InodeAt(r.fs, c)) == ReadFile(fs, rd, InodeAt(fs, c))
  {
    CopyUnderSpec(fs, c, dst, now, true);
    var e := CopyUnder(fs, c, dst, now, true);
    if e.Ok? {
      FileSame(fs, e.fs, c, dst, rd);
    }
  }

  // ---------------------------------------------------------------------------
  // Copies from and to the host

  /** What an export writes: when the host file can be opened, the first `file_size`
      bytes of the data areas of the file's blocks in export order (all of them when
      there are fewer); otherwise nothing. The container is not written. */
  lemma ExportSpec(fs: Fs, ino: int, name: CStr, writable: bool)
    requires InRange(fs, ino)
    requires Reachable(fs, ExportReader, InodeAt(fs, ino)) && AllIn(fs, FileOrder(fs, ExportReader, InodeAt(fs, ino)))
    ensures var r := Export(fs, ino, name, writable);
      && r.Ok? && r.fs == fs
      && var n := InodeAt(fs, ino);
      && var s := Stream(fs, FileOrder(fs, ExportReader, n));
      && r.v == (if writable then Wrote(name, s[..Min(n.size, |s|)]) else Untouched)
  {
    ReadFileContent(fs, ExportReader, InodeAt(fs, ino));
  }

  /** On packed block pointers the exported bytes are the bytes `cmd_cat` prints. */
  lemma ExportLikeCat(fs: Fs, ino: int, name: CStr)
    requires InRange(fs, ino) && PackedFile(fs, InodeAt(fs, ino)) && Reachable(fs, CatReader, InodeAt(fs, ino))
    ensures var e := ReadFile(fs, CatReader, InodeAt(fs, ino));
      e.Emit? ==> Export(fs, ino, name, true) == Ok(fs, Wrote(name, e.out))
  {
    CatAgreesWithExport(fs, InodeAt(fs, ino));
  }

  /** As written, a host file with no bytes leaves the internal file as it was: nothing
      is truncated and the size keeps its old value; only the time moves. */
  lemma CopyInKeepsOld(fs: Fs, ino: int, now: u32)
    requires InRange(fs, ino)
    ensures var r := CopyIn(fs, ino, [], now);
      && r.Ok? && InRange(r.fs, ino) && InodeAt(r.fs, ino) == InodeAt(fs, ino).(mtime := now)
  {
    var fs1 := SetInode(fs, ino, InodeAt(fs, ino).(mtime := now));
    SamePayload(fs1, Rehash(fs1, ino), ino);
  }

  /** `dealloc_data_block` leaves the inode with size 0. */
  lemma DeallocEmpties(fs: Fs, ino: int, now: u32)
    requires InRange(fs, ino)
    ensures var t := Teardown.DeallocDataBlock(fs, ino, now);
      t.Ok? ==> InodeAt(t.fs, ino).size == 0 && InodeAt(t.fs, ino).indirect == NoBlock
  {
    var t := Teardown.DeallocDataBlock(fs, ino, now);
    if t.Ok? {
      var f := Teardown.FreeDirect(fs, ino, 0);
      var d := InodeAt(f.fs, ino).indirect;
      var u := if d < 0 then Ok(f.fs, ()) else Teardown.FreeIndirect(f.fs, ino, d);
      var fs1 := SetInode(u.fs, ino, InodeAt(u.fs, ino).(indirect := NoBlock, size := 0, mtime := now));
      SamePayload(fs1, t.fs, ino);
    }
  }

  /** Corrected, the internal file ends up holding exactly the bytes copied: its size is
      the length of the prefix of the host bytes that went in (all of them unless the
      file reached its maximum number of blocks, which leaves it at a block boundary),
      and it is stamped. */
  lemma CopyInFixedSpec(fs: Fs, ino: int, bytes: seq<byte>, now: u32) returns (q: nat)
    requires InRange(fs, ino)
    ensures var r := CopyInFixed(fs, ino, bytes, now);
      r.Ok? ==>
        && q <= |bytes| && InRange(r.fs, ino)
        && InodeAt(r.fs, ino).size == q && InodeAt(r.fs, ino).mtime == now
        && (q < |bytes| ==> q % 4000 == 0)
  {
    q := 0;
    DeallocEmpties(fs, ino, now);
    var t := Teardown.DeallocDataBlock(fs, ino, now);
    if t.Ok? {
      q := Append.FinishSpec(t.fs, ino, 0, bytes, now);
    }
  }

  // ---------------------------------------------------------------------------
  // cmd_cp

  /** The export from an internal file: the bytes `ExportSpec` describes, written to a
      host file named `target`. */
  predicate Exported(fs: Fs, f1: CStr, o: Outcome, target: CStr)
    requires ExportReady(fs, f1)
  {
    var n := InodeAt(fs, Find(fs, SplitPath(f1), false).v);
    var s := Stream(fs, FileOrder(fs, ExportReader, n));
    o == Outcome(0, Wrote(target, s[..Min(n.size, |s|)]))
  }

  /** The internal path f1 names a file whose blocks and tables all lie in the container. */
  predicate ExportReady(fs: Fs, f1: CStr) {
    var s := SplitPath(f1);
    && ParentFits(f1) && !IsFolderPath(s.parent, s.name) && Found(fs, s, false)
    && var n := InodeAt(fs, Find(fs, s, false).v);
    && Reachable(fs, ExportReader, n) && AllIn(fs, FileOrder(fs, ExportReader, n))
  }

  /** As written, `cp` from an internal file to a host path writes the file's bytes to a
      host file named like the SOURCE path f1, and never to the destination f2. */
  lemma ExportToSource(fs: Fs, f1: CStr, f2: CStr, host: Host, now: u32, fuel: nat)
    requires ExportReady(fs, f1) && !host.Missing?
    ensures var r := CmdCp(fs, f1, f2, true, false, host, true, now, fuel);
      r.Ok? && r.fs == fs && Exported(fs, f1, r.v, f1)
  {
    var s := SplitPath(f1);
    ExportSpec(fs, Find(fs, s, false).v, f1, true);
  }

  /** Corrected, the same copy writes the file's bytes to the destination f2. */
  lemma ExportToTarget(fs: Fs, f1: CStr, f2: CStr, host: Host, now: u32, fuel: nat)
    requires ExportReady(fs, f1) && !host.Missing?
    ensures var r := CmdCpFixed(fs, f1, f2, true, false, host, true, now, fuel);
      r.Ok? && r.fs == fs && Exported(fs, f1, r.v, f2)
  {
    var s := SplitPath(f1);
    ExportSpec(fs, Find(fs, s, false).v, f2, true);
  }

  /** The file lookup never answers a directory, so the branch of `cmd_cp` that exports
      a folder recursively cannot be taken. */
  lemma FoundIsFile(fs: Fs, s: Split)
    ensures var v := Find(fs, s, false);
      v.Ok? && v.v != -1 ==> !IsDir(InodeAt(fs, v.v))
  {
    FindFileSpec(fs, s.parent, s.name);
  }
}
