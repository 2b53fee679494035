/** How the commands find the entry a path names. Each command splits its path with
    `split_path` into 256-byte buffers, then looks a non-directory entry up either among
    the depth-0 entries of the inode table (empty parent) or among the slots of the
    folder the parent path resolves to. The commands of src/cmd_cat.c, cmd_chmod.c,
    cmd_rm.c, cmd_ls.c and cmd_cp.c all repeat this lookup inline.
 */
module Lookup {
  import opened Codec
  import opened Blocks
  import opened Container
  import opened Paths
  import opened Entries
  import opened Directories
  import opened DirTree

  /** What a command leaves on standard output, with the code it returns. */
  datatype Said = Said(code: int, out: seq<byte>)

  /** `split_path` copies everything before the last slash into a 256-byte buffer and
      then terminates it: a parent longer than 255 bytes overruns the buffer. */
  predicate ParentFits(path: CStr) {
    LastSlash(path) <= 255
  }

  /** The file lookup of the commands: at the root, the first depth-0 file named name;
      below a parent path, the first file named name listed in a slot of the folder the
      parent resolves to. -1 when the folder or the file is missing. */
  function FindFile(fs: Fs, parent: CStr, name: CStr): (r: Res<int>)
    ensures r.Ok? ==> r.fs == fs && (r.v == -1 || InRange(fs, r.v))
  {
    if |parent| == 0 then FindInodeRacine(fs, name, false, 0)
    else
      var d := FindInodeFolder(fs, parent);
      if !d.Ok? then Fault
      else if d.v == -1 then Ok(fs, -1)
      else FindFileFolderFromInode(fs, InodeAt(fs, d.v).direct, name, false, 0)
  }

  /** Block b holds the file the pair (parent, name) denotes: a live non-directory named
      name, at depth 0 in the inode region when the parent is empty, and otherwise listed
      in a slot of the folder the parent path resolves to. */
  predicate Denotes(fs: Fs, parent: CStr, name: CStr, b: int) {
    && InRange(fs, b) && ChildMatch(InodeAt(fs, b), name, false)
    && if |parent| == 0 then
         Geom(fs).InodeStart() <= b < Geom(fs).DataStart() && InodeAt(fs, b).depth == 0
       else
         var d := FindInodeFolder(fs, parent);
         d.Ok? && d.v != -1 && b in InodeAt(fs, d.v).direct
  }

  /** The folder a non-empty parent path resolves to lists only blocks of the container,
      so looking a child up in it cannot fault. */
  predicate FolderSafe(fs: Fs, parent: CStr) {
    var d := FindInodeFolder(fs, parent);
    d.Ok? && (d.v != -1 ==> SlotsInRange(fs, InodeAt(fs, d.v).direct, 0))
  }

  /** The lookup finds a block denoting the path, or -1 exactly when no block does; it
      cannot fault at the root of a well-formed container, nor below a safe folder. */
  lemma FindFileSpec(fs: Fs, parent: CStr, name: CStr)
    ensures var r := FindFile(fs, parent, name);
      && (r.Ok? && r.v != -1 ==> Denotes(fs, parent, name, r.v))
      && (r.Ok? && r.v == -1 ==> forall b :: !Denotes(fs, parent, name, b))
      && (WellFormed(fs) && (|parent| > 0 ==> FolderSafe(fs, parent)) ==> r.Ok?)
  {
    var r := FindFile(fs, parent, name);
    if |parent| == 0 {
      FindInodeRacineSpec(fs, name, false, 0);
      if r.Ok? && r.v == -1 {
        forall b | Denotes(fs, parent, name, b)
          ensures false
        {
          assert RootAt(fs, b - Geom(fs).InodeStart(), name, false);
        }
      }
    } else {
      var d := FindInodeFolder(fs, parent);
      if d.Ok? && d.v != -1 {
        var dir := InodeAt(fs, d.v).direct;
        FindFileFolderFromInodeSpec(fs, dir, name, false, 0);
        if r.Ok? && r.v == -1 {
          forall b | Denotes(fs, parent, name, b)
            ensures false
          {
            var k :| 0 <= k < 900 && dir[k] == b;
            assert ChildAt(fs, dir, k, name, false);
          }
        }
      }
    }
  }

  /** Rewriting one inode block and rehashing it: the block reads back as the inode
      written, its digest matches, its tag stays and no other block changes. */
  lemma RewriteLocal(fs: Fs, b: int, n: Inode)
    requires InRange(fs, b)
    ensures var r := RewriteInode(fs, b, n);
      && InodeAt(r, b) == n && Sealed(r.blocks[b]) && r.blocks[b].tag == fs.blocks[b].tag
      && forall c :: 0 <= c < |fs.blocks| && c != b ==> r.blocks[c] == fs.blocks[c]
  {
    assert RewriteInode(fs, b, n).blocks[b].payload == InodeP(n);
  }

  // ---------------------------------------------------------------------------
  // Lookups on a tidy container

  /** From the root, or from a directory of the inode region, the folder walk of a tidy
      well-formed container never faults and ends at a directory of the inode region,
      or at -1. */
  lemma {:induction false} TidyWalk(fs: Fs, ts: seq<seq<byte>>, parent: int)
    requires WellFormed(fs) && Tidy(fs)
    requires parent == -1 || (InRange(fs, parent) && InInodes(fs, parent) && IsDir(InodeAt(fs, parent)))
    ensures var r := FolderWalk(fs, ts, parent);
      r.Ok? && (r.v == -1 || (InRange(fs, r.v) && InInodes(fs, r.v) && IsDir(InodeAt(fs, r.v))))
    decreases |ts|
  {
    if |ts| > 0 {
      if parent == -1 {
        FindInodeRacineSpec(fs, ts[0], true, 0);
        var f := FindInodeRacine(fs, ts[0], true, 0);
        if f.v != -1 {
          assert RootAt(fs, f.v - Geom(fs).InodeStart(), ts[0], true);
          TidyWalk(fs, ts[1..], f.v);
        }
      } else {
        var d := InodeAt(fs, parent).direct;
        TidySlots(fs, d);
        FindFileFolderFromInodeSpec(fs, d, ts[0], true, 0);
        var f := FindFileFolderFromInode(fs, d, ts[0], true, 0);
        if f.v != -1 {
          var k :| 0 <= k < 900 && d[k] == f.v && ChildAt(fs, d, k, ts[0], true);
          assert InInodes(fs, d[k]);
          TidyWalk(fs, ts[1..], f.v);
        }
      }
    }
  }

  lemma TidySlots(fs: Fs, d: Direct)
    requires WellFormed(fs) && SlotsTidy(fs, d)
    ensures SlotsInRange(fs, d, 0)
  {
    forall k | 0 <= k < 900 && d[k] != NoBlock
      ensures InRange(fs, d[k])
    {
      assert d[k] == NoBlock || InInodes(fs, d[k]);
    }
  }

  /** On a tidy well-formed container the file lookup never faults, and what it finds
      is an inode block. */
  lemma TidyFindFile(fs: Fs, parent: CStr, name: CStr)
    requires WellFormed(fs) && Tidy(fs)
    ensures var r := FindFile(fs, parent, name);
      r.Ok? && (r.v != -1 ==> InInodes(fs, r.v))
  {
    FindFileSpec(fs, parent, name);
    var r := FindFile(fs, parent, name);
    if |parent| > 0 {
      TidyWalk(fs, Tokens(Trunc(parent, 255)), -1);
      var d := FindInodeFolder(fs, parent);
      if d.v != -1 {
        TidySlots(fs, InodeAt(fs, d.v).direct);
        if r.v != -1 {
          var k :| 0 <= k < 900 && InodeAt(fs, d.v).direct[k] == r.v;
        }
      }
    }
  }

  // ---------------------------------------------------------------------------
  // What the lookups read

  /** The exists and directory bits, the depth, the stored name and the slots: all the
      lookups read of an inode. */
  function Shape(n: Inode): (bv32, u32, Name, Direct) {
    (n.flags & (FlagExists | FlagDir), n.depth, n.name, n.direct)
  }

  /** Two containers of the same layout whose blocks all read as inodes of the same
      shape. */
  ghost predicate SameShape(fs: Fs, fs': Fs) {
    && |fs'.blocks| == |fs.blocks| && Geom(fs') == Geom(fs)
    && forall c :: 0 <= c < |fs.blocks| ==> Shape(InodeAt(fs', c)) == Shape(InodeAt(fs, c))
  }

  lemma ShapeMatches(n: Inode, m: Inode, name: seq<byte>, isDir: bool)
    requires Shape(n) == Shape(m)
    ensures RootMatch(n, name, isDir) == RootMatch(m, name, isDir)
    ensures ChildMatch(n, name, isDir) == ChildMatch(m, name, isDir)
  {
    assert n.flags & FlagExists == (n.flags & (FlagExists | FlagDir)) & FlagExists;
    assert m.flags & FlagExists == (m.flags & (FlagExists | FlagDir)) & FlagExists;
    assert n.flags & FlagDir == (n.flags & (FlagExists | FlagDir)) & FlagDir;
    assert m.flags & FlagDir == (m.flags & (FlagExists | FlagDir)) & FlagDir;
  }

  lemma {:induction false} RacineSameShape(fs: Fs, fs': Fs, name: seq<byte>, isDir: bool, i: nat)
    requires SameShape(fs, fs')
    ensures FindInodeRacine(fs', name, isDir, i).Ok? == FindInodeRacine(fs, name, isDir, i).Ok?
    ensures FindInodeRacine(fs, name, isDir, i).Ok? ==>
              FindInodeRacine(fs', name, isDir, i).v == FindInodeRacine(fs, name, isDir, i).v
    decreases Geom(fs).nbi - i
  {
    var b := Geom(fs).InodeStart() + i;
    if i < Geom(fs).nbi && InRange(fs, b) {
      ShapeMatches(InodeAt(fs, b), InodeAt(fs', b), name, isDir);
      RacineSameShape(fs, fs', name, isDir, i + 1);
    }
  }

  lemma {:induction false} ChildSameShape(fs: Fs, fs': Fs, d: Direct, name: seq<byte>, isDir: bool, i: nat)
    requires SameShape(fs, fs') && i <= 900
    ensures FindFileFolderFromInode(fs', d, name, isDir, i).Ok? == FindFileFolderFromInode(fs, d, name, isDir, i).Ok?
    ensures FindFileFolderFromInode(fs, d, name, isDir, i).Ok? ==>
              FindFileFolderFromInode(fs', d, name, isDir, i).v == FindFileFolderFromInode(fs, d, name, isDir, i).v
    decreases 900 - i
  {
    if i < 900 {
      if d[i] != NoBlock && InRange(fs, d[i]) {
        ShapeMatches(InodeAt(fs, d[i]), InodeAt(fs', d[i]), name, isDir);
      }
      ChildSameShape(fs, fs', d, name, isDir, i + 1);
    }
  }

  lemma {:induction false} WalkSameShape(fs: Fs, fs': Fs, ts: seq<seq<byte>>, parent: int)
    requires SameShape(fs, fs') && (parent == -1 || InRange(fs, parent))
    ensures FolderWalk(fs', ts, parent).Ok? == FolderWalk(fs, ts, parent).Ok?
    ensures FolderWalk(fs, ts, parent).Ok? ==> FolderWalk(fs', ts, parent).v == FolderWalk(fs, ts, parent).v
    decreases |ts|
  {
    if |ts| > 0 {
      if parent == -1 {
        RacineSameShape(fs, fs', ts[0], true, 0);
      } else {
        assert InodeAt(fs', parent).direct == InodeAt(fs, parent).direct by {
          assert Shape(InodeAt(fs', parent)) == Shape(InodeAt(fs, parent));
        }
        ChildSameShape(fs, fs', InodeAt(fs, parent).direct, ts[0], true, 0);
      }
      var f := if parent == -1 then FindInodeRacine(fs, ts[0], true, 0)
               else FindFileFolderFromInode(fs, InodeAt(fs, parent).direct, ts[0], true, 0);
      if f.Ok? && f.v != -1 {
        WalkSameShape(fs, fs', ts[1..], f.v);
      }
    }
  }

  /** Containers of the same shape resolve every path to the same block. */
  lemma FindFileSameShape(fs: Fs, fs': Fs, parent: CStr, name: CStr)
    requires SameShape(fs, fs')
    ensures FindFile(fs', parent, name).Ok? == FindFile(fs, parent, name).Ok?
    ensures FindFile(fs, parent, name).Ok? ==> FindFile(fs', parent, name).v == FindFile(fs, parent, name).v
  {
    if |parent| == 0 {
      RacineSameShape(fs, fs', name, false, 0);
    } else {
      WalkSameShape(fs, fs', Tokens(Trunc(parent, 255)), -1);
      var d := FindInodeFolder(fs, parent);
      if d.Ok? && d.v != -1 {
        assert Shape(InodeAt(fs', d.v)) == Shape(InodeAt(fs, d.v));
        ChildSameShape(fs, fs', InodeAt(fs, d.v).direct, name, false, 0);
      }
    }
  }
}
