/** `create_directory` (src/utilitaires.c): make every directory of a path that does not
    exist yet, each one linked into the slots of the one before, and the invariant it
    keeps on a container whose directories only list inode blocks.
 */
module DirTree {
  import opened Codec
  import opened Blocks
  import opened Container
  import opened Allocator
  import opened Paths
  import opened Entries
  import opened Directories

  /** Block b lies in the inode region. */
  predicate InInodes(fs: Fs, b: int) {
    Geom(fs).InodeStart() <= b < Geom(fs).DataStart()
  }

  /** Every listed slot of d points into the inode region. */
  predicate SlotsTidy(fs: Fs, d: Direct) {
    forall k :: 0 <= k < 900 ==> d[k] == NoBlock || InInodes(fs, d[k])
  }

  /** Every directory of the inode region lists only inode blocks: what `create_directory`
      and `add_inode` keep, and what keeps the slots they follow inside the container. */
  ghost predicate Tidy(fs: Fs) {
    forall b :: InRange(fs, b) && InInodes(fs, b) && IsDir(InodeAt(fs, b)) ==> SlotsTidy(fs, InodeAt(fs, b).direct)
  }

  /** Block b is a directory inode of the region whose stored name reads as name. */
  predicate DirNamed(fs: Fs, b: int, name: seq<byte>) {
    InRange(fs, b) && InInodes(fs, b) && IsDir(InodeAt(fs, b)) && NameText(InodeAt(fs, b).name) == name
  }

  // ---------------------------------------------------------------------------
  // The child scan of create_directory

  /** The child scan of `create_directory` over the slots d of the parent, from slot i:
      the first slot holding a non-negative block whose inode is a directory named name,
      or -1. Unlike `find_file_folder_from_inode` it does not look at the exists bit. A
      slot pointing past the container is undefined behaviour. */
  function ScanChildDir(fs: Fs, d: Direct, name: seq<byte>, i: nat): (r: Res<int>)
    requires i <= 900
    ensures r.Ok? ==> r.fs == fs && (r.v == -1 || (InRange(fs, r.v) && r.v in d))
    ensures r.Ok? && r.v != -1 ==> IsDir(InodeAt(fs, r.v)) && NameText(InodeAt(fs, r.v).name) == name
    decreases 900 - i
  {
    if i == 900 then Ok(fs, -1)
    else if d[i] >= 0 then
      if !InRange(fs, d[i]) then Fault
      else if IsDir(InodeAt(fs, d[i])) && NameText(InodeAt(fs, d[i]).name) == name then Ok(fs, d[i] as int)
      else ScanChildDir(fs, d, name, i + 1)
    else ScanChildDir(fs, d, name, i + 1)
  }

  /** The scan succeeds when every listed slot from i on is inside the container. */
  lemma {:induction false} ScanChildDirOk(fs: Fs, d: Direct, name: seq<byte>, i: nat)
    requires i <= 900 && forall k :: i <= k < 900 && d[k] >= 0 ==> InRange(fs, d[k])
    ensures ScanChildDir(fs, d, name, i).Ok?
    decreases 900 - i
  {
    if i < 900 {
      ScanChildDirOk(fs, d, name, i + 1);
    }
  }

  /** The scan returns -1 exactly when no slot from i on holds a match. */
  lemma {:induction false} ScanChildDirMiss(fs: Fs, d: Direct, name: seq<byte>, i: nat)
    requires i <= 900
    ensures var r := ScanChildDir(fs, d, name, i);
      r.Ok? ==> (r.v == -1 <==> forall k :: i <= k < 900 ==> !ScanMatch(fs, d, k, name))
    decreases 900 - i
  {
    if i < 900 {
      ScanChildDirMiss(fs, d, name, i + 1);
      if ScanMatch(fs, d, i, name) {
        assert ScanChildDir(fs, d, name, i) == Ok(fs, d[i] as int);
      }
    }
  }

  /** A block the scan returns is held by the first matching slot from i on. */
  lemma {:induction false} ScanChildDirHit(fs: Fs, d: Direct, name: seq<byte>, i: nat)
    requires i <= 900
    ensures var r := ScanChildDir(fs, d, name, i);
      r.Ok? && r.v != -1 ==>
        exists k :: i <= k < 900 && d[k] == r.v && ScanMatch(fs, d, k, name)
                    && forall j :: i <= j < k ==> !ScanMatch(fs, d, j, name)
    decreases 900 - i
  {
    if i < 900 {
      ScanChildDirHit(fs, d, name, i + 1);
      var r := ScanChildDir(fs, d, name, i);
      if r.Ok? && r.v != -1 && ScanMatch(fs, d, i, name) {
        assert d[i] == r.v;
      }
    }
  }

  /** Slot k of d holds a block the scan accepts. */
  predicate ScanMatch(fs: Fs, d: Direct, k: int, name: seq<byte>)
    requires 0 <= k < 900
  {
    d[k] >= 0 && InRange(fs, d[k]) && IsDir(InodeAt(fs, d[k])) && NameText(InodeAt(fs, d[k]).name) == name
  }

  // ---------------------------------------------------------------------------
  // create_directory

  /** The first token: the root directory of that name, or a new one at depth 0. */
  function MakeRoot(fs: Fs, name: CStr, now: u32): (r: Res<int>)
    ensures r.Ok? ==> |r.fs.blocks| == |fs.blocks| && InRange(r.fs, r.v)
  {
    var f := FindInodeRacine(fs, name, true, 0);
    if !f.Ok? then Fault
    else if f.v != -1 then Ok(fs, f.v)
    else CreateDirectoryMain(fs, name, 0, now)
  }

  /** The tokens after the first, below the directory block parent: an existing child
      directory of the next name is entered; otherwise one is created at depth n and
      linked into the parent. The result is the block of the last directory. */
  function Descend(fs: Fs, ts: seq<seq<byte>>, n: nat, parent: int, now: u32): (r: Res<int>)
    requires 1 <= n <= |ts| <= 255 && InRange(fs, parent)
    requires forall i :: 0 <= i < |ts| ==> NoNul(ts[i])
    ensures r.Ok? ==> |r.fs.blocks| == |fs.blocks| && InRange(r.fs, r.v)
    decreases |ts| - n
  {
    if n == |ts| then Ok(fs, parent)
    else
      var s := ScanChildDir(fs, InodeAt(fs, parent).direct, ts[n], 0);
      if !s.Ok? then Fault
      else if s.v != -1 then Descend(fs, ts, n + 1, s.v, now)
      else
        var c := CreateDirectoryMain(fs, ts[n], n, now);
        if !c.Ok? then c
        else
          var a := AddInode(c.fs, parent, WrapI32(c.v), now);
          if !a.Ok? then Exit(a.fs) else Descend(a.fs, ts, n + 1, c.v, now)
  }

  /** `create_directory(path)`: the path is copied into a 256-byte buffer (a longer one
      overflows it), then split at '/'; the block of the last directory, or -1 for a path
      without components. */
  function CreateDirectory(fs: Fs, path: CStr, now: u32): (r: Res<int>)
    ensures r.Ok? ==> |r.fs.blocks| == |fs.blocks| && (r.v == -1 || InRange(r.fs, r.v))
  {
    if |path| > 255 then Fault
    else
      var ts := Tokens(path);
      if |ts| == 0 then Ok(fs, -1)
      else
        TokensNoNul(path);
        var root := MakeRoot(fs, ts[0], now);
        if !root.Ok? then root else Descend(root.fs, ts, 1, root.v, now)
  }

  // ---------------------------------------------------------------------------
  // What create_directory keeps

  /** What a run of `create_directory` keeps: the layout, directories listing only inode
      blocks, and honest counters. */
  ghost predicate Preserved(fs: Fs, r: Fs) {
    WellFormed(r) && Geom(r) == Geom(fs) && Tidy(r) && (Counted(fs) ==> Counted(r))
  }

  /** Creating a directory keeps directories tidy: the new one lists nothing, every other
      inode block is untouched. */
  lemma TidyAfterCreate(fs: Fs, r: Fs, b: int, name: CStr, depth: int, now: int)
    requires WellFormed(fs) && Tidy(fs) && InRange(fs, b) && |r.blocks| == |fs.blocks|
    requires Created(fs, r, b, name, true, depth, now)
    ensures Tidy(r)
  {
    forall x | InRange(r, x) && InInodes(r, x) && IsDir(InodeAt(r, x))
      ensures SlotsTidy(r, InodeAt(r, x).direct)
    {
      if x != b {
        assert r.blocks[x] == fs.blocks[x];
        assert SlotsTidy(fs, InodeAt(fs, x).direct);
      }
    }
  }

  /** Linking an inode block into a directory of the region keeps directories tidy. */
  lemma TidyAfterLink(fs: Fs, dir: int, val: i32, now: u32)
    requires WellFormed(fs) && Tidy(fs) && InRange(fs, dir) && InInodes(fs, dir) && InInodes(fs, val)
    ensures AddInode(fs, dir, val, now).Ok? ==> Tidy(AddInode(fs, dir, val, now).fs)
  {
    AddInodeSpec(fs, dir, val, now);
    var a := AddInode(fs, dir, val, now);
    if a.Ok? {
      var r := a.fs;
      var d := InodeAt(fs, dir).direct;
      forall x | InRange(r, x) && InInodes(r, x) && IsDir(InodeAt(r, x))
        ensures SlotsTidy(r, InodeAt(r, x).direct)
      {
        if x == dir {
          assert SlotsTidy(fs, d);
          var e := AddSlot(d, val);
          assert forall k :: 0 <= k < 900 ==> e[k] == d[k] || e[k] == val;
        } else {
          assert r.blocks[x] == fs.blocks[x];
          assert SlotsTidy(fs, InodeAt(fs, x).direct);
        }
      }
    }
  }

  /** `create_directory_main` at depth n on a tidy container: it either fails fatally
      leaving the container alone, or makes a directory of the region named name and
      keeps everything `create_directory` relies on. */
  lemma CreateStep(fs: Fs, name: CStr, n: u32, now: u32)
    requires WellFormed(fs) && Tidy(fs) && |name| <= 255
    ensures var c := CreateDirectoryMain(fs, name, n, now);
      && (c.Ok? || c.Exit?) && (c.Exit? ==> c.fs == fs)
      && (c.Ok? ==> Preserved(fs, c.fs) && DirNamed(c.fs, c.v, name))
  {
    CreateEntrySpec(fs, name, true, n, now);
    FirstFreeInodeSpec(fs, 0);
    var c := CreateDirectoryMain(fs, name, n, now);
    if c.Ok? {
      TidyAfterCreate(fs, c.fs, c.v, name, n, now);
      assert Fresh(InodeAt(c.fs, c.v), name, true, now);
    }
  }

  /** Linking the new directory c into the directory parent keeps everything
      `create_directory` relies on, and c still reads as a directory named name. */
  lemma LinkStep(fs: Fs, parent: int, c: int, name: seq<byte>, now: u32)
    requires WellFormed(fs) && Tidy(fs) && InRange(fs, parent) && InInodes(fs, parent)
    requires DirNamed(fs, c, name)
    ensures var a := AddInode(fs, parent, WrapI32(c), now);
      && (a.Ok? || a.Exit?) && (a.Exit? ==> a.fs == fs)
      && (a.Ok? ==> Preserved(fs, a.fs) && DirNamed(a.fs, c, name))
  {
    assert IsI32(c);
    AddInodeSpec(fs, parent, c, now);
    TidyAfterLink(fs, parent, c, now);
    var a := AddInode(fs, parent, c, now);
    if a.Ok? && c != parent {
      assert a.fs.blocks[c] == fs.blocks[c];
    }
  }

  /** The walk below a directory of the region never faults on a tidy container; it
      keeps the layout, the tidiness and the counters, and ends at a directory named by
      the last token. */
  lemma {:induction false} DescendSpec(fs: Fs, ts: seq<seq<byte>>, n: nat, parent: int, now: u32)
    requires 1 <= n <= |ts| <= 255
    requires forall i :: 0 <= i < |ts| ==> NoNul(ts[i]) && |ts[i]| <= 255
    requires WellFormed(fs) && Tidy(fs) && DirNamed(fs, parent, ts[n - 1])
    ensures var r := Descend(fs, ts, n, parent, now);
      && !r.Fault? && (r.Exit? ==> Preserved(fs, r.fs))
      && (r.Ok? ==> Preserved(fs, r.fs) && DirNamed(r.fs, r.v, ts[|ts| - 1]))
    decreases |ts| - n
  {
    if n < |ts| {
      var stop, fs', next := DescendOne(fs, ts, n, parent, now);
      if !stop {
        DescendSpec(fs', ts, n + 1, next, now);
        PreservedTrans(fs, fs', Descend(fs', ts, n + 1, next, now));
      }
    }
  }

  lemma PreservedTrans(a: Fs, b: Fs, r: Res<int>)
    requires Preserved(a, b) && (r.Ok? || r.Exit?) && Preserved(b, r.fs)
    ensures Preserved(a, r.fs)
  {
  }

  /** One token of the walk: either it stops fatally, keeping what `create_directory`
      relies on, or it continues from the directory next of a container fs'. */
  lemma DescendOne(fs: Fs, ts: seq<seq<byte>>, n: nat, parent: int, now: u32) returns (stop: bool, fs': Fs, next: int)
    requires 1 <= n < |ts| <= 255
    requires forall i :: 0 <= i < |ts| ==> NoNul(ts[i]) && |ts[i]| <= 255
    requires WellFormed(fs) && Tidy(fs) && DirNamed(fs, parent, ts[n - 1])
    ensures stop ==> Descend(fs, ts, n, parent, now).Exit? && Preserved(fs, Descend(fs, ts, n, parent, now).fs)
    ensures !stop ==>
      && |fs'.blocks| == |fs.blocks| && Preserved(fs, fs') && DirNamed(fs', next, ts[n])
      && Descend(fs, ts, n, parent, now) == Descend(fs', ts, n + 1, next, now)
  {
    var d := InodeAt(fs, parent).direct;
    assert SlotsTidy(fs, d);
    ScanChildDirOk(fs, d, ts[n], 0);
    var s := ScanChildDir(fs, d, ts[n], 0);
    if s.v != -1 {
      assert InInodes(fs, s.v);
      stop, fs', next := false, fs, s.v;
    } else {
      stop, fs', next := CreateAndLink(fs, ts, n, parent, now);
    }
  }

  /** The token names no child directory: a directory is created and linked, or the
      walk stops fatally. */
  lemma CreateAndLink(fs: Fs, ts: seq<seq<byte>>, n: nat, parent: int, now: u32) returns (stop: bool, fs': Fs, next: int)
    requires 1 <= n < |ts| <= 255
    requires forall i :: 0 <= i < |ts| ==> NoNul(ts[i]) && |ts[i]| <= 255
    requires WellFormed(fs) && Tidy(fs) && DirNamed(fs, parent, ts[n - 1])
    requires ScanChildDir(fs, InodeAt(fs, parent).direct, ts[n], 0) == Ok(fs, -1)
    ensures stop ==> Descend(fs, ts, n, parent, now).Exit? && Preserved(fs, Descend(fs, ts, n, parent, now).fs)
    ensures !stop ==>
      && |fs'.blocks| == |fs.blocks| && Preserved(fs, fs') && DirNamed(fs', next, ts[n])
      && Descend(fs, ts, n, parent, now) == Descend(fs', ts, n + 1, next, now)
  {
    CreateStep(fs, ts[n], n, now);
    var c := CreateDirectoryMain(fs, ts[n], n, now);
    if c.Ok? {
      LinkStep(c.fs, parent, c.v, ts[n], now);
      var a := AddInode(c.fs, parent, WrapI32(c.v), now);
      stop, fs', next := !a.Ok?, a.fs, c.v;
      if a.Ok? {
        PreservedTrans(fs, c.fs, Ok(a.fs, c.v));
      }
    } else {
      stop, fs', next := true, fs, parent;
    }
  }

  /** The first token on a tidy container: the root directory of that name is taken
      as is, or a new one is made at depth 0; only a full inode region stops it. */
  lemma MakeRootSpec(fs: Fs, name: CStr, now: u32)
    requires WellFormed(fs) && Tidy(fs) && |name| <= 255
    ensures var r := MakeRoot(fs, name, now);
      && (r.Ok? || r.Exit?) && (r.Exit? ==> r.fs == fs)
      && (r.Ok? ==> Preserved(fs, r.fs) && DirNamed(r.fs, r.v, name))
  {
    FindInodeRacineSpec(fs, name, true, 0);
    if FindInodeRacine(fs, name, true, 0).v == -1 {
      CreateStep(fs, name, 0, now);
    }
  }

  /** `create_directory` on a tidy container: it faults only on a path too long for its
      buffer and returns -1 only for a path without components; otherwise it ends at a
      directory of the inode region named by the last component, keeping the layout,
      the tidiness and the counters, also when it stops on a full inode region or a
      full parent. */
  lemma CreateDirectorySpec(fs: Fs, path: CStr, now: u32)
    requires WellFormed(fs) && Tidy(fs)
    ensures var r := CreateDirectory(fs, path, now);
      && (r.Fault? <==> |path| > 255)
      && (|path| <= 255 && |Tokens(path)| == 0 ==> r == Ok(fs, -1))
      && (r.Exit? ==> Preserved(fs, r.fs))
    ensures var r := CreateDirectory(fs, path, now);
      var ts := Tokens(path);
      r.Ok? && |ts| > 0 ==> Preserved(fs, r.fs) && DirNamed(r.fs, r.v, ts[|ts| - 1])
  {
    var ts := Tokens(path);
    if |path| <= 255 && |ts| > 0 {
      TokensNoNul(path);
      MakeRootSpec(fs, ts[0], now);
      var root := MakeRoot(fs, ts[0], now);
      if root.Ok? {
        DescendSpec(root.fs, ts, 1, root.v, now);
        PreservedTrans(fs, root.fs, Descend(root.fs, ts, 1, root.v, now));
      }
    }
  }
}
