/** Files and directories as inodes (src/utilitaires.c): `init_inode`, the creation of
    a file or directory inode in the first slot of the inode region whose exists bit is
    clear (`create_file`, `create_directory_main`), a directory's 900 child slots
    (`add_inode`, `delete_separte_inode`), the lookups (`find_inode_racine`,
    `find_file_folder_from_inode`, `find_inode_folder`) and `create_directory`.

    A directory lists its children by inode block index in its `direct_blocks` slots,
    -1 marking an empty slot. `time(NULL)` is the parameter `now`.
 */
module Entries {
  import opened Codec
  import opened Blocks
  import opened Container
  import opened Allocator
  import opened Paths
  import opened Teardown

  predicate Exists(n: Inode) {
    Has(n.flags, FlagExists)
  }

  predicate IsDir(n: Inode) {
    Has(n.flags, FlagDir)
  }

  /** `1 | 2 | 4 | (type << 5)`: exists, readable, writable, unlocked, a directory when
      `isDir`. */
  function InitFlags(isDir: bool): (f: bv32)
    ensures Has(f, FlagExists) && Has(f, FlagRead) && Has(f, FlagWrite)
    ensures !Has(f, FlagReadLock) && !Has(f, FlagWriteLock)
    ensures Has(f, FlagDir) <==> isDir
  {
    FlagExists | FlagRead | FlagWrite | (if isDir then FlagDir else 0)
  }

  /** 900 empty child or direct slots. */
  function NoSlots(): (d: Direct)
    ensures forall i :: 0 <= i < 900 ==> d[i] == NoBlock
  {
    seq(900, _ => NoBlock)
  }

  /** A freshly initialised inode: live, readable, writable, unlocked, of the requested
      kind, empty, stamped `now`, named by the first 255 bytes of `name`, owning no
      block. */
  ghost predicate Fresh(n: Inode, name: CStr, isDir: bool, now: int) {
    && Exists(n) && Has(n.flags, FlagRead) && Has(n.flags, FlagWrite)
    && !Has(n.flags, FlagReadLock) && !Has(n.flags, FlagWriteLock) && (IsDir(n) <==> isDir)
    && n.size == 0 && n.ctime == now && n.atime == now && n.mtime == now
    && NameText(n.name) == Trunc(name, 255)
    && FileBlocksOf(n) == [] && (forall i :: 0 <= i < 900 ==> n.direct[i] == NoBlock)
  }

  /** The blocks an inode without indirect block owns: its direct run. */
  function FileBlocksOf(n: Inode): seq<int> {
    if n.indirect < 0 then Run(n.direct, 0) else [n.indirect]
  }

  /** `init_inode(in, name, type)`: every field but the depth word is rewritten. */
  function InitInode(n: Inode, name: CStr, isDir: bool, now: u32): (m: Inode)
    ensures m.depth == n.depth
  {
    n.(flags := InitFlags(isDir), size := 0, ctime := now, atime := now, mtime := now,
       name := StoreName(name), direct := NoSlots(), indirect := NoBlock, ext := NoExtension())
  }

  /** Every field `init_inode` writes reads back as a fresh inode. */
  lemma InitInodeFresh(n: Inode, name: CStr, isDir: bool, now: u32)
    ensures Fresh(InitInode(n, name, isDir, now), name, isDir, now)
  {
    NameRoundTrip(name);
  }

  /** `init_inode` on block b: the inode is hashed, then tagged 3. */
  function InitInodeAt(fs: Fs, b: int, name: CStr, isDir: bool, now: u32): (r: Fs)
    requires InRange(fs, b)
    ensures |r.blocks| == |fs.blocks|
  {
    var m := InitInode(InodeAt(fs, b), name, isDir, now);
    Put(fs, b, Block(InodeP(m), Hash(InodeP(m)), TagInode))
  }

  // ---------------------------------------------------------------------------
  // The free-inode scan of create_file and create_directory_main

  /** Inode i of the region (block 1 + nb1 + i) is in use. */
  predicate InUse(fs: Fs, i: int) {
    var b := Geom(fs).InodeStart() + i;
    InRange(fs, b) && Exists(InodeAt(fs, b))
  }

  /** `for (i = lo; i < nbi; i++) if (!(flags & 1)) { free_idx = i; break; }`: the
      first inode of the region from lo on whose exists bit is clear, or -1. */
  function FirstFreeInode(fs: Fs, lo: int): (r: Res<int>)
    requires 0 <= lo
    ensures r.Ok? && r.v >= 0 ==> InRange(fs, Geom(fs).InodeStart() + r.v)
    decreases Geom(fs).nbi - lo
  {
    var g := Geom(fs);
    if lo >= g.nbi then Ok(fs, -1)
    else
      var b := g.InodeStart() + lo;
      if !InRange(fs, b) then Fault
      else if !Exists(InodeAt(fs, b)) then Ok(fs, lo)
      else FirstFreeInode(fs, lo + 1)
  }

  /** The scan is first-fit: it returns the lowest index from lo on whose inode is not in
      use, or -1 exactly when all of them are; it faults only on an image whose inode
      region runs past the end of the container. */
  lemma {:induction false} FirstFreeInodeSpec(fs: Fs, lo: int)
    requires 0 <= lo
    ensures var r := FirstFreeInode(fs, lo);
      && (r.Ok? ==> r.fs == fs && (r.v == -1 || lo <= r.v < Geom(fs).nbi))
      && (r.Ok? && r.v == -1 ==> forall j :: lo <= j < Geom(fs).nbi ==> InUse(fs, j))
      && (r.Ok? && r.v != -1 ==>
            && InRange(fs, Geom(fs).InodeStart() + r.v) && !InUse(fs, r.v)
            && forall j :: lo <= j < r.v ==> InUse(fs, j))
      && (WellFormed(fs) ==> r.Ok?)
    decreases Geom(fs).nbi - lo
  {
    if lo < Geom(fs).nbi {
      FirstFreeInodeSpec(fs, lo + 1);
    }
  }

  /** The scan from the start of the region found a free inode in the container. */
  predicate HasFreeInode(fs: Fs) {
    var s := FirstFreeInode(fs, 0);
    s.Ok? && s.v >= 0 && InRange(fs, Geom(fs).InodeStart() + s.v)
  }

  /** The block of the first free inode. */
  function FreeInodeBlock(fs: Fs): (b: int)
    requires HasFreeInode(fs)
    ensures InRange(fs, b)
  {
    Geom(fs).InodeStart() + FirstFreeInode(fs, 0).v
  }

  // ---------------------------------------------------------------------------
  // create_directory_main, create_file

  /** The writes of `create_directory_main` at inode block b: initialise, set the depth,
      mark the bit used, rehash, count one more file. */
  function DepthFirst(fs: Fs, b: int, name: CStr, isDir: bool, depth: u32, now: u32): (r: Res<()>)
    requires InRange(fs, b)
    ensures r.Ok? ==> |r.fs.blocks| == |fs.blocks|
  {
    var fs1 := InitInodeAt(fs, b, name, isDir, now);
    var fs2 := SetInode(fs1, b, InodeAt(fs1, b).(depth := depth));
    var a := BitmapAlloc(fs2, b);
    if !a.Ok? then Fault else Ok(IncFiles(Rehash(a.fs, b)), ())
  }

  /** `create_directory_main(name, depth)`, and every creation that writes the depth
      before the final rehash: take the first free inode and create it there. No free
      inode is fatal. */
  function CreateEntry(fs: Fs, name: CStr, isDir: bool, depth: u32, now: u32): (r: Res<int>)
    ensures r.Ok? ==> |r.fs.blocks| == |fs.blocks| && InRange(fs, r.v)
  {
    var s := FirstFreeInode(fs, 0);
    if !s.Ok? then Fault
    else if s.v < 0 then Exit(fs)
    else
      var b := Geom(fs).InodeStart() + s.v;
      var w := DepthFirst(fs, b, name, isDir, depth, now);
      if !w.Ok? then Fault else Ok(w.fs, b)
  }

  function CreateDirectoryMain(fs: Fs, name: CStr, depth: u32, now: u32): (r: Res<int>)
    ensures r.Ok? ==> |r.fs.blocks| == |fs.blocks| && InRange(fs, r.v)
  {
    CreateEntry(fs, name, true, depth, now)
  }

  /** The writes of `create_file` at inode block b: initialise, mark the bit used,
      rehash, and only then set the depth to 0, so the digest is that of the old depth. */
  function HashFirst(fs: Fs, b: int, name: CStr, now: u32): (r: Res<()>)
    requires InRange(fs, b)
    ensures r.Ok? ==> |r.fs.blocks| == |fs.blocks|
  {
    var fs1 := InitInodeAt(fs, b, name, false, now);
    var a := BitmapAlloc(fs1, b);
    if !a.Ok? then Fault
    else
      var fs2 := Rehash(a.fs, b);
      Ok(IncFiles(SetInode(fs2, b, InodeAt(fs2, b).(depth := 0))), ())
  }

  /** `create_file(name)` as written. */
  function CreateFile(fs: Fs, name: CStr, now: u32): (r: Res<int>)
    ensures r.Ok? ==> |r.fs.blocks| == |fs.blocks|
  {
    var s := FirstFreeInode(fs, 0);
    if !s.Ok? then Fault
    else if s.v < 0 then Exit(fs)
    else
      var b := Geom(fs).InodeStart() + s.v;
      var w := HashFirst(fs, b, name, now);
      if !w.Ok? then Fault else Ok(w.fs, b)
  }

  /** What a creation at inode block b leaves behind: b holds a fresh inode of the given
      kind and depth tagged 3, its bit is used, no other bit and no other block above
      the bitmap changed, nb_f counted one more and nb_l kept. */
  ghost predicate Created(fs: Fs, r: Fs, b: int, name: CStr, isDir: bool, depth: int, now: int)
    requires InRange(fs, b) && |r.blocks| == |fs.blocks|
  {
    CreatedInode(fs, r, b, name, isDir, depth, now) && CreatedFrame(fs, r, b)
  }

  ghost predicate CreatedInode(fs: Fs, r: Fs, b: int, name: CStr, isDir: bool, depth: int, now: int)
    requires InRange(fs, b) && |r.blocks| == |fs.blocks|
  {
    && Fresh(InodeAt(r, b), name, isDir, now) && InodeAt(r, b).depth == depth
    && r.blocks[b].tag == TagInode && !FreeAt(r, b)
  }

  ghost predicate CreatedFrame(fs: Fs, r: Fs, b: int)
    requires InRange(fs, b) && |r.blocks| == |fs.blocks|
  {
    && WellFormed(r) && Geom(r) == Geom(fs)
    && (forall c :: c != b ==> FreeAt(r, c) == FreeAt(fs, c))
    && (forall c :: InRange(fs, c) && c > Geom(fs).nb1 && c != b ==> r.blocks[c] == fs.blocks[c])
    && SuperOf(r).nbL == SuperOf(fs).nbL && SuperOf(r).nbF == WrapI32(SuperOf(fs).nbF + 1)
  }

  /** The inode writes of a creation at block b above the bitmap: the bits and every
      other block stay, b holds the initialised inode with the given depth. */
  lemma InitStep(fs: Fs, b: int, name: CStr, isDir: bool, depth: u32, now: u32) returns (fs2: Fs)
    requires WellFormed(fs) && InRange(fs, b) && b > Geom(fs).nb1
    ensures var fs1 := InitInodeAt(fs, b, name, isDir, now);
      fs2 == SetInode(fs1, b, InodeAt(fs1, b).(depth := depth))
    ensures WellFormed(fs2) && Geom(fs2) == Geom(fs) && |fs2.blocks| == |fs.blocks|
    ensures forall c :: FreeAt(fs2, c) == FreeAt(fs, c)
    ensures forall c :: 0 <= c < |fs.blocks| && c != b ==> fs2.blocks[c] == fs.blocks[c]
    ensures InodeAt(fs2, b) == InitInode(InodeAt(fs, b), name, isDir, now).(depth := depth)
    ensures fs2.blocks[b].tag == TagInode
  {
    var fs1 := InitInodeAt(fs, b, name, isDir, now);
    WriteAboveHeader(fs, fs1, b);
    fs2 := SetInode(fs1, b, InodeAt(fs1, b).(depth := depth));
    WriteAboveHeader(fs1, fs2, b);
  }

  /** `bitmap_alloc(b)` followed by the rehash of inode b. */
  lemma AllocStep(fs: Fs, b: int) returns (fs3: Fs)
    requires WellFormed(fs) && InRange(fs, b) && b > Geom(fs).nb1
    ensures BitmapAlloc(fs, b).Ok? && fs3 == Rehash(BitmapAlloc(fs, b).fs, b)
    ensures WellFormed(fs3) && Geom(fs3) == Geom(fs) && |fs3.blocks| == |fs.blocks|
    ensures !FreeAt(fs3, b) && forall c :: c != b ==> FreeAt(fs3, c) == FreeAt(fs, c)
    ensures forall c :: InRange(fs, c) && c > Geom(fs).nb1 && c != b ==> fs3.blocks[c] == fs.blocks[c]
    ensures fs3.blocks[b].payload == fs.blocks[b].payload && fs3.blocks[b].tag == fs.blocks[b].tag
    ensures Sealed(fs3.blocks[b]) && fs3.blocks[0] == fs.blocks[0]
  {
    AddressableInWellFormed(fs, b);
    var a := BitmapAlloc(fs, b).fs;
    assert a.blocks[0] == fs.blocks[0];
    fs3 := Rehash(a, b);
    WriteAboveHeader(a, fs3, b);
  }

  lemma {:induction false} LiveCountBound(fs: Fs, lo: int, hi: int)
    ensures LiveCount(fs, lo, hi) <= if lo < hi then hi - lo else 0
    decreases hi - lo
  {
    if lo < hi {
      LiveCountBound(fs, lo + 1, hi);
    }
  }

  /** A creation at a free inode of the region keeps the counters honest: nb_l is not
      touched and no data bit moved, nb_f and the live count both grow by one, which
      cannot wrap since the live count is bounded by nbi. */
  lemma CreatedCounted(fs: Fs, r: Fs, b: int, name: CStr, isDir: bool, depth: int, now: int)
    requires WellFormed(fs) && Counted(fs) && HasFreeInode(fs)
    requires b == FreeInodeBlock(fs) && |r.blocks| == |fs.blocks|
    requires Created(fs, r, b, name, isDir, depth, now)
    ensures Counted(r)
  {
    var g := Geom(fs);
    FreeInodeInRegion(fs);
    CreatedBitsKept(fs, r, b, g.DataStart(), g.nbb);
    FreeCountFrame(fs, r, g.DataStart(), g.nbb);
    CreatedLive(fs, r, b, name, isDir, depth, now);
    assert IsI32(g.nbi);
  }

  lemma FreeInodeInRegion(fs: Fs)
    requires HasFreeInode(fs)
    ensures Geom(fs).InodeStart() <= FreeInodeBlock(fs) < Geom(fs).DataStart()
  {
    FirstFreeInodeSpec(fs, 0);
  }

  lemma CreatedBitsKept(fs: Fs, r: Fs, b: int, lo: int, hi: int)
    requires forall c :: c != b ==> FreeAt(r, c) == FreeAt(fs, c)
    requires b < lo
    ensures forall c :: lo <= c < hi ==> FreeAt(fs, c) == FreeAt(r, c)
  {
  }

  /** The live count of the inode region grows by exactly the created inode. */
  lemma CreatedLive(fs: Fs, r: Fs, b: int, name: CStr, isDir: bool, depth: int, now: int)
    requires WellFormed(fs) && HasFreeInode(fs)
    requires b == FreeInodeBlock(fs) && |r.blocks| == |fs.blocks|
    requires Created(fs, r, b, name, isDir, depth, now)
    ensures var g := Geom(fs);
      LiveCount(r, g.InodeStart(), g.DataStart()) == LiveCount(fs, g.InodeStart(), g.DataStart()) + 1 <= g.nbi
  {
    var g := Geom(fs);
    FirstFreeInodeSpec(fs, 0);
    assert !InUse(fs, FirstFreeInode(fs, 0).v);
    assert !LiveAt(fs, b) && LiveAt(r, b);
    LiveCountBorn(fs, r, b, g.InodeStart(), g.DataStart());
  }

  /** One inode of blocks lo..hi-1 comes alive and no other block of the range moves:
      the live count grows by one, and stays within the range. */
  lemma LiveCountBorn(fs: Fs, r: Fs, b: int, lo: int, hi: int)
    requires lo <= b < hi && |r.blocks| == |fs.blocks| && !LiveAt(fs, b) && LiveAt(r, b)
    requires forall c :: lo <= c < hi && c != b && InRange(fs, c) ==> r.blocks[c] == fs.blocks[c]
    ensures LiveCount(r, lo, hi) == LiveCount(fs, lo, hi) + 1 <= hi - lo
  {
    forall c | lo <= c < hi && c != b
      ensures LiveAt(fs, c) == LiveAt(r, c)
    {
      if InRange(fs, c) {
        assert r.blocks[c] == fs.blocks[c];
      }
    }
    LiveCountOne(fs, r, b, lo, hi);
    LiveCountBound(r, lo, hi);
  }

  /** The writes of a creation at block b above the bitmap, composed. */
  lemma CreateAt(fs: Fs, b: int, name: CStr, isDir: bool, depth: u32, now: u32) returns (r: Fs)
    requires WellFormed(fs) && InRange(fs, b) && b > Geom(fs).nb1
    ensures DepthFirst(fs, b, name, isDir, depth, now).Ok? && DepthFirst(fs, b, name, isDir, depth, now).fs == r
    ensures |r.blocks| == |fs.blocks| && Created(fs, r, b, name, isDir, depth, now) && Sealed(r.blocks[b])
  {
    r := CreateAtFrame(fs, b, name, isDir, depth, now);
    CreateAtInode(fs, b, name, isDir, depth, now);
  }

  lemma CreateAtFrame(fs: Fs, b: int, name: CStr, isDir: bool, depth: u32, now: u32) returns (r: Fs)
    requires WellFormed(fs) && InRange(fs, b) && b > Geom(fs).nb1
    ensures DepthFirst(fs, b, name, isDir, depth, now).Ok? && DepthFirst(fs, b, name, isDir, depth, now).fs == r
    ensures |r.blocks| == |fs.blocks| && CreatedFrame(fs, r, b) && Sealed(r.blocks[b])
  {
    var fs2 := InitStep(fs, b, name, isDir, depth, now);
    var fs3 := AllocStep(fs2, b);
    r := CountStep(fs3);
  }

  lemma CreateAtInode(fs: Fs, b: int, name: CStr, isDir: bool, depth: u32, now: u32)
    requires WellFormed(fs) && InRange(fs, b) && b > Geom(fs).nb1
    ensures DepthFirst(fs, b, name, isDir, depth, now).Ok?
    ensures var r := DepthFirst(fs, b, name, isDir, depth, now).fs;
      |r.blocks| == |fs.blocks| && CreatedInode(fs, r, b, name, isDir, depth, now)
  {
    var fs2 := InitStep(fs, b, name, isDir, depth, now);
    var fs3 := AllocStep(fs2, b);
    var r := CountStep(fs3);
    var m := InitInode(InodeAt(fs, b), name, isDir, now);
    InitInodeFresh(InodeAt(fs, b), name, isDir, now);
    assert r.blocks[b].payload == fs2.blocks[b].payload;
    assert InodeAt(r, b) == m.(depth := depth);
    FreshKeepsDepth(m, name, isDir, now, depth);
  }

  lemma FreshKeepsDepth(m: Inode, name: CStr, isDir: bool, now: int, depth: u32)
    requires Fresh(m, name, isDir, now)
    ensures Fresh(m.(depth := depth), name, isDir, now)
  {
  }

  /** `increment_nb_f`: one more file counted, nothing else of the container moves. */
  lemma CountStep(fs: Fs) returns (r: Fs)
    requires WellFormed(fs)
    ensures r == IncFiles(fs) && WellFormed(r) && Geom(r) == Geom(fs) && |r.blocks| == |fs.blocks|
    ensures forall c :: FreeAt(r, c) == FreeAt(fs, c)
    ensures forall c :: 1 <= c < |fs.blocks| ==> r.blocks[c] == fs.blocks[c]
    ensures SuperOf(r).nbL == SuperOf(fs).nbL && SuperOf(r).nbF == WrapI32(SuperOf(fs).nbF + 1)
  {
    r := IncFiles(fs);
    SuperCountersOnly(fs);
    CounterWritesKeepBits(fs);
  }

  /** A creation that finds a free inode: the first one is created, sealed, and the
      counters stay honest. */
  lemma CreateEntryOk(fs: Fs, name: CStr, isDir: bool, depth: u32, now: u32) returns (b: int, r: Fs)
    requires WellFormed(fs) && HasFreeInode(fs)
    ensures b == FreeInodeBlock(fs) && |r.blocks| == |fs.blocks|
    ensures CreateEntry(fs, name, isDir, depth, now) == Ok(r, b)
    ensures Created(fs, r, b, name, isDir, depth, now) && Sealed(r.blocks[b])
    ensures Counted(fs) ==> Counted(r)
  {
    b := FreeInodeBlock(fs);
    r := CreateAt(fs, b, name, isDir, depth, now);
    CreateEntryAt(fs, name, isDir, depth, now, r);
    if Counted(fs) {
      CreatedCounted(fs, r, b, name, isDir, depth, now);
    }
  }

  /** `create_directory_main` (and a creation that writes the depth before hashing):
      fatal exactly when every inode of the region is in use, leaving the container as
      it was; otherwise the first free inode is created, sealed, and the counters stay
      honest. */
  lemma CreateEntrySpec(fs: Fs, name: CStr, isDir: bool, depth: u32, now: u32)
    requires WellFormed(fs)
    ensures var r := CreateEntry(fs, name, isDir, depth, now);
      && (r.Ok? || r.Exit?)
      && (r.Exit? <==> forall j :: 0 <= j < Geom(fs).nbi ==> InUse(fs, j))
      && (r.Exit? ==> r.fs == fs)
    ensures var r := CreateEntry(fs, name, isDir, depth, now);
      r.Ok? ==>
        && r.v - Geom(fs).InodeStart() == FirstFreeInode(fs, 0).v
        && InRange(fs, r.v) && Created(fs, r.fs, r.v, name, isDir, depth, now) && Sealed(r.fs.blocks[r.v])
        && (Counted(fs) ==> Counted(r.fs))
  {
    FirstFreeInodeSpec(fs, 0);
    if FirstFreeInode(fs, 0).v >= 0 {
      var b, r := CreateEntryOk(fs, name, isDir, depth, now);
    }
  }

  // ---------------------------------------------------------------------------
  // create_file's late depth write

  /** `bitmap_alloc` only reads and writes the bitmap block: two containers that agree
      there agree there afterwards. */
  lemma AllocLocal(fs: Fs, fs': Fs, b: int)
    requires Addressable(fs, b) && |fs'.blocks| == |fs.blocks|
    requires fs'.blocks[BitmapBlock(b)] == fs.blocks[BitmapBlock(b)]
    ensures BitmapAlloc(fs', b).Ok?
    ensures BitmapAlloc(fs', b).fs.blocks[BitmapBlock(b)] == BitmapAlloc(fs, b).fs.blocks[BitmapBlock(b)]
  {
  }

  /** `increment_nb_f` only reads and writes block 0. */
  lemma CountLocal(fs: Fs, fs': Fs)
    requires |fs'.blocks| == |fs.blocks| && fs'.blocks[0] == fs.blocks[0]
    ensures IncFiles(fs').blocks[0] == IncFiles(fs).blocks[0]
  {
  }

  /** Two containers of the same size equal everywhere but in the digest of block b. */
  predicate SameButDigest(x: Fs, y: Fs, b: int) {
    && |x.blocks| == |y.blocks| && 0 <= b < |x.blocks|
    && (forall c :: 0 <= c < |x.blocks| && c != b ==> x.blocks[c] == y.blocks[c])
    && x.blocks[b].payload == y.blocks[b].payload && x.blocks[b].tag == y.blocks[b].tag
  }

  /** The two write orders at block b, side by side: `create_file` (rehash, then depth)
      and the depth-first order. They leave the same container except for the digest of
      b, which `create_file` computed over the inode with its old depth. */
  lemma FileVersusEntryAt(fs: Fs, b: int, name: CStr, now: u32) returns (rf: Fs, re: Fs)
    requires WellFormed(fs) && InRange(fs, b) && b > Geom(fs).nb1
    ensures HashFirst(fs, b, name, now).Ok? && HashFirst(fs, b, name, now).fs == rf
    ensures DepthFirst(fs, b, name, false, 0, now).Ok? && DepthFirst(fs, b, name, false, 0, now).fs == re
    ensures |rf.blocks| == |re.blocks| == |fs.blocks| && SameButDigest(rf, re, b)
    ensures rf.blocks[b] == re.blocks[b].(hash := Hash(InodeP(InitInode(InodeAt(fs, b), name, false, now))))
    ensures rf.blocks[b].payload == InodeP(InitInode(InodeAt(fs, b), name, false, now).(depth := 0))
  {
    var m := InitInode(InodeAt(fs, b), name, false, now);
    var fs1 := InitInodeAt(fs, b, name, false, now);
    AddressableInWellFormed(fs, b);
    var k := BitmapBlock(b);
    var a := BitmapAlloc(fs1, b).fs;
    var fs2 := Rehash(a, b);
    assert InodeAt(fs2, b) == m;
    var fs3 := SetInode(fs2, b, m.(depth := 0));
    rf := IncFiles(fs3);
    var g2 := SetInode(fs1, b, m.(depth := 0));
    AllocLocal(fs1, g2, b);
    var a' := BitmapAlloc(g2, b).fs;
    var g3 := Rehash(a', b);
    re := IncFiles(g3);
    forall c | 0 <= c < |fs.blocks| && c != b
      ensures fs3.blocks[c] == g3.blocks[c]
    {
      if c != k {
        assert fs3.blocks[c] == fs1.blocks[c] == g3.blocks[c];
      }
    }
    CountLocal(fs3, g3);
    SuperCountersOnly(fs3);
    SuperCountersOnly(g3);
  }

  /** `create_file` takes the same inode and leaves the same container as the creation of
      a plain file at depth 0 that writes the depth before hashing, except for the stored
      digest of the new inode. */
  lemma CreateFileVersusEntry(fs: Fs, name: CStr, now: u32)
    requires WellFormed(fs)
    ensures var f := CreateFile(fs, name, now);
      var e := CreateEntry(fs, name, false, 0, now);
      && (f.Exit? <==> e.Exit?) && (f.Ok? <==> e.Ok?) && (f.Exit? ==> f.fs == e.fs)
      && (f.Ok? ==> f.v == e.v && SameButDigest(f.fs, e.fs, f.v))
  {
    FirstFreeInodeSpec(fs, 0);
    if FirstFreeInode(fs, 0).v >= 0 {
      var b := FreeInodeBlock(fs);
      var rf, re := FileVersusEntryAt(fs, b, name, now);
      CreateFileAt(fs, name, now, rf);
      CreateEntryAt(fs, name, false, 0, now, re);
    }
  }

  /** The defect: when the reused inode slot held a non-zero depth, the file `create_file`
      leaves behind carries a digest that does not match its contents, so the next
      `check_sha1` on it reports corruption. */
  lemma CreateFileStaleDigest(fs: Fs, name: CStr, now: u32)
    requires WellFormed(fs) && HasFreeInode(fs) && InodeAt(fs, FreeInodeBlock(fs)).depth != 0
    ensures var r := CreateFile(fs, name, now);
      r.Ok? && InRange(r.fs, r.v) && !Sealed(r.fs.blocks[r.v])
  {
    var b := FreeInodeBlock(fs);
    var rf, re := FileVersusEntryAt(fs, b, name, now);
    var m := InitInode(InodeAt(fs, b), name, false, now);
    NotSealedWhenDepthDiffers(rf.blocks[b], m, 0);
    CreateFileAt(fs, name, now, rf);
  }

  /** Once the free inode is known, `create_file` is its writes at that inode. */
  lemma CreateFileAt(fs: Fs, name: CStr, now: u32, r: Fs)
    requires HasFreeInode(fs)
    requires HashFirst(fs, FreeInodeBlock(fs), name, now).Ok? && HashFirst(fs, FreeInodeBlock(fs), name, now).fs == r
    ensures CreateFile(fs, name, now) == Ok(r, FreeInodeBlock(fs))
  {
  }

  /** Once the free inode is known, `create_directory_main` is its writes at that inode. */
  lemma CreateEntryAt(fs: Fs, name: CStr, isDir: bool, depth: u32, now: u32, r: Fs)
    requires HasFreeInode(fs)
    requires DepthFirst(fs, FreeInodeBlock(fs), name, isDir, depth, now).Ok?
    requires DepthFirst(fs, FreeInodeBlock(fs), name, isDir, depth, now).fs == r
    ensures CreateEntry(fs, name, isDir, depth, now) == Ok(r, FreeInodeBlock(fs))
  {
  }

  lemma NotSealedWhenDepthDiffers(blk: Block, m: Inode, d: u32)
    requires blk.payload == InodeP(m.(depth := d)) && d != m.depth
    requires blk.hash == Hash(InodeP(m))
    ensures !Sealed(blk)
  {
    if Sealed(blk) {
      assert InodeBytes(m.(depth := d)) == InodeBytes(m);
      InodeRoundTrip(m.(depth := d));
      InodeRoundTrip(m);
    }
  }
}
