/** Facts about setting and clearing one of the two permission bits (2: read,
    4: write) of a flag word, kept apart from the container model so the solver sees
    only bit-vector arithmetic. */
module PermissionBits {
  lemma Set(f: bv32, b: bv32)
    requires b == 2 || b == 4
    ensures (f | b) & !b == f & !b && (f | b) & b != 0 && (f | b) | b == f | b
  {
  }

  lemma Clear(f: bv32, b: bv32)
    requires b == 2 || b == 4
    ensures (f & !b) & !b == f & !b && (f & !b) & b == 0
  {
  }

  /** Two words that agree outside the read bit agree on the read-lock bit (8). */
  lemma ReadLockKept(f: bv32, g: bv32)
    requires f & !2 == g & !2
    ensures (f & 8 == 0) == (g & 8 == 0)
  {
  }
}

/** `cmd_chmod` (src/cmd_chmod.c): grant or revoke the read (bit 1) or write (bit 2)
    permission of a file. The path is split, re-split once when it ends in '/', and
    looked up as a non-directory entry; the argument must be one of "+r", "-r", "+w",
    "-w". On success the flag bit changes, the modification time is set and the inode
    rehashed.
 */
module Chmod {
  import opened Codec
  import opened Blocks
  import opened Container
  import opened Paths
  import opened Entries
  import opened Directories
  import opened DirTree
  import opened Lookup
  import PermissionBits

  /** What the argument asks for: set or clear one flag bit, or nothing understood. */
  datatype Mode = Grant(bit: bv32) | Revoke(bit: bv32) | Unknown

  const Plus: byte := 43
  const Minus: byte := 45
  const LetterR: byte := 114
  const LetterW: byte := 119

  /** The four arguments `strcmp` recognises. */
  function ParseMode(arg: CStr): (m: Mode)
    ensures !m.Unknown? ==> m.bit == FlagRead || m.bit == FlagWrite
  {
    if arg == [Plus, LetterR] then Grant(FlagRead)
    else if arg == [Minus, LetterR] then Revoke(FlagRead)
    else if arg == [Plus, LetterW] then Grant(FlagWrite)
    else if arg == [Minus, LetterW] then Revoke(FlagWrite)
    else Unknown
  }

  /** The flag word after the change: `flags |= bit` or `flags &= ~bit`. */
  function Apply(m: Mode, flags: bv32): bv32 {
    match m
    case Grant(b) => flags | b
    case Revoke(b) => flags & !b
    case Unknown => flags
  }

  /** Changing a permission bit leaves every other bit as it was. */
  lemma ApplyKeepsOthers(m: Mode, flags: bv32)
    requires !m.Unknown? && (m.bit == FlagRead || m.bit == FlagWrite)
    ensures Apply(m, flags) & !m.bit == flags & !m.bit
  {
    if m.Grant? {
      PermissionBits.Set(flags, m.bit);
    } else {
      PermissionBits.Clear(flags, m.bit);
    }
  }

  /** After a grant the bit is set, after a revoke it is clear. */
  lemma ApplyTargets(m: Mode, flags: bv32)
    requires !m.Unknown? && (m.bit == FlagRead || m.bit == FlagWrite)
    ensures Has(Apply(m, flags), m.bit) <==> m.Grant?
  {
    if m.Grant? {
      PermissionBits.Set(flags, m.bit);
    } else {
      PermissionBits.Clear(flags, m.bit);
    }
  }

  /** Repeating a permission change changes nothing more. */
  lemma ApplyIdempotent(m: Mode, flags: bv32)
    requires !m.Unknown? && (m.bit == FlagRead || m.bit == FlagWrite)
    ensures Apply(m, Apply(m, flags)) == Apply(m, flags)
  {
    if m.Grant? {
      PermissionBits.Set(flags, m.bit);
    } else {
      PermissionBits.Clear(flags, m.bit);
    }
  }

  /** The entry chmod acts on: a path ending in '/' is split once more, so "a/f/"
      denotes the file f of folder a. */
  function Target(path: CStr): (s: Split) {
    var s := SplitPath(path);
    if IsFolderPath(s.parent, s.name) then SplitPath(s.parent) else s
  }

  /** `cmd_chmod(path, arg)` at time now: 0 when the permission changed, 1 (and the
      container untouched) when the file is missing or the argument is not understood. */
  function CmdChmod(fs: Fs, path: CStr, arg: CStr, now: u32): (r: Res<int>)
  {
    if !ParentFits(path) then Fault
    else
      var t := Target(path);
      var f := FindFile(fs, t.parent, t.name);
      if !f.Ok? then Fault
      else if f.v == -1 then Ok(fs, 1)
      else
        var m := ParseMode(arg);
        if m.Unknown? then Ok(fs, 1)
        else
          var n := InodeAt(fs, f.v);
          Ok(RewriteInode(fs, f.v, n.(flags := Apply(m, n.flags), mtime := now)), 0)
  }

  /** Block b of fs' is block b of fs with the permission change m applied at time
      now: only the targeted bit of its flags and its modification time differ, its
      digest matches, its tag is kept, and every other block is untouched. */
  ghost predicate Changed(fs: Fs, fs': Fs, b: int, m: Mode, now: u32)
    requires InRange(fs, b) && !m.Unknown?
  {
    var n := InodeAt(fs, b);
    && |fs'.blocks| == |fs.blocks|
    && InodeAt(fs', b) == n.(flags := InodeAt(fs', b).flags, mtime := now)
    && InodeAt(fs', b).flags & !m.bit == n.flags & !m.bit
    && (Has(InodeAt(fs', b).flags, m.bit) <==> m.Grant?)
    && Sealed(fs'.blocks[b]) && fs'.blocks[b].tag == fs.blocks[b].tag
    && forall c :: 0 <= c < |fs.blocks| && c != b ==> fs'.blocks[c] == fs.blocks[c]
  }

  /** chmod faults only when the path overruns a buffer or leads the lookup outside the
      container; it answers 1, leaving the container as it was, exactly when no file is
      denoted by the path or the argument is not one of the four understood, and 0 otherwise. */
  lemma ChmodOutcome(fs: Fs, path: CStr, arg: CStr, now: u32)
    ensures var r := CmdChmod(fs, path, arg, now);
      var t := Target(path);
      var f := FindFile(fs, t.parent, t.name);
      && (r.Fault? <==> !ParentFits(path) || !f.Ok?)
      && (r.Ok? ==> r.v == 0 || r.v == 1)
      && (r.Ok? && r.v == 1 <==>
            ParentFits(path) && f.Ok?
            && ((forall b :: !Denotes(fs, t.parent, t.name, b)) || ParseMode(arg).Unknown?))
      && (r.Ok? && r.v == 1 ==> r.fs == fs)
  {
    FindFileSpec(fs, Target(path).parent, Target(path).name);
  }

  /** When chmod answers 0, the path denotes a file, and that file alone changed as
      `Changed` says. */
  lemma ChmodChanges(fs: Fs, path: CStr, arg: CStr, now: u32)
    requires CmdChmod(fs, path, arg, now).Ok? && CmdChmod(fs, path, arg, now).v == 0
    ensures var t := Target(path);
      var b := FindFile(fs, t.parent, t.name).v;
      && b != -1 && !ParseMode(arg).Unknown? && Denotes(fs, t.parent, t.name, b)
      && Changed(fs, CmdChmod(fs, path, arg, now).fs, b, ParseMode(arg), now)
  {
    var t := Target(path);
    FindFileSpec(fs, t.parent, t.name);
    var b := FindFile(fs, t.parent, t.name).v;
    var m := ParseMode(arg);
    var n := InodeAt(fs, b);
    ApplyKeepsOthers(m, n.flags);
    ApplyTargets(m, n.flags);
    RewriteLocal(fs, b, n.(flags := Apply(m, n.flags), mtime := now));
  }

  /** chmod does not change what any lookup finds, as long as it did not write the
      superblock: permission bits and times are not part of a lookup. */
  lemma ChmodKeepsShape(fs: Fs, path: CStr, arg: CStr, now: u32)
    requires CmdChmod(fs, path, arg, now).Ok?
    requires var t := Target(path); FindFile(fs, t.parent, t.name).v != 0
    ensures SameShape(fs, CmdChmod(fs, path, arg, now).fs)
  {
    var r := CmdChmod(fs, path, arg, now);
    var t := Target(path);
    var b := FindFile(fs, t.parent, t.name).v;
    if r.v == 0 {
      var m := ParseMode(arg);
      var n := InodeAt(fs, b);
      var n' := n.(flags := Apply(m, n.flags), mtime := now);
      RewriteLocal(fs, b, n');
      assert Shape(n') == Shape(n) by {
        ApplyKeepsOthers(m, n.flags);
        assert n'.flags & (FlagExists | FlagDir) == n.flags & (FlagExists | FlagDir);
      }
      forall c | 0 <= c < |fs.blocks|
        ensures Shape(InodeAt(r.fs, c)) == Shape(InodeAt(fs, c))
      {
        if c != b {
          assert r.fs.blocks[c] == fs.blocks[c];
        }
      }
    }
  }

  /** Applying the same chmod twice leaves the same flags as applying it once: the
      second call finds the same file and its change is already in place. */
  lemma ChmodTwice(fs: Fs, path: CStr, arg: CStr, t1: u32, t2: u32)
    requires WellFormed(fs) && Tidy(fs)
    requires CmdChmod(fs, path, arg, t1).Ok? && CmdChmod(fs, path, arg, t1).v == 0
    ensures var r1 := CmdChmod(fs, path, arg, t1);
      var r2 := CmdChmod(r1.fs, path, arg, t2);
      var b := FindFile(fs, Target(path).parent, Target(path).name).v;
      && r2.Ok? && r2.v == 0 && FindFile(r1.fs, Target(path).parent, Target(path).name).v == b
      && InodeAt(r2.fs, b).flags == InodeAt(r1.fs, b).flags
  {
    var t := Target(path);
    TidyFindFile(fs, t.parent, t.name);
    var b := FindFile(fs, t.parent, t.name).v;
    var r1 := CmdChmod(fs, path, arg, t1);
    ChmodKeepsShape(fs, path, arg, t1);
    FindFileSameShape(fs, r1.fs, t.parent, t.name);
    var m := ParseMode(arg);
    var n := InodeAt(fs, b);
    var n1 := n.(flags := Apply(m, n.flags), mtime := t1);
    RewriteLocal(fs, b, n1);
    var n2 := n1.(flags := Apply(m, n1.flags), mtime := t2);
    RewriteLocal(r1.fs, b, n2);
    ApplyIdempotent(m, n.flags);
  }
}
