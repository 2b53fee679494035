/** `cmd_cat` (src/cmd_cat.c): print a file of the container on standard output.

    The path is split once (a trailing '/' is not re-split) and looked up as a
    non-directory entry, at the root or in the folder the parent path names. A missing
    file, a file without the read bit or a read-locked file gives 1 and no output;
    otherwise the file's bytes are read by the cat loop of `Reading` and the command
    gives 0. cat never writes to the container.
 */
module Cat {
  import opened Codec
  import opened Blocks
  import opened Container
  import opened Paths
  import opened Directories
  import opened DirTree
  import opened Lookup
  import opened Reading
  import opened Chmod
  import PermissionBits

  /** The read bit is set and the read-lock bit is clear. */
  predicate CatAllowed(n: Inode) {
    Has(n.flags, FlagRead) && !Has(n.flags, FlagReadLock)
  }

  function CmdCat(fs: Fs, path: CStr): (r: Res<Said>) {
    if !ParentFits(path) then Fault
    else
      var t := SplitPath(path);
      var f := FindFile(fs, t.parent, t.name);
      if !f.Ok? then Fault
      else if f.v == -1 then Ok(fs, Said(1, []))
      else
        var n := InodeAt(fs, f.v);
        if !CatAllowed(n) then Ok(fs, Said(1, []))
        else
          var e := ReadFile(fs, CatReader, n);
          if e.Stray? then Fault else Ok(fs, Said(0, e.out))
  }

  /** cat leaves the container as it was; it answers 1 with no output exactly when no
      file is denoted by the path or the one denoted is not readable, faults only when a path buffer overflows, a
      lookup or a block read leaves the container, and otherwise answers 0. */
  lemma CatOutcome(fs: Fs, path: CStr)
    ensures var r := CmdCat(fs, path);
      var t := SplitPath(path);
      var f := FindFile(fs, t.parent, t.name);
      && (r.Ok? ==> r.fs == fs && (r.v.code == 0 || r.v.code == 1) && (r.v.code == 1 ==> r.v.out == []))
      && (r.Ok? && r.v.code == 1 <==>
            ParentFits(path) && f.Ok?
            && ((forall b :: !Denotes(fs, t.parent, t.name, b))
                || (Denotes(fs, t.parent, t.name, f.v) && !CatAllowed(InodeAt(fs, f.v)))))
      && (r.Fault? <==>
            !ParentFits(path) || !f.Ok?
            || (Denotes(fs, t.parent, t.name, f.v) && CatAllowed(InodeAt(fs, f.v))
                && ReadFile(fs, CatReader, InodeAt(fs, f.v)).Stray?))
  {
    FindFileSpec(fs, SplitPath(path).parent, SplitPath(path).name);
  }

  /** When cat answers 0 the path names a readable file, and what it prints is the
      first `file_size` bytes of the file's blocks in file order, provided every block
      and table on the way lies in the container. */
  lemma CatPrintsFile(fs: Fs, path: CStr)
    requires CmdCat(fs, path).Ok? && CmdCat(fs, path).v.code == 0
    ensures var t := SplitPath(path);
      var b := FindFile(fs, t.parent, t.name).v;
      var n := InodeAt(fs, b);
      var out := CmdCat(fs, path).v.out;
      && Denotes(fs, t.parent, t.name, b) && CatAllowed(n)
      && (Reachable(fs, CatReader, n) && AllIn(fs, FileOrder(fs, CatReader, n)) ==>
            var s := Stream(fs, FileOrder(fs, CatReader, n));
            out == s[..Min(n.size, |s|)])
  {
    var t := SplitPath(path);
    FindFileSpec(fs, t.parent, t.name);
    var n := InodeAt(fs, FindFile(fs, t.parent, t.name).v);
    if Reachable(fs, CatReader, n) && AllIn(fs, FileOrder(fs, CatReader, n)) {
      ReadFileContent(fs, CatReader, n);
    }
  }

  /** The shared part of the two chmod/cat lemmas: after a successful chmod on a path
      that does not end in '/', cat looks at the block chmod changed. */
  lemma ChmodThenLookup(fs: Fs, path: CStr, arg: CStr, now: u32)
    requires WellFormed(fs) && Tidy(fs)
    requires !IsFolderPath(SplitPath(path).parent, SplitPath(path).name)
    requires CmdChmod(fs, path, arg, now).Ok? && CmdChmod(fs, path, arg, now).v == 0
    ensures var t := SplitPath(path);
      var fs' := CmdChmod(fs, path, arg, now).fs;
      var b := FindFile(fs, t.parent, t.name).v;
      && ParentFits(path) && b != -1 && InRange(fs, b)
      && FindFile(fs', t.parent, t.name) == Ok(fs', b)
      && Changed(fs, fs', b, ParseMode(arg), now)
  {
    var t := SplitPath(path);
    assert Target(path) == t;
    TidyFindFile(fs, t.parent, t.name);
    ChmodChanges(fs, path, arg, now);
    ChmodKeepsShape(fs, path, arg, now);
    FindFileSameShape(fs, CmdChmod(fs, path, arg, now).fs, t.parent, t.name);
  }

  /** Revoking the read permission makes cat refuse the file. */
  lemma RevokeReadStopsCat(fs: Fs, path: CStr, now: u32)
    requires WellFormed(fs) && Tidy(fs)
    requires !IsFolderPath(SplitPath(path).parent, SplitPath(path).name)
    requires CmdChmod(fs, path, [Minus, LetterR], now).Ok? && CmdChmod(fs, path, [Minus, LetterR], now).v == 0
    ensures var fs' := CmdChmod(fs, path, [Minus, LetterR], now).fs;
      CmdCat(fs', path) == Ok(fs', Said(1, []))
  {
    ChmodThenLookup(fs, path, [Minus, LetterR], now);
  }

  /** Granting the read permission to a file that is not read-locked makes cat accept
      it: cat then answers 0 unless a block read leaves the container. */
  lemma GrantReadOpensCat(fs: Fs, path: CStr, now: u32)
    requires WellFormed(fs) && Tidy(fs)
    requires !IsFolderPath(SplitPath(path).parent, SplitPath(path).name)
    requires CmdChmod(fs, path, [Plus, LetterR], now).Ok? && CmdChmod(fs, path, [Plus, LetterR], now).v == 0
    requires var t := SplitPath(path); !Has(InodeAt(fs, FindFile(fs, t.parent, t.name).v).flags, FlagReadLock)
    ensures var fs' := CmdChmod(fs, path, [Plus, LetterR], now).fs;
      CmdCat(fs', path).Ok? ==> CmdCat(fs', path).v.code == 0
  {
    var t := SplitPath(path);
    ChmodThenLookup(fs, path, [Plus, LetterR], now);
    var b := FindFile(fs, t.parent, t.name).v;
    var fs' := CmdChmod(fs, path, [Plus, LetterR], now).fs;
    PermissionBits.ReadLockKept(InodeAt(fs', b).flags, InodeAt(fs, b).flags);
    assert CatAllowed(InodeAt(fs', b));
    CatOpens(fs', path, b);
  }

  /** cat on a path that denotes a readable file answers 0 whenever it does not fault. */
  lemma CatOpens(fs: Fs, path: CStr, b: int)
    requires ParentFits(path) && b != -1
    requires FindFile(fs, SplitPath(path).parent, SplitPath(path).name) == Ok(fs, b)
    requires CatAllowed(InodeAt(fs, b))
    ensures CmdCat(fs, path).Ok? ==> CmdCat(fs, path).v.code == 0
  {
  }
}
