/** C strings and the path helpers of src/utilitaires.c: `split_path`, the `strtok(.., "/")`
    walk the lookups and `create_directory` share, `is_folder_path`, and the way a name is
    stored into and read back from an inode's 256-byte `filename` field.

    A C string is modelled as the bytes before its terminating NUL, so it contains no 0
    byte. Paths are such strings over bytes, '/' being byte 47.
 */
module Paths {
  import opened Codec
  import opened Blocks

  const Slash: byte := 47

  predicate NoNul(s: seq<byte>) {
    forall i :: 0 <= i < |s| ==> s[i] != 0
  }

  predicate NoSlash(s: seq<byte>) {
    forall i :: 0 <= i < |s| ==> s[i] != Slash
  }

  /** The bytes a `char *` denotes: everything before the first NUL. */
  type CStr = s: seq<byte> | NoNul(s) witness []

  /** The first n bytes of s, as `strncpy(dst, s, n); dst[n] = '\0'` leaves them. */
  function Trunc(s: CStr, n: nat): (r: CStr)
    ensures |r| == if |s| <= n then |s| else n
    ensures r == s[..|r|]
  {
    if |s| <= n then s else s[..n]
  }

  /** An optional `const char *` argument of a command: NULL or a C string. */
  datatype Arg = Null | Given(s: CStr)

  // ---------------------------------------------------------------------------
  // Names stored in inodes

  /** The name `strcmp` sees in a `filename` field: the bytes before its first NUL. */
  function NameText(nm: seq<byte>): (s: CStr)
    ensures |s| <= |nm| && s == nm[..|s|]
    ensures |s| < |nm| ==> nm[|s|] == 0
  {
    if |nm| == 0 || nm[0] == 0 then [] else [nm[0]] + NameText(nm[1..])
  }

  /** `strncpy(in->filename, name, 255); in->filename[255] = '\0'`: the first 255 bytes
      of the name, then NULs up to 256 bytes. */
  function StoreName(s: CStr): (nm: Name)
  {
    var t := Trunc(s, 255);
    t + seq(256 - |t|, _ => 0 as byte)
  }

  /** Reading a stored name back gives the name, cut to 255 bytes. */
  lemma {:induction false} NameRoundTrip(s: CStr)
    ensures NameText(StoreName(s)) == Trunc(s, 255)
  {
    var t := Trunc(s, 255);
    var nm := StoreName(s);
    assert nm[..|t|] == t;
    assert nm[|t|] == 0;
    NameTextOfTerminated(nm, t);
  }

  /** A byte sequence holding the NUL-free t followed by a NUL reads back as t. */
  lemma {:induction false} NameTextOfTerminated(nm: seq<byte>, t: CStr)
    requires |t| < |nm| && nm[..|t|] == t && nm[|t|] == 0
    ensures NameText(nm) == t
    decreases |t|
  {
    if |t| > 0 {
      assert nm[0] == t[0];
      assert nm[1..][..|t| - 1] == t[1..];
      NameTextOfTerminated(nm[1..], t[1..]);
    }
  }

  // ---------------------------------------------------------------------------
  // split_path

  datatype Split = Split(parent: CStr, name: CStr)

  /** `strrchr(s, '/')` as an index, -1 when s holds no slash. */
  function LastSlash(s: seq<byte>): (k: int)
    ensures -1 <= k < |s|
    ensures k >= 0 ==> s[k] == Slash && NoSlash(s[k + 1..])
    ensures k == -1 ==> NoSlash(s)
  {
    if |s| == 0 then -1
    else if s[|s| - 1] == Slash then |s| - 1
    else
      var k := LastSlash(s[..|s| - 1]);
      LastSlashStep(s, k);
      k
  }

  /** A slash-free tail stays slash-free when the last byte, not a slash, is put back. */
  lemma {:induction false} LastSlashStep(s: seq<byte>, k: int)
    requires |s| > 0 && s[|s| - 1] != Slash && -1 <= k < |s| - 1
    requires k >= 0 ==> NoSlash(s[..|s| - 1][k + 1..])
    requires k == -1 ==> NoSlash(s[..|s| - 1])
    ensures k >= 0 ==> s[k] == s[..|s| - 1][k] && NoSlash(s[k + 1..])
    ensures k == -1 ==> NoSlash(s)
  {
    var n := |s|;
    if k >= 0 {
      var u := s[..n - 1][k + 1..];
      forall i | k < i < n
        ensures s[i] != Slash
      {
        if i < n - 1 {
          assert s[i] == u[i - k - 1];
        }
      }
      var w := s[k + 1..];
      forall i | 0 <= i < |w|
        ensures w[i] != Slash
      {
        assert w[i] == s[k + 1 + i];
      }
    } else {
      forall i | 0 <= i < n
        ensures s[i] != Slash
      {
        if i < n - 1 {
          assert s[i] == s[..n - 1][i];
        }
      }
    }
  }

  /** `split_path`: everything before the last slash is the parent, the rest (cut to 255
      bytes) the name; without a slash the parent is empty. */
  function SplitPath(path: CStr): (r: Split)
    ensures NoSlash(r.name) && |r.name| <= 255
  {
    var k := LastSlash(path);
    if k >= 0 then Split(path[..k], Trunc(path[k + 1..], 255)) else Split([], Trunc(path, 255))
  }

  /** Splitting then joining gives the path back, as long as its last component fits the
      255-byte name buffer. */
  lemma SplitJoins(path: CStr)
    requires |path| - LastSlash(path) - 1 <= 255
    ensures var r := SplitPath(path);
      if LastSlash(path) >= 0 then r.parent + [Slash] + r.name == path
      else r.parent == [] && r.name == path
  {
    var k := LastSlash(path);
    if k >= 0 {
      Around(path, k);
    }
  }

  lemma Around(s: seq<byte>, k: int)
    requires 0 <= k < |s|
    ensures s[..k] + [s[k]] + s[k + 1..] == s
  {
  }

  /** Joining a parent and a slash-free name, then splitting, gives both back. */
  lemma JoinSplits(parent: CStr, name: CStr)
    requires NoSlash(name) && |name| <= 255
    ensures NoNul(parent + [Slash] + name)
    ensures SplitPath(parent + [Slash] + name) == Split(parent, name)
  {
    var p := parent + [Slash] + name;
    assert p[|parent| + 1..] == name;
    assert p[..|parent|] == parent;
    LastSlashOfJoin(parent, name);
  }

  lemma {:induction false} LastSlashOfJoin(a: seq<byte>, b: seq<byte>)
    requires NoSlash(b)
    ensures LastSlash(a + [Slash] + b) == |a|
    decreases |b|
  {
    var s := a + [Slash] + b;
    if |b| > 0 {
      assert s[..|s| - 1] == a + [Slash] + b[..|b| - 1];
      LastSlashOfJoin(a, b[..|b| - 1]);
    }
  }

  /** `is_folder_path(parent, child)`: a path whose last component is empty (it ends in
      '/', or is empty) denotes a folder. */
  function IsFolderPath(parent: CStr, child: CStr): (r: bool)
    ensures r <==> |child| == 0
  {
    if |parent| > 0 && |child| > 0 then false
    else if |parent| > 0 && |child| == 0 then true
    else if |parent| == 0 && |child| > 0 then false
    else true
  }

  /** A path names a folder exactly when it is empty or ends with '/'. */
  lemma FolderPathIffTrailingSlash(path: CStr)
    ensures var r := SplitPath(path);
      IsFolderPath(r.parent, r.name) <==> |path| == 0 || path[|path| - 1] == Slash
  {
    var k := LastSlash(path);
    if |path| > 0 && path[|path| - 1] == Slash {
      assert k == |path| - 1;
    }
  }

  // ---------------------------------------------------------------------------
  // strtok(s, "/")

  /** Length of the leading run of non-slash bytes. */
  function RunLength(s: seq<byte>): (k: nat)
    ensures k <= |s| && NoSlash(s[..k]) && (k < |s| ==> s[k] == Slash)
  {
    if |s| == 0 || s[0] == Slash then 0
    else
      var k := RunLength(s[1..]);
      assert s[..k + 1] == [s[0]] + s[1..][..k];
      k + 1
  }

  /** The tokens successive `strtok(.., "/")` calls return: maximal non-empty runs of
      non-slash bytes, in order. */
  function Tokens(s: seq<byte>): (ts: seq<seq<byte>>)
    ensures forall i :: 0 <= i < |ts| ==> |ts[i]| > 0 && NoSlash(ts[i])
    ensures |ts| <= |s|
    decreases |s|
  {
    if |s| == 0 then []
    else if s[0] == Slash then Tokens(s[1..])
    else
      var k := RunLength(s);
      [s[..k]] + Tokens(s[k..])
  }

  /** Tokens joined with single slashes. */
  function JoinTokens(ts: seq<seq<byte>>): seq<byte> {
    if |ts| == 0 then []
    else if |ts| == 1 then ts[0]
    else ts[0] + [Slash] + JoinTokens(ts[1..])
  }

  /** Tokenising undoes joining: non-empty slash-free components joined with '/' come
      back one by one. */
  lemma {:induction false} TokensOfJoin(ts: seq<seq<byte>>)
    requires forall i :: 0 <= i < |ts| ==> |ts[i]| > 0 && NoSlash(ts[i])
    ensures Tokens(JoinTokens(ts)) == ts
  {
    if |ts| == 1 {
      TokensOfOne(ts[0]);
      assert ts == [ts[0]];
    } else if |ts| > 1 {
      TokensOfJoin(ts[1..]);
      TokensOfJoinStep(ts);
    }
  }

  /** A single non-empty slash-free component is one token. */
  lemma TokensOfOne(t: seq<byte>)
    requires |t| > 0 && NoSlash(t)
    ensures Tokens(t) == [t]
  {
    assert t + [] == t;
    RunOfNoSlash(t, []);
    assert t[..|t|] == t && t[|t|..] == [];
    assert Tokens(t) == [t[..|t|]] + Tokens(t[|t|..]);
  }

  /** The first component and its slash come off as one token before the rest. */
  lemma TokensOfJoinStep(ts: seq<seq<byte>>)
    requires |ts| > 1 && |ts[0]| > 0 && NoSlash(ts[0])
    requires Tokens(JoinTokens(ts[1..])) == ts[1..]
    ensures Tokens(JoinTokens(ts)) == ts
  {
    var s := JoinTokens(ts);
    var rest := JoinTokens(ts[1..]);
    assert s == ts[0] + ([Slash] + rest);
    RunOfNoSlash(ts[0], [Slash] + rest);
    assert s[..|ts[0]|] == ts[0];
    assert s[|ts[0]|..] == [Slash] + rest;
    assert ([Slash] + rest)[1..] == rest;
    assert ts == [ts[0]] + ts[1..];
  }

  /** A run of non-slash bytes followed by a slash or the end is read whole. */
  lemma {:induction false} RunOfNoSlash(t: seq<byte>, rest: seq<byte>)
    requires |t| > 0 && NoSlash(t) && (|rest| > 0 ==> rest[0] == Slash)
    ensures RunLength(t + rest) == |t|
    decreases |t|
  {
    if |t| > 1 {
      assert (t + rest)[1..] == t[1..] + rest;
      RunOfNoSlash(t[1..], rest);
    } else {
      assert (t + rest)[1..] == rest;
    }
  }

  /** The tokens of a C string are C strings no longer than it. */
  lemma {:induction false} TokensNoNul(s: seq<byte>)
    requires NoNul(s)
    ensures forall i :: 0 <= i < |Tokens(s)| ==> NoNul(Tokens(s)[i]) && |Tokens(s)[i]| <= |s|
    decreases |s|
  {
    if |s| > 0 {
      if s[0] == Slash {
        TokensNoNul(s[1..]);
      } else {
        var k := RunLength(s);
        TokensNoNul(s[k..]);
        assert Tokens(s) == [s[..k]] + Tokens(s[k..]);
      }
    }
  }

  /** Leading, doubled and trailing slashes do not produce tokens. */
  lemma SlashPrefixIgnored(s: seq<byte>)
    ensures Tokens([Slash] + s) == Tokens(s)
  {
    assert ([Slash] + s)[1..] == s;
  }
}
