/** Model of the two path helpers of `utils.rs`: escaping a Windows guest
    path for the guest agent, and choosing the local file that mirrors a
    guest file. Local paths follow Unix rules, where only `/` separates
    components. */
module Paths {
  import opened Wrappers
  import opened Text

  const BACKSLASH: char := '\\'

  /** How many times `c` occurs in `s`. */
  function Count(s: string, c: char): nat {
    if |s| == 0 then 0 else (if s[0] == c then 1 else 0) + Count(s[1..], c)
  }

  lemma {:induction false} CountPositive(s: string, c: char)
    requires c in s
    ensures Count(s, c) > 0
    decreases |s|
  {
    if s[0] != c {
      assert c in s[1..];
      CountPositive(s[1..], c);
    }
  }

  /** `normalize_windows_path`, that is `path.replace("\\", "\\\\")`: every
      backslash doubled, every other character kept, in order. */
  function NormalizeWindowsPath(p: string): (r: string)
    ensures |r| == |p| + Count(p, BACKSLASH)
    ensures BACKSLASH !in p ==> r == p
  {
    if |p| == 0 then []
    else
      var rest := NormalizeWindowsPath(p[1..]);
      if p[0] == BACKSLASH then [BACKSLASH, BACKSLASH] + rest
      else
        assert BACKSLASH !in p ==> BACKSLASH !in p[1..];
        [p[0]] + rest
  }

  /** The inverse reading: every `\\` pair stands for one backslash; a lone
      backslash has no meaning. */
  function Unescape(r: string): Option<string>
    decreases |r|
  {
    if |r| == 0 then Some([])
    else if r[0] != BACKSLASH then
      match Unescape(r[1..])
      case None => None
      case Some(rest) => Some([r[0]] + rest)
    else if |r| >= 2 && r[1] == BACKSLASH then
      match Unescape(r[2..])
      case None => None
      case Some(rest) => Some([BACKSLASH] + rest)
    else None
  }

  /** Escaping loses nothing: reading the escaped path back gives the
      original. */
  lemma {:induction false} UnescapeNormalize(p: string)
    ensures Unescape(NormalizeWindowsPath(p)) == Some(p)
    decreases |p|
  {
    if |p| > 0 {
      var r := NormalizeWindowsPath(p);
      var rest := NormalizeWindowsPath(p[1..]);
      UnescapeNormalize(p[1..]);
      if p[0] == BACKSLASH {
        assert r[2..] == rest;
      } else {
        assert r[1..] == rest;
      }
      assert [p[0]] + p[1..] == p;
    }
  }

  /** A path comes out unchanged exactly when it has no backslash. */
  lemma NormalizeUnchangedIff(p: string)
    ensures NormalizeWindowsPath(p) == p <==> BACKSLASH !in p
  {
    if BACKSLASH in p {
      CountPositive(p, BACKSLASH);
    }
  }

  /** A piece between separators that `Path::components` does not report as
      a name: an empty piece (from a leading, doubled or trailing `/`) or `.`. */
  predicate SkippedPiece(piece: string) {
    piece == "" || piece == "."
  }

  /** The last piece that is not skipped. */
  function LastNamed(pieces: seq<string>): (r: Option<string>)
    ensures r.Some? ==> r.value in pieces && !SkippedPiece(r.value)
    ensures r.None? <==> forall i :: 0 <= i < |pieces| ==> SkippedPiece(pieces[i])
  {
    if |pieces| == 0 then None
    else if SkippedPiece(pieces[|pieces| - 1]) then
      var r := LastNamed(pieces[..|pieces| - 1]);
      assert forall x :: x in pieces[..|pieces| - 1] ==> x in pieces;
      r
    else Some(pieces[|pieces| - 1])
  }

  /** `Path::file_name` on Unix: the last component of `path`, if it is a
      name; none for `/`, for an empty or `.`-only path, and for a path that
      ends in `..`. */
  function FileName(path: string): (r: Option<string>)
    ensures r.Some? ==> r.value != "" && r.value != "." && r.value != ".." && '/' !in r.value
  {
    match LastNamed(Split(path, '/'))
    case None => None
    case Some(name) => if name == ".." then None else Some(name)
  }

  /** The name of a file under some directories is that file's name. */
  lemma FileNameOfJoin(dirs: seq<string>, name: string)
    requires forall i :: 0 <= i < |dirs| ==> '/' !in dirs[i]
    requires '/' !in name && !SkippedPiece(name) && name != ".."
    ensures FileName(Join(dirs + [name], '/')) == Some(name)
  {
    var parts := dirs + [name];
    assert forall i :: 0 <= i < |parts| ==> '/' !in parts[i] by {
      forall i | 0 <= i < |parts|
        ensures '/' !in parts[i]
      {
        if i < |dirs| {
          assert parts[i] == dirs[i];
        }
      }
    }
    assert Split(Join(parts, '/'), '/') == parts by {
      SplitJoin(parts, '/');
    }
    assert LastNamed(parts) == Some(name) by {
      assert parts[|parts| - 1] == name;
    }
  }

  /** A trailing `/` does not change the name. */
  lemma FileNameTrailingSlash(path: string)
    ensures FileName(path + "/") == FileName(path)
  {
    SplitSnocSep(path, '/');
    var ps := Split(path, '/');
    assert (ps + [""])[..|ps|] == ps;
  }

  lemma {:induction false} SplitSnocSep(s: string, sep: char)
    ensures Split(s + [sep], sep) == Split(s, sep) + [""]
    decreases |s|
  {
    if |s| == 0 {
      assert Split([sep], sep) == [""] + Split([], sep);
    } else {
      assert (s + [sep])[1..] == s[1..] + [sep];
      SplitSnocSep(s[1..], sep);
    }
  }

  /** `resolve_local_path`: a `local` path with any non-white-space character
      is used verbatim; a blank one is replaced by the file name of `remote`,
      or by the empty path when `remote` has none. */
  function ResolveLocalPath(local: string, remote: string): (r: string)
    ensures !IsBlank(local) ==> r == local
    ensures IsBlank(local) ==> r == FileName(remote).GetOr("")
  {
    TrimEmptyIffBlank(local);
    if Trim(local) == [] then FileName(remote).GetOr("") else local
  }

  /** The guest paths the program asks for are Windows paths such as
      `C:\nps.xml`, whose separator is `\`. Unix `file_name` does not split
      there, so a blank local path resolves to the whole guest path, colon and
      backslash included. */
  lemma ResolveWindowsRemoteAsWritten()
    ensures ResolveLocalPath("", "C:\\nps.xml") == "C:\\nps.xml"
  {
    var p := "C:\\nps.xml";
    assert '/' !in p;
    SplitNoSep(p, '/');
    assert LastNamed([p]) == Some(p);
  }

  /** `path` with each backslash turned into `/`. */
  function Slashed(path: string): (r: string)
    ensures |r| == |path| && BACKSLASH !in r
    ensures forall i :: 0 <= i < |path| ==> r[i] == if path[i] == BACKSLASH then '/' else path[i]
  {
    seq(|path|, i requires 0 <= i < |path| => if path[i] == BACKSLASH then '/' else path[i])
  }

  /** The file name of a guest path that may use either separator. */
  function GuestFileName(path: string): (r: Option<string>)
    ensures r.Some? ==> r.value != "" && '/' !in r.value && BACKSLASH !in r.value
  {
    GuestFileNameClean(path);
    FileName(Slashed(path))
  }

  lemma GuestFileNameClean(path: string)
    ensures FileName(Slashed(path)).Some? ==> BACKSLASH !in FileName(Slashed(path)).value
  {
    var r := FileName(Slashed(path));
    if r.Some? {
      var parts := Split(Slashed(path), '/');
      assert r.value in parts;
      var i :| 0 <= i < |parts| && parts[i] == r.value;
      SplitPieceIn(Slashed(path), '/', i);
    }
  }

  /** Every piece of a split is made of characters of the split string. */
  lemma {:induction false} SplitPieceIn(s: string, sep: char, i: nat)
    requires i < |Split(s, sep)|
    ensures forall c :: c in Split(s, sep)[i] ==> c in s
    decreases |s|
  {
    if |s| > 0 {
      var rest := Split(s[1..], sep);
      if s[0] == sep {
        if i > 0 {
          SplitPieceIn(s[1..], sep, i - 1);
        }
      } else if i == 0 {
        SplitPieceIn(s[1..], sep, 0);
      } else {
        SplitPieceIn(s[1..], sep, i);
      }
    }
  }

  /** `resolve_local_path` as evidently intended for Windows guest paths: a
      blank local path is replaced by the guest file's own name, which never
      holds a separator of either kind. */
  function ResolveLocalPathFixed(local: string, remote: string): (r: string)
    ensures !IsBlank(local) ==> r == local
    ensures IsBlank(local) ==> r == GuestFileName(remote).GetOr("")
    ensures IsBlank(local) ==> '/' !in r && BACKSLASH !in r
  {
    TrimEmptyIffBlank(local);
    if Trim(local) == [] then GuestFileName(remote).GetOr("") else local
  }

  /** With both separators honoured, `C:\nps.xml` resolves to `nps.xml`. */
  lemma ResolveWindowsRemoteFixed()
    ensures ResolveLocalPathFixed("", "C:\\nps.xml") == "nps.xml"
  {
    GuestNameExample();
    assert IsBlank("");
  }

  lemma GuestNameExample()
    ensures GuestFileName("C:\\nps.xml") == Some("nps.xml")
  {
    SlashedWindowsExample();
    SplitTwo("C:", '/', "nps.xml");
    assert LastNamed(["C:", "nps.xml"]) == Some("nps.xml");
  }

  lemma SplitTwo(a: string, sep: char, b: string)
    requires sep !in a && sep !in b
    ensures Split(a + [sep] + b, sep) == [a, b]
  {
    SplitHead(a, sep, b);
    SplitNoSep(b, sep);
  }

  lemma SlashedWindowsExample()
    ensures Slashed("C:\\nps.xml") == "C:" + ['/'] + "nps.xml"
  {
    var s := Slashed("C:\\nps.xml");
    assert |s| == 10;
    assert forall i :: 0 <= i < 10 ==> s[i] == "C:/nps.xml"[i];
  }

  /** For Unix guest paths the fix changes nothing. */
  lemma FixedAgreesOnUnixPaths(local: string, remote: string)
    requires BACKSLASH !in remote
    ensures ResolveLocalPathFixed(local, remote) == ResolveLocalPath(local, remote)
  {
    assert Slashed(remote) == remote;
  }
}
