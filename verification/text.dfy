/** The pieces of Rust's `str` and integer API the core relies on: whitespace
    trimming, `split`, `lines`, `split_whitespace`, `u64` parsing and decimal
    printing. Strings are sequences of Unicode scalar values. */
module Text {
  import opened Wrappers

  /** Largest value of Rust's `u64`. */
  const U64_MAX: nat := 0xFFFF_FFFF_FFFF_FFFF

  type u64 = n: nat | n <= U64_MAX

  /** `u64::saturating_add`: never more than the exact sum, and either the
      exact sum or the largest `u64`. */
  function SatAdd(a: u64, b: u64): (r: u64)
    ensures r <= a + b && (r == a + b || r == U64_MAX)
  {
    if a + b <= U64_MAX then a + b else U64_MAX
  }

  /** `u64::saturating_mul`: never more than the exact product, and either the
      exact product or the largest `u64`. */
  function SatMul(a: u64, b: u64): (r: u64)
    ensures r <= a * b && (r == a * b || r == U64_MAX)
  {
    if a * b <= U64_MAX then a * b else U64_MAX
  }

  /** `char::is_whitespace`: the characters with the Unicode White_Space property. */
  predicate IsWhitespace(c: char) {
    || ('\t' <= c <= '\r')
    || c == ' '
    || c == '\U{85}'
    || c == '\U{A0}'
    || c == '\U{1680}'
    || ('\U{2000}' <= c <= '\U{200A}')
    || c == '\U{2028}'
    || c == '\U{2029}'
    || c == '\U{202F}'
    || c == '\U{205F}'
    || c == '\U{3000}'
  }

  /** Every character of `s` is white space (the empty string included). */
  predicate IsBlank(s: string) {
    forall i :: 0 <= i < |s| ==> IsWhitespace(s[i])
  }

  predicate StartsWith(s: string, prefix: string) {
    |prefix| <= |s| && s[..|prefix|] == prefix
  }

  /** `s.ends_with(c)` for a single character. */
  predicate EndsWith(s: string, c: char) {
    |s| > 0 && s[|s| - 1] == c
  }

  /** `str::trim_start`. */
  function TrimStart(s: string): (r: string)
    ensures |r| <= |s| && r == s[|s| - |r|..]
    ensures IsBlank(s[..|s| - |r|])
    ensures r == [] || !IsWhitespace(r[0])
  {
    if |s| > 0 && IsWhitespace(s[0]) then
      var r := TrimStart(s[1..]);
      assert s[..|s| - |r|] == [s[0]] + s[1..][..|s| - 1 - |r|];
      r
    else s
  }

  /** `str::trim_end`. */
  function TrimEnd(s: string): (r: string)
    ensures |r| <= |s| && r == s[..|r|]
    ensures IsBlank(s[|r|..])
    ensures r == [] || !IsWhitespace(r[|r| - 1])
  {
    if |s| > 0 && IsWhitespace(s[|s| - 1]) then
      var r := TrimEnd(s[..|s| - 1]);
      assert s[|r|..] == s[..|s| - 1][|r|..] + [s[|s| - 1]];
      r
    else s
  }

  /** `str::trim`: `s` without its leading and trailing white space. */
  function Trim(s: string): (r: string)
    ensures forall c :: c in r ==> c in s
    ensures r == [] || (!IsWhitespace(r[0]) && !IsWhitespace(r[|r| - 1]))
  {
    var t := TrimStart(s);
    assert forall c :: c in t ==> c in s;
    TrimEnd(t)
  }

  /** Trimming gives the empty string exactly on blank input. */
  lemma TrimEmptyIffBlank(s: string)
    ensures Trim(s) == [] <==> IsBlank(s)
  {
    if IsBlank(s) {
      BlankTrimStart(s);
    }
  }

  lemma {:induction false} BlankTrimStart(s: string)
    requires IsBlank(s)
    ensures TrimStart(s) == []
    decreases |s|
  {
    if |s| > 0 {
      BlankTrimStart(s[1..]);
    }
  }

  /** A string that neither starts nor ends with white space is its own trim. */
  lemma TrimOfTrimmed(s: string)
    requires s == [] || (!IsWhitespace(s[0]) && !IsWhitespace(s[|s| - 1]))
    ensures Trim(s) == s
  {
  }

  lemma TrimIdempotent(s: string)
    ensures Trim(Trim(s)) == Trim(s)
  {
    TrimOfTrimmed(Trim(s));
  }

  /** `str::split` on a single character: the pieces between separators, in
      order, with an empty piece wherever two separators touch or at an end. */
  function Split(s: string, sep: char): (r: seq<string>)
    ensures |r| >= 1
    ensures forall i :: 0 <= i < |r| ==> sep !in r[i]
    decreases |s|
  {
    if |s| == 0 then [""]
    else
      var rest := Split(s[1..], sep);
      if s[0] == sep then [""] + rest
      else [[s[0]] + rest[0]] + rest[1..]
  }

  /** `[String]::join` with a one-character separator. */
  function Join(parts: seq<string>, sep: char): string
  {
    if |parts| == 0 then ""
    else if |parts| == 1 then parts[0]
    else parts[0] + [sep] + Join(parts[1..], sep)
  }

  /** Splitting a string that has no separator gives that string alone. */
  lemma {:induction false} SplitNoSep(s: string, sep: char)
    requires sep !in s
    ensures Split(s, sep) == [s]
    decreases |s|
  {
    if |s| > 0 {
      SplitNoSep(s[1..], sep);
      assert [s[0]] + s[1..] == s;
    }
  }

  /** A separator-free first piece is split off exactly. */
  lemma {:induction false} SplitHead(p: string, sep: char, t: string)
    requires sep !in p
    ensures Split(p + [sep] + t, sep) == [p] + Split(t, sep)
    decreases |p|
  {
    if |p| == 0 {
      assert (p + [sep] + t)[1..] == t;
    } else {
      assert (p + [sep] + t)[1..] == p[1..] + [sep] + t;
      SplitHead(p[1..], sep, t);
      assert [p[0]] + p[1..] == p;
    }
  }

  /** `split` inverts `join` when no part contains the separator. */
  lemma {:induction false} SplitJoin(parts: seq<string>, sep: char)
    requires |parts| >= 1
    requires forall i :: 0 <= i < |parts| ==> sep !in parts[i]
    ensures Split(Join(parts, sep), sep) == parts
    decreases |parts|
  {
    if |parts| == 1 {
      SplitNoSep(parts[0], sep);
    } else {
      SplitHead(parts[0], sep, Join(parts[1..], sep));
      SplitJoin(parts[1..], sep);
    }
  }

  function StripCr(line: string): string {
    if |line| > 0 && line[|line| - 1] == '\r' then line[..|line| - 1] else line
  }

  /** A `\r` dropped before trimming would have been trimmed anyway. */
  lemma TrimStripCr(line: string)
    ensures Trim(StripCr(line)) == Trim(line)
  {
    if |line| > 0 && line[|line| - 1] == '\r' {
      var y := line[..|line| - 1];
      assert line == y + ['\r'];
      TrimSnoc(y, '\r');
    }
  }

  /** White space added at the end does not change the trim. */
  lemma TrimSnoc(y: string, c: char)
    requires IsWhitespace(c)
    ensures Trim(y + [c]) == Trim(y)
  {
    TrimStartSnoc(y, c);
    var t := TrimStart(y);
    if t != [] {
      TrimEndSnoc(t, c);
    }
  }

  lemma TrimEndSnoc(t: string, c: char)
    requires IsWhitespace(c)
    ensures TrimEnd(t + [c]) == TrimEnd(t)
  {
    assert (t + [c])[..|t + [c]| - 1] == t;
  }

  /** White space added at the end survives `trim_start` unless everything
      before it was white space too. */
  lemma {:induction false} TrimStartSnoc(y: string, c: char)
    requires IsWhitespace(c)
    ensures TrimStart(y + [c]) == if TrimStart(y) == [] then [] else TrimStart(y) + [c]
    decreases |y|
  {
    if |y| == 0 {
      assert ([c])[1..] == [];
    } else if IsWhitespace(y[0]) {
      assert (y + [c])[1..] == y[1..] + [c];
      TrimStartSnoc(y[1..], c);
    }
  }

  /** `str::lines`: split at `\n`, drop a `\r` just before a `\n`, and yield
      nothing for the empty remainder after a final `\n`. */
  function Lines(s: string): (r: seq<string>)
    ensures forall i :: 0 <= i < |r| ==> '\n' !in r[i]
  {
    var pieces := Split(s, '\n');
    var n := |pieces|;
    var body := if pieces[n - 1] == "" then pieces[..n - 1] else pieces;
    seq(|body|, i requires 0 <= i < |body| => if i < n - 1 then StripCr(body[i]) else body[i])
  }

  /** Joining lines that carry no line break, no trailing `\r` and no empty
      last line, then splitting them with `lines`, gives them back. */
  lemma LinesOfJoin(ls: seq<string>)
    requires forall i :: 0 <= i < |ls| ==> '\n' !in ls[i]
    requires forall i :: 0 <= i < |ls| ==> ls[i] == [] || ls[i][|ls[i]| - 1] != '\r'
    requires |ls| > 0 ==> ls[|ls| - 1] != ""
    ensures Lines(Join(ls, '\n')) == ls
  {
    if |ls| == 0 {
      assert Split("", '\n') == [""];
    } else {
      SplitJoin(ls, '\n');
      var r := Lines(Join(ls, '\n'));
      assert |r| == |ls|;
      forall i | 0 <= i < |ls|
        ensures r[i] == ls[i]
      {
        assert StripCr(ls[i]) == ls[i];
      }
    }
  }

  /** Number of leading non-white-space characters. */
  function WordLen(s: string): (n: nat)
    ensures n <= |s|
    ensures forall i :: 0 <= i < n ==> !IsWhitespace(s[i])
    ensures n < |s| ==> IsWhitespace(s[n])
  {
    if |s| == 0 || IsWhitespace(s[0]) then 0 else 1 + WordLen(s[1..])
  }

  /** Non-empty strings without white space. */
  predicate AreWords(ws: seq<string>) {
    forall i :: 0 <= i < |ws| ==> ws[i] != [] && !HasWhitespace(ws[i])
  }

  /** `str::split_whitespace`: the maximal runs of non-white-space characters. */
  function Words(s: string): (r: seq<string>)
    ensures AreWords(r)
    ensures forall i, c :: 0 <= i < |r| && c in r[i] ==> c in s
    decreases |s|
  {
    if |s| == 0 then []
    else if IsWhitespace(s[0]) then
      assert forall c :: c in s[1..] ==> c in s;
      Words(s[1..])
    else
      var n := WordLen(s);
      assert forall c :: c in s[n..] ==> c in s;
      assert forall c :: c in s[..n] ==> c in s;
      [s[..n]] + Words(s[n..])
  }

  predicate HasWhitespace(s: string) {
    exists i :: 0 <= i < |s| && IsWhitespace(s[i])
  }

  /** A word followed by white space or nothing: its length is the word's. */
  lemma {:induction false} WordLenOf(w: string, t: string)
    requires !HasWhitespace(w)
    requires t == [] || IsWhitespace(t[0])
    ensures WordLen(w + t) == |w|
    decreases |w|
  {
    if |w| > 0 {
      assert !IsWhitespace(w[0]);
      assert (w + t)[1..] == w[1..] + t;
      assert !HasWhitespace(w[1..]) by {
        assert forall i :: 0 <= i < |w| - 1 ==> w[1..][i] == w[i + 1];
      }
      WordLenOf(w[1..], t);
    } else {
      assert w + t == t;
    }
  }

  /** A join of nonempty parts starts with the first part's first character
      and ends with the last part's last character. */
  lemma {:induction false} JoinEnds(ws: seq<string>, sep: char)
    requires |ws| > 0 && forall i :: 0 <= i < |ws| ==> ws[i] != []
    ensures var j := Join(ws, sep);
            |j| > 0 && j[0] == ws[0][0] && j[|j| - 1] == ws[|ws| - 1][|ws[|ws| - 1]| - 1]
    decreases |ws|
  {
    if |ws| > 1 {
      JoinEnds(ws[1..], sep);
      assert ws[1..][|ws| - 2] == ws[|ws| - 1];
    }
  }

  /** Every white-space character of `s` is a space with a non-white-space
      character right after it: words separated by single spaces. */
  predicate SingleSpaced(s: string) {
    forall i :: 0 <= i < |s| && IsWhitespace(s[i]) ==> s[i] == ' ' && i + 1 < |s| && !IsWhitespace(s[i + 1])
  }

  /** Words joined with `' '` are separated by single spaces. */
  lemma {:induction false} JoinSingleSpaced(ws: seq<string>)
    requires AreWords(ws)
    ensures SingleSpaced(Join(ws, ' '))
    decreases |ws|
  {
    if |ws| == 1 {
      assert !HasWhitespace(ws[0]);
    } else if |ws| > 1 {
      var w := ws[0];
      var rest := Join(ws[1..], ' ');
      var j := Join(ws, ' ');
      assert AreWords(ws[1..]) by {
        forall i | 0 <= i < |ws[1..]|
          ensures ws[1..][i] != [] && !HasWhitespace(ws[1..][i])
        {
          assert ws[1..][i] == ws[i + 1];
        }
      }
      JoinSingleSpaced(ws[1..]);
      JoinEnds(ws[1..], ' ');
      assert j == w + [' '] + rest;
      assert !HasWhitespace(w);
      assert forall k :: 0 <= k < |w| ==> j[k] == w[k];
      forall i | 0 <= i < |j| && IsWhitespace(j[i])
        ensures j[i] == ' ' && i + 1 < |j| && !IsWhitespace(j[i + 1])
      {
        if i == |w| {
          assert j[i + 1] == rest[0] == ws[1][0];
        } else {
          assert j[i] == rest[i - |w| - 1];
          if i + 1 < |j| {
            assert j[i + 1] == rest[i - |w|];
          }
        }
      }
    }
  }

  /** `split_whitespace` inverts joining words with single spaces. */
  lemma {:induction false} WordsJoin(ws: seq<string>)
    requires AreWords(ws)
    ensures Words(Join(ws, ' ')) == ws
    decreases |ws|
  {
    if |ws| == 1 {
      var w := ws[0];
      assert WordLen(w) == |w| by {
        WordLenOf(w, []);
        assert w + [] == w;
      }
      assert w[|w|..] == [] && w[..|w|] == w;
    } else if |ws| > 1 {
      var w := ws[0];
      var rest := Join(ws[1..], ' ');
      var s := w + [' '] + rest;
      assert Join(ws, ' ') == s;
      assert WordLen(s) == |w| by {
        WordLenOf(w, [' '] + rest);
        assert s == w + ([' '] + rest);
      }
      assert s[0] == w[0];
      assert s[..|w|] == w;
      assert s[|w|..] == [' '] + rest;
      assert Words([' '] + rest) == Words(rest) by {
        assert ([' '] + rest)[1..] == rest;
      }
      WordsJoin(ws[1..]);
    }
  }

  /** `split_whitespace().next().unwrap_or("")`. */
  function FirstWord(s: string): string {
    var ws := Words(s);
    if |ws| == 0 then "" else ws[0]
  }

  predicate IsDigit(c: char) {
    '0' <= c <= '9'
  }

  predicate AllDigits(s: string) {
    forall i :: 0 <= i < |s| ==> IsDigit(s[i])
  }

  function DigitValue(c: char): nat
    requires IsDigit(c)
  {
    c as int - '0' as int
  }

  function DigitChar(d: nat): (c: char)
    requires d < 10
    ensures IsDigit(c) && DigitValue(c) == d
  {
    ('0' as int + d) as char
  }

  /** Value of a string of decimal digits, most significant first. */
  function DigitsValue(s: string): nat
    requires AllDigits(s)
  {
    if |s| == 0 then 0 else DigitsValue(s[..|s| - 1]) * 10 + DigitValue(s[|s| - 1])
  }

  /** `str::parse::<u64>`: an optional `+`, then at least one decimal digit,
      with a value that fits in 64 bits. */
  function ParseU64(s: string): (r: Option<u64>)
    ensures r.Some? ==> exists d :: (s == d || s == "+" + d) && d != [] && AllDigits(d) && DigitsValue(d) == r.value
  {
    var d := if |s| > 0 && s[0] == '+' then s[1..] else s;
    if |d| > 0 && AllDigits(d) && DigitsValue(d) <= U64_MAX then
      assert s == d || s == "+" + d;
      Some(DigitsValue(d))
    else None
  }

  /** Decimal rendering of a natural number (`format!("{}", n)`). */
  function NatToString(n: nat): (r: string)
    ensures |r| >= 1 && AllDigits(r) && DigitsValue(r) == n
    ensures r[0] != '0' || n == 0
  {
    if n < 10 then [DigitChar(n)]
    else
      var r := NatToString(n / 10) + [DigitChar(n % 10)];
      assert r[..|r| - 1] == NatToString(n / 10);
      r
  }

  /** A plain digit string that fits in 64 bits parses as its value. */
  lemma ParseU64Digits(d: string)
    requires d != [] && AllDigits(d) && DigitsValue(d) <= U64_MAX
    ensures ParseU64(d) == Some(DigitsValue(d))
  {
    assert d[0] != '+';
  }
}
