/** Model of `parse_cpu_time_to_seconds` in `utils.rs`: reading the CPU time
    `virsh dominfo` prints (`613h 33m 33s`, `154359.4s`, `12345`) as a whole
    number of seconds. Hours and minutes are parsed as `u64` and accumulate
    with saturating arithmetic; seconds go through a floating-point parse
    that is a parameter here. */
module CpuTime {
  import opened Wrappers
  import opened Text

  const SECS_PER_HOUR: nat := 3600
  const SECS_PER_MINUTE: nat := 60

  /** Largest integer below which every integer is an exact `f64`. */
  const F64_EXACT: nat := 0x20_0000_0000_0000

  /** `secs(t)` stands for `t.parse::<f64>()` followed by `as u64`: the
      seconds a token names, truncated and clamped, or none when it is not a
      number. It is exact on the decimal rendering of any integer an `f64`
      holds exactly. */
  ghost predicate ReadsWholeSeconds(secs: string -> Option<u64>) {
    forall k: nat {:trigger secs(NatToString(k))} :: k < F64_EXACT ==> secs(NatToString(k)) == Some(k)
  }

  /** `s` without its last character. */
  function DropLast(s: string): (r: string)
    requires |s| > 0
    ensures |r| == |s| - 1
  {
    s[..|s| - 1]
  }

  /** A count of `unit`-long periods, `u64`-parsed, scaled with saturation. */
  function Scaled(count: string, unit: nat): Option<u64>
    requires unit <= U64_MAX
  {
    match ParseU64(count)
    case None => None
    case Some(v) => Some(SatMul(v, unit))
  }

  /** A natural number capped at `u64::MAX`. */
  function Clamp(n: nat): (r: u64)
    ensures r <= n && (n <= U64_MAX ==> r == n) && (n > U64_MAX ==> r == U64_MAX)
  {
    if n <= U64_MAX then n else U64_MAX
  }

  /** The seconds one token of the spaced form contributes: `<n>h` and `<n>m`
      take a `u64`, `<x>s` and a bare `<x>` take a floating-point number. The
      suffix is checked in the order `h`, `m`, `s`. */
  function TokenSeconds(token: string, secs: string -> Option<u64>): (r: Option<u64>)
    ensures EndsWith(token, 'h') || EndsWith(token, 'm') ==> (r.Some? <==> ParseU64(DropLast(token)).Some?)
    ensures EndsWith(token, 'h') && r.Some? ==> r.value == Clamp(ParseU64(DropLast(token)).value * SECS_PER_HOUR)
    ensures EndsWith(token, 'm') && r.Some? ==> r.value == Clamp(ParseU64(DropLast(token)).value * SECS_PER_MINUTE)
    ensures !EndsWith(token, 'h') && !EndsWith(token, 'm') ==>
              r == secs(if EndsWith(token, 's') then DropLast(token) else token)
  {
    if EndsWith(token, 'h') then Scaled(DropLast(token), SECS_PER_HOUR)
    else if EndsWith(token, 'm') then Scaled(DropLast(token), SECS_PER_MINUTE)
    else if EndsWith(token, 's') then secs(DropLast(token))
    else secs(token)
  }

  /** What the loop does with one token. The loop also trims each token,
      which changes nothing on the words `split_whitespace` yields (see
      `WordsTrimmed`), so the trim is left out here. */
  function TokenStep(secs: string -> Option<u64>): string -> Option<u64> {
    (token: string) => TokenSeconds(token, secs)
  }

  /** The words of a text are their own trim. */
  lemma WordsTrimmed(t: string)
    ensures forall i :: 0 <= i < |Words(t)| ==> Trim(Words(t)[i]) == Words(t)[i]
  {
    var ws := Words(t);
    forall i | 0 <= i < |ws|
      ensures Trim(ws[i]) == ws[i]
    {
      assert !IsWhitespace(ws[i][0]) && !IsWhitespace(ws[i][|ws[i]| - 1]);
      TrimOfTrimmed(ws[i]);
    }
  }

  /** The loop over the tokens, from a running total: the reading fails
      exactly when some token does not read, and the total never shrinks. */
  function SumTokens(total: u64, tokens: seq<string>, step: string -> Option<u64>): (r: Option<u64>)
    ensures r.None? <==> exists i :: 0 <= i < |tokens| && step(tokens[i]).None?
    ensures r.Some? ==> total <= r.value
    decreases |tokens|
  {
    if |tokens| == 0 then Some(total)
    else
      match step(tokens[0])
      case None => None
      case Some(v) =>
        assert forall i :: 1 <= i < |tokens| ==> tokens[i] == tokens[1..][i - 1];
        SumTokens(SatAdd(total, v), tokens[1..], step)
  }

  /** The text takes the spaced form when it holds a space, an `h` or an `m`. */
  predicate IsSpaced(t: string) {
    exists i :: 0 <= i < |t| && IsSpacedMark(t[i])
  }

  /** The characters that select the spaced form: `' '`, `'h'` and `'m'`. */
  predicate IsSpacedMark(c: char) {
    c == ' ' || c == 'h' || c == 'm'
  }

  /** `parse_cpu_time_to_seconds`: the trimmed text is summed token by token
      in the spaced form; otherwise it is one floating-point number of
      seconds with an optional trailing `s`. */
  function ParseCpuTimeToSeconds(s: string, secs: string -> Option<u64>): (r: Option<u64>)
    ensures IsBlank(s) ==> r.None?
  {
    TrimEmptyIffBlank(s);
    var t := Trim(s);
    if t == [] then None
    else if IsSpaced(t) then SumTokens(0, Words(t), TokenStep(secs))
    else secs(if EndsWith(t, 's') then DropLast(t) else t)
  }

  /** The exact sum of the token values, before any saturation; none when a
      token does not read. */
  function ExactSum(tokens: seq<string>, step: string -> Option<u64>): Option<nat>
    decreases |tokens|
  {
    if |tokens| == 0 then Some(0)
    else
      match step(tokens[0])
      case None => None
      case Some(v) =>
        match ExactSum(tokens[1..], step)
        case None => None
        case Some(n) => Some(v + n)
  }

  /** The exact sum is missing exactly when some token does not read. */
  lemma {:induction false} ExactSumFails(tokens: seq<string>, step: string -> Option<u64>)
    ensures ExactSum(tokens, step).None? <==> exists i :: 0 <= i < |tokens| && step(tokens[i]).None?
    decreases |tokens|
  {
    if |tokens| > 0 {
      ExactSumFails(tokens[1..], step);
      assert forall i :: 1 <= i < |tokens| ==> tokens[1..][i - 1] == tokens[i];
    }
  }

  /** Reading two runs of tokens one after the other: the exact sum of the
      whole is the sum of the parts, and missing when either part is. */
  lemma {:induction false} ExactSumAppend(xs: seq<string>, ys: seq<string>, step: string -> Option<u64>)
    ensures ExactSum(xs + ys, step).None? <==> ExactSum(xs, step).None? || ExactSum(ys, step).None?
    ensures ExactSum(xs, step).Some? && ExactSum(ys, step).Some? ==>
              ExactSum(xs + ys, step) == Some(ExactSum(xs, step).value + ExactSum(ys, step).value)
    decreases |xs|
  {
    if |xs| == 0 {
      assert xs + ys == ys;
    } else {
      assert (xs + ys)[0] == xs[0] && (xs + ys)[1..] == xs[1..] + ys;
      ExactSumAppend(xs[1..], ys, step);
    }
  }

  /** Saturating at every step gives the exact total capped once at the end,
      and any unreadable token makes the whole reading fail. */
  lemma {:induction false} SumTokensExact(total: u64, tokens: seq<string>, step: string -> Option<u64>)
    ensures ExactSum(tokens, step).None? ==> SumTokens(total, tokens, step).None?
    ensures ExactSum(tokens, step).Some? ==> SumTokens(total, tokens, step) == Some(Clamp(total + ExactSum(tokens, step).value))
    decreases |tokens|
  {
    if |tokens| > 0 {
      match step(tokens[0])
      case None =>
      case Some(v) =>
        SumTokensExact(SatAdd(total, v), tokens[1..], step);
        var rest := ExactSum(tokens[1..], step);
        if rest.Some? {
          ClampSatAdd(total, v, rest.value);
        }
    }
  }

  /** Capping early and capping at the end agree. */
  lemma ClampSatAdd(a: u64, b: u64, n: nat)
    ensures Clamp(SatAdd(a, b) + n) == Clamp(a + b + n)
  {
  }

  /** The spaced form reads as the capped exact sum of its tokens, and as
      nothing when one of them does not read. */
  lemma SpacedReading(s: string, secs: string -> Option<u64>)
    requires IsSpaced(Trim(s))
    ensures var e := ExactSum(Words(Trim(s)), TokenStep(secs));
            && (e.None? ==> ParseCpuTimeToSeconds(s, secs).None?)
            && (e.Some? ==> ParseCpuTimeToSeconds(s, secs) == Some(Clamp(e.value)))
  {
    SpacedSum(s, secs);
    SumTokensFromZero(Words(Trim(s)), TokenStep(secs));
  }

  lemma SumTokensFromZero(ws: seq<string>, step: string -> Option<u64>)
    ensures var e := ExactSum(ws, step);
            && (e.None? ==> SumTokens(0, ws, step).None?)
            && (e.Some? ==> SumTokens(0, ws, step) == Some(Clamp(e.value)))
  {
    SumTokensExact(0, ws, step);
  }

  lemma SpacedSum(s: string, secs: string -> Option<u64>)
    requires IsSpaced(Trim(s))
    ensures ParseCpuTimeToSeconds(s, secs) == SumTokens(0, Words(Trim(s)), TokenStep(secs))
  {
  }

  /** `SpacedReading` for a text whose words are known. */
  lemma SpacedWords(s: string, ws: seq<string>, secs: string -> Option<u64>, total: nat)
    requires IsSpaced(Trim(s)) && Words(Trim(s)) == ws
    requires ExactSum(ws, TokenStep(secs)) == Some(total)
    ensures ParseCpuTimeToSeconds(s, secs) == Some(Clamp(total))
  {
    SpacedReading(s, secs);
  }

  /** The usual `613h 33m 33s` reading: a text whose words are hours,
      minutes and seconds reads as hours and minutes exactly plus whole
      seconds through the floating-point parse, capped at `u64::MAX`. */
  lemma HoursMinutesSeconds(s: string, h: nat, m: nat, sec: nat, secs: string -> Option<u64>)
    requires h <= U64_MAX && m <= U64_MAX && sec < F64_EXACT
    requires ReadsWholeSeconds(secs)
    requires Words(Trim(s)) == [NatToString(h) + ['h'], NatToString(m) + ['m'], NatToString(sec) + ['s']]
    ensures ParseCpuTimeToSeconds(s, secs) == Some(Clamp(h * SECS_PER_HOUR + m * SECS_PER_MINUTE + sec))
  {
    assert secs(NatToString(sec)) == Some(sec);
    HmsReading(s, h, m, sec, secs);
  }

  lemma HmsReading(s: string, h: nat, m: nat, sec: nat, secs: string -> Option<u64>)
    requires h <= U64_MAX && m <= U64_MAX && sec <= U64_MAX
    requires secs(NatToString(sec)) == Some(sec)
    requires Words(Trim(s)) == [NatToString(h) + ['h'], NatToString(m) + ['m'], NatToString(sec) + ['s']]
    ensures ParseCpuTimeToSeconds(s, secs) == Some(Clamp(h * SECS_PER_HOUR + m * SECS_PER_MINUTE + sec))
  {
    var ws := [NatToString(h) + ['h'], NatToString(m) + ['m'], NatToString(sec) + ['s']];
    HmsSum(h, m, sec, secs);
    HmsWordsRead(s, h, m, sec, secs, ExactSum(ws, TokenStep(secs)).value, Clamp(h * SECS_PER_HOUR + m * SECS_PER_MINUTE + sec));
  }

  /** The three tokens of the usual form, read one by one and summed: their
      exact sum, capped, is the capped number of seconds they name. */
  lemma HmsSum(h: nat, m: nat, sec: nat, secs: string -> Option<u64>)
    requires h <= U64_MAX && m <= U64_MAX && sec <= U64_MAX
    requires secs(NatToString(sec)) == Some(sec)
    ensures var e := ExactSum([NatToString(h) + ['h'], NatToString(m) + ['m'], NatToString(sec) + ['s']], TokenStep(secs));
            e.Some? && Clamp(e.value) == Clamp(h * SECS_PER_HOUR + m * SECS_PER_MINUTE + sec)
  {
    HmsExact(h, m, sec, secs);
    CappedSum(ExactSum([NatToString(h) + ['h'], NatToString(m) + ['m'], NatToString(sec) + ['s']], TokenStep(secs)), h, m, sec);
  }

  lemma HmsExact(h: nat, m: nat, sec: nat, secs: string -> Option<u64>)
    requires h <= U64_MAX && m <= U64_MAX && sec <= U64_MAX
    requires secs(NatToString(sec)) == Some(sec)
    ensures ExactSum([NatToString(h) + ['h'], NatToString(m) + ['m'], NatToString(sec) + ['s']], TokenStep(secs))
         == Some(Clamp(h * SECS_PER_HOUR) + Clamp(m * SECS_PER_MINUTE) + sec)
  {
    var th, tm, ts := NatToString(h) + ['h'], NatToString(m) + ['m'], NatToString(sec) + ['s'];
    var x, y := Clamp(h * SECS_PER_HOUR), Clamp(m * SECS_PER_MINUTE);
    assert TokenStep(secs)(th) == Some(x) by {
      FigureToken(h, 'h', secs);
    }
    assert TokenStep(secs)(tm) == Some(y) by {
      FigureToken(m, 'm', secs);
    }
    assert TokenStep(secs)(ts) == Some(sec) by {
      FigureToken(sec, 's', secs);
    }
    ExactSumThree(th, tm, ts, TokenStep(secs), x, y, sec);
  }

  lemma CappedSum(e: Option<nat>, h: nat, m: nat, sec: nat)
    requires e == Some(Clamp(h * SECS_PER_HOUR) + Clamp(m * SECS_PER_MINUTE) + sec)
    ensures e.Some? && Clamp(e.value) == Clamp(h * SECS_PER_HOUR + m * SECS_PER_MINUTE + sec)
  {
    ClampSum(h * SECS_PER_HOUR, m * SECS_PER_MINUTE, sec);
  }

  lemma HmsWordsRead(s: string, h: nat, m: nat, sec: nat, secs: string -> Option<u64>, total: nat, want: u64)
    requires Words(Trim(s)) == [NatToString(h) + ['h'], NatToString(m) + ['m'], NatToString(sec) + ['s']]
    requires ExactSum([NatToString(h) + ['h'], NatToString(m) + ['m'], NatToString(sec) + ['s']], TokenStep(secs)) == Some(total)
    requires Clamp(total) == want
    ensures ParseCpuTimeToSeconds(s, secs) == Some(want)
  {
    UnitSuffix(h, 'h');
    MarkedWordsRead(s, [NatToString(h) + ['h'], NatToString(m) + ['m'], NatToString(sec) + ['s']], total, want, secs);
  }

  /** A text whose first word ends in `h` or `m` takes the spaced form, and
      reads as the capped exact sum of its words. */
  lemma MarkedWordsRead(s: string, ws: seq<string>, total: nat, want: u64, secs: string -> Option<u64>)
    requires |ws| > 0 && (EndsWith(ws[0], 'h') || EndsWith(ws[0], 'm')) && Words(Trim(s)) == ws
    requires ExactSum(ws, TokenStep(secs)) == Some(total) && Clamp(total) == want
    ensures ParseCpuTimeToSeconds(s, secs) == Some(want)
  {
    var w := Words(Trim(s))[0];
    var c := w[|w| - 1];
    assert IsSpaced(Trim(s)) by {
      assert c in w;
      MarkMakesSpaced(Trim(s), c);
    }
    SpacedWords(s, ws, secs, total);
  }

  lemma MarkMakesSpaced(t: string, c: char)
    requires c in t && IsSpacedMark(c)
    ensures IsSpaced(t)
  {
  }

  /** `613h 33m 33s` itself: the figures with their units, joined by single
      spaces, have those words. */
  lemma HmsText(h: nat, m: nat, sec: nat)
    ensures var s := Join([NatToString(h) + ['h'], NatToString(m) + ['m'], NatToString(sec) + ['s']], ' ');
            Words(Trim(s)) == [NatToString(h) + ['h'], NatToString(m) + ['m'], NatToString(sec) + ['s']]
  {
    UnitWord(h, 'h');
    UnitWord(m, 'm');
    UnitWord(sec, 's');
    ThreeWords(NatToString(h) + ['h'], NatToString(m) + ['m'], NatToString(sec) + ['s']);
  }

  lemma ClampSum(x: nat, y: nat, z: nat)
    ensures Clamp(Clamp(x) + Clamp(y) + z) == Clamp(x + y + z)
  {
  }

  /** How the loop reads a decimal figure followed by a unit letter. */
  lemma FigureToken(n: nat, unit: char, secs: string -> Option<u64>)
    requires n <= U64_MAX
    ensures unit == 'h' ==> TokenStep(secs)(NatToString(n) + [unit]) == Some(Clamp(n * SECS_PER_HOUR))
    ensures unit == 'm' ==> TokenStep(secs)(NatToString(n) + [unit]) == Some(Clamp(n * SECS_PER_MINUTE))
    ensures unit == 's' ==> TokenStep(secs)(NatToString(n) + [unit]) == secs(NatToString(n))
  {
    UnitSuffix(n, unit);
    if unit == 'h' {
      ScaledFigure(n, SECS_PER_HOUR);
    } else if unit == 'm' {
      ScaledFigure(n, SECS_PER_MINUTE);
    }
  }

  /** Three words joined by single spaces: the spaced form, already trimmed,
      whose words are the three. */
  lemma ThreeWords(a: string, b: string, c: string)
    requires a != [] && b != [] && c != []
    requires !HasWhitespace(a) && !HasWhitespace(b) && !HasWhitespace(c)
    ensures var s := Join([a, b, c], ' ');
            Trim(s) == s && Words(s) == [a, b, c] && IsSpaced(s)
  {
    var s := Join([a, b, c], ' ');
    assert [a, b, c][1..] == [b, c] && [b, c][1..] == [c];
    assert Join([b, c], ' ') == b + [' '] + c;
    assert s == a + [' '] + (b + [' '] + c);
    WordsJoin([a, b, c]);
    assert !IsWhitespace(s[0]) by {
      assert s[0] == a[0];
    }
    assert !IsWhitespace(s[|s| - 1]) by {
      assert s[|s| - 1] == c[|c| - 1];
    }
    TrimOfTrimmed(s);
    assert s[|a|] == ' ';
  }

  lemma ExactSumThree(a: string, b: string, c: string, step: string -> Option<u64>, x: u64, y: u64, z: u64)
    requires step(a) == Some(x) && step(b) == Some(y) && step(c) == Some(z)
    ensures ExactSum([a, b, c], step) == Some(x + y + z)
  {
    assert [a, b, c][1..] == [b, c] && [b, c][1..] == [c] && [c][1..] == [];
    assert ExactSum([c], step) == Some(z);
    assert ExactSum([b, c], step) == Some(y + z);
  }

  /** A decimal figure that fits in 64 bits, scaled with saturation. */
  lemma ScaledFigure(n: nat, unit: nat)
    requires n <= U64_MAX && unit <= U64_MAX
    ensures Scaled(NatToString(n), unit) == Some(Clamp(n * unit))
  {
    ParseU64Digits(NatToString(n));
  }

  /** A decimal figure followed by a unit letter is one word. */
  lemma UnitWord(n: nat, unit: char)
    requires !IsWhitespace(unit) && !IsDigit(unit)
    ensures NatToString(n) + [unit] != [] && !HasWhitespace(NatToString(n) + [unit])
  {
    var d := NatToString(n);
    var t := d + [unit];
    assert forall i :: 0 <= i < |d| ==> t[i] == d[i] && IsDigit(d[i]);
  }

  /** A decimal figure followed by a unit letter ends in that letter, with
      the figure before it. */
  lemma UnitSuffix(n: nat, unit: char)
    ensures EndsWith(NatToString(n) + [unit], unit) && DropLast(NatToString(n) + [unit]) == NatToString(n)
  {
    var t := NatToString(n) + [unit];
    assert t[..|t| - 1] == NatToString(n);
  }

  /** The single-token form: a whole number of seconds, with or without the
      trailing `s`, reads as that number. */
  lemma WholeSeconds(sec: nat, suffix: bool, secs: string -> Option<u64>)
    requires sec < F64_EXACT && ReadsWholeSeconds(secs)
    ensures ParseCpuTimeToSeconds(NatToString(sec) + (if suffix then ['s'] else []), secs) == Some(sec)
  {
    assert secs(NatToString(sec)) == Some(sec);
    DigitsToken(NatToString(sec), suffix, secs);
  }

  /** A digit string, with or without a trailing `s`, is the single-token
      form, and it is the digits that the floating-point parse sees. */
  lemma DigitsToken(d: string, suffix: bool, secs: string -> Option<u64>)
    requires d != [] && AllDigits(d)
    ensures ParseCpuTimeToSeconds(d + (if suffix then ['s'] else []), secs) == secs(d)
  {
    var t := d + (if suffix then ['s'] else []);
    assert !IsSpaced(d) by {
      DigitsLack(d, ' ');
      DigitsLack(d, 'h');
      DigitsLack(d, 'm');
    }
    if suffix {
      assert t[..|t| - 1] == d;
      assert t[0] == d[0] && t[|t| - 1] == 's';
      assert !IsSpaced(t) by {
        assert forall i :: 0 <= i < |d| ==> t[i] == d[i];
      }
      TrimOfTrimmed(t);
      UnspacedReading(t, secs);
    } else {
      assert t == d;
      assert !EndsWith(d, 's');
      TrimOfTrimmed(d);
      UnspacedReading(d, secs);
    }
  }

  /** A trimmed text of the single-token form is read by the floating-point
      parse, after dropping a trailing `s`. */
  lemma UnspacedReading(t: string, secs: string -> Option<u64>)
    requires t != [] && Trim(t) == t && !IsSpaced(t)
    ensures ParseCpuTimeToSeconds(t, secs) == secs(if EndsWith(t, 's') then DropLast(t) else t)
  {
  }

  /** Digits hold no other character. */
  lemma DigitsLack(d: string, c: char)
    requires AllDigits(d) && !IsDigit(c)
    ensures c !in d
  {
  }

  /** One token that does not read makes the spaced form fail as a whole. */
  lemma BadTokenFails(s: string, secs: string -> Option<u64>)
    requires IsSpaced(Trim(s))
    requires exists i :: 0 <= i < |Words(Trim(s))| && TokenSeconds(Words(Trim(s))[i], secs).None?
    ensures ParseCpuTimeToSeconds(s, secs).None?
  {
    ExactSumFails(Words(Trim(s)), TokenStep(secs));
    SpacedReading(s, secs);
  }

  /** A unit letter with no figure before it, such as a lone `h`, does not
      read. */
  lemma BareUnitUnreadable(unit: char, secs: string -> Option<u64>)
    requires unit == 'h' || unit == 'm'
    ensures TokenSeconds([unit], secs).None?
  {
    assert DropLast([unit]) == [];
  }
}
