/** Model of the two formatters of `utils.rs`: a memory size in binary units,
    and a number of seconds as days, hours, minutes and seconds. */
module Display {
  import opened Wrappers
  import opened Text
  import opened CpuTime

  /** The unit names, smallest first; the index of a unit is the power of
      1024 it stands for. */
  const UNITS: seq<string> := ["B", "KiB", "MiB", "GiB", "TiB"]

  /** The index of the largest unit, `UNITS.len() - 1`. */
  const LAST_UNIT: nat := 4

  const UNKNOWN: string := "(unknown)"

  /** The size of unit `u` in bytes: 1024 to the power `u`. */
  function UnitSize(u: nat): (r: nat)
    ensures r >= 1
  {
    if u == 0 then 1 else 1024 * UnitSize(u - 1)
  }

  /** `figure` whole units of index `unit` are `b` bytes, rounded down, and
      the unit is the largest one in which the figure is still at least 1,
      TiB being the largest there is. */
  predicate IsScaling(b: nat, figure: nat, unit: nat) {
    && unit <= LAST_UNIT
    && figure * UnitSize(unit) <= b < (figure + 1) * UnitSize(unit)
    && (unit == 0 || figure >= 1)
    && (unit == LAST_UNIT || figure < 1024)
  }

  /** The `while` loop: while the figure is at least 1024 and a larger unit
      exists, divide by 1024 and move one unit up. It stops in a unit no
      smaller and no larger than there are, with a figure no larger, below
      1024 unless the largest unit is reached, and changed exactly when the
      unit is. */
  function Shrink(figure: nat, unit: nat): (r: (nat, nat))
    requires unit <= LAST_UNIT
    ensures unit <= r.1 <= LAST_UNIT && r.0 <= figure
    ensures r.0 < 1024 || r.1 == LAST_UNIT
    ensures r.1 == unit <==> r.0 == figure
    decreases figure
  {
    if figure >= 1024 && unit < LAST_UNIT then Shrink(figure / 1024, unit + 1) else (figure, unit)
  }

  lemma MulLe(a: nat, b: nat, c: nat)
    requires a <= b
    ensures a * c <= b * c
  {
  }

  /** From any state that still stands for `b` bytes, the loop ends in the
      scaling of `b`. */
  lemma {:induction false} ShrinkScales(b: nat, figure: nat, unit: nat)
    requires unit <= LAST_UNIT
    requires figure * UnitSize(unit) <= b < (figure + 1) * UnitSize(unit)
    requires unit == 0 || figure >= 1
    ensures IsScaling(b, Shrink(figure, unit).0, Shrink(figure, unit).1)
    decreases figure
  {
    if figure >= 1024 && unit < LAST_UNIT {
      assert UnitSize(unit + 1) == 1024 * UnitSize(unit);
      DivideKeepsBounds(b, figure, UnitSize(unit));
      ShrinkScales(b, figure / 1024, unit + 1);
    }
  }

  /** One turn of the loop: the figure divided by 1024, in a unit 1024 times
      as large, still stands for the same bytes. */
  lemma DivideKeepsBounds(b: nat, figure: nat, p: nat)
    requires figure * p <= b < (figure + 1) * p
    ensures (figure / 1024) * (1024 * p) <= b < (figure / 1024 + 1) * (1024 * p)
  {
    var q := figure / 1024;
    MulLe(q * 1024, figure, p);
    assert q * (1024 * p) == (q * 1024) * p;
    MulLe(figure + 1, (q + 1) * 1024, p);
    assert (q + 1) * (1024 * p) == ((q + 1) * 1024) * p;
  }

  /** The figure and unit a number of bytes is shown in. */
  function ScaleOf(b: nat): (r: (nat, nat))
    ensures IsScaling(b, r.0, r.1)
  {
    ShrinkScales(b, b, 0);
    Shrink(b, 0)
  }

  /** Units grow with their index. */
  lemma {:induction false} UnitSizeGrows(u: nat, v: nat)
    requires u <= v
    ensures UnitSize(u) <= UnitSize(v)
    decreases v - u
  {
    if u < v {
      UnitSizeGrows(u, v - 1);
    }
  }

  /** The scaling of a number of bytes is unique: the figure and unit the
      loop stops at are the only ones that fit. */
  lemma ScalingUnique(b: nat, f1: nat, u1: nat, f2: nat, u2: nat)
    requires IsScaling(b, f1, u1) && IsScaling(b, f2, u2)
    ensures f1 == f2 && u1 == u2
  {
    UnitBounds(b, f1, u1);
    UnitBounds(b, f2, u2);
    if u1 < u2 {
      UnitSizeGrows(u1 + 1, u2);
    } else if u2 < u1 {
      UnitSizeGrows(u2 + 1, u1);
    }
    FloorUnique(b, f1, f2, UnitSize(u1));
  }

  /** The unit of a scaling is at most the bytes, and the next unit up, if
      there is one, is more than the bytes. */
  lemma UnitBounds(b: nat, f: nat, u: nat)
    requires IsScaling(b, f, u)
    ensures u == 0 || UnitSize(u) <= b
    ensures u == LAST_UNIT || b < UnitSize(u + 1)
  {
    if u > 0 {
      MulLe(1, f, UnitSize(u));
    }
    if u < LAST_UNIT {
      MulLe(f + 1, 1024, UnitSize(u));
    }
  }

  /** There is one whole number of `p`-sized units in `b`, rounded down. */
  lemma FloorUnique(b: nat, f1: nat, f2: nat, p: nat)
    requires f1 * p <= b < (f1 + 1) * p && f2 * p <= b < (f2 + 1) * p
    ensures f1 == f2
  {
    if f1 < f2 {
      MulLe(f1 + 1, f2, p);
    } else if f2 < f1 {
      MulLe(f2 + 1, f1, p);
    }
  }

  /** How a figure in unit `unit` is printed: below MiB the whole figure,
      from MiB up `decimal(k, unit)`, which stands for the one-decimal
      rendering of `k * 1024 / 1024^unit` computed in floating point. */
  function Shown(k: u64, figure: nat, unit: nat, decimal: (u64, nat) -> string): string
    requires unit <= LAST_UNIT
  {
    if unit >= 2 then decimal(k, unit) + " " + UNITS[unit] else NatToString(figure) + " " + UNITS[unit]
  }

  /** `format_memory_kib`: nothing known prints `(unknown)`; otherwise the
      kibibytes, turned into bytes with a saturating multiplication, are
      shown in the unit of their scaling. */
  function FormatMemoryKib(kib: Option<u64>, decimal: (u64, nat) -> string): (r: string)
    ensures kib.None? ==> r == UNKNOWN
    ensures kib.Some? ==>
              exists figure, unit :: IsScaling(SatMul(kib.value, 1024), figure, unit)
                                     && r == Shown(kib.value, figure, unit, decimal)
  {
    match kib
    case None => UNKNOWN
    case Some(k) =>
      var (figure, unit) := ScaleOf(SatMul(k, 1024));
      Shown(k, figure, unit, decimal)
  }

  /** No memory prints as `0 B`. */
  lemma ZeroKib(decimal: (u64, nat) -> string)
    ensures FormatMemoryKib(Some(0), decimal) == "0 B"
  {
    assert IsScaling(0, 0, 0);
    ScalingFixes(0, 0, 0, decimal);
    assert NatToString(0) == "0";
  }

  /** Less than a mebibyte prints as the whole number of kibibytes. */
  lemma SmallKib(k: u64, decimal: (u64, nat) -> string)
    requires 1 <= k < 1024
    ensures FormatMemoryKib(Some(k), decimal) == NatToString(k) + " KiB"
  {
    assert IsScaling(k * 1024, k, 1);
    ScalingFixes(k, k, 1, decimal);
  }

  /** From a mebibyte up the figure is printed by the decimal rendering, in
      the unit the scaling picks. */
  lemma LargeKib(k: u64, figure: nat, unit: nat, decimal: (u64, nat) -> string)
    requires IsScaling(SatMul(k, 1024), figure, unit)
    requires k >= 1024
    ensures unit >= 2 && FormatMemoryKib(Some(k), decimal) == decimal(k, unit) + " " + UNITS[unit]
  {
    UnitBounds(SatMul(k, 1024), figure, unit);
    MulLe(1024, k, 1024);
    ScalingFixes(k, figure, unit, decimal);
  }

  /** Whatever scaling fits the bytes decides the output. */
  lemma ScalingFixes(k: u64, figure: nat, unit: nat, decimal: (u64, nat) -> string)
    requires IsScaling(SatMul(k, 1024), figure, unit)
    ensures FormatMemoryKib(Some(k), decimal) == Shown(k, figure, unit, decimal)
  {
    var s := ScaleOf(SatMul(k, 1024));
    ScalingUnique(SatMul(k, 1024), s.0, s.1, figure, unit);
  }

  const SECS_PER_DAY: nat := 86400

  /** A duration split into whole days, hours, minutes and seconds. */
  datatype Dhms = Dhms(days: nat, hours: nat, mins: nat, seconds: nat)

  /** `t` is the mixed-radix form of `n` seconds: it adds up to `n`, and each
      unit below days stays under the next one. */
  predicate IsDhmsOf(t: Dhms, n: nat) {
    && t.days * 86400 + t.hours * 3600 + t.mins * 60 + t.seconds == n
    && t.hours < 24 && t.mins < 60 && t.seconds < 60
  }

  /** The divisions and remainders of `format_seconds_dhms`. */
  function Decompose(n: nat): (t: Dhms)
    ensures IsDhmsOf(t, n)
  {
    var rest := n % 86400;
    Dhms(n / 86400, rest / 3600, rest % 3600 / 60, rest % 3600 % 60)
  }

  /** A duration has one mixed-radix form. */
  lemma DhmsUnique(t: Dhms, u: Dhms, n: nat)
    requires IsDhmsOf(t, n) && IsDhmsOf(u, n)
    ensures t == u
  {
    FloorUnique(n, t.days, u.days, 86400);
    var r := n - t.days * 86400;
    FloorUnique(r, t.hours, u.hours, 3600);
    FloorUnique(r - t.hours * 3600, t.mins, u.mins, 60);
  }

  /** The text for one unit, such as `3h`, or nothing when the count is zero. */
  function Part(v: nat, unit: char): (r: seq<string>)
    ensures |r| <= 1 && (|r| == 1 <==> v > 0)
  {
    if v > 0 then [NatToString(v) + [unit]] else []
  }

  /** The nonzero units, days first. */
  function Parts(t: Dhms): seq<string> {
    Part(t.days, 'd') + Part(t.hours, 'h') + Part(t.mins, 'm') + Part(t.seconds, 's')
  }

  /** `format_seconds_dhms`: `0s` for no time at all, otherwise the nonzero
      units, days first, joined by single spaces. */
  function FormatSecondsDhms(n: u64): (r: string)
    ensures n == 0 ==> r == "0s"
    ensures n > 0 ==> Parts(Decompose(n)) != []
  {
    if n == 0 then "0s" else Join(Parts(Decompose(n)), ' ')
  }

  lemma PartWord(v: nat, unit: char)
    requires !IsWhitespace(unit) && !IsDigit(unit)
    ensures AreWords(Part(v, unit))
  {
    if v > 0 {
      UnitWord(v, unit);
    }
  }

  lemma AreWordsAppend(a: seq<string>, b: seq<string>)
    requires AreWords(a) && AreWords(b)
    ensures AreWords(a + b)
  {
    assert forall i :: |a| <= i < |a + b| ==> (a + b)[i] == b[i - |a|];
  }

  lemma PartsAreWords(t: Dhms)
    ensures AreWords(Parts(t))
  {
    PartWord(t.days, 'd');
    PartWord(t.hours, 'h');
    PartWord(t.mins, 'm');
    PartWord(t.seconds, 's');
    AreWordsAppend(Part(t.days, 'd'), Part(t.hours, 'h'));
    AreWordsAppend(Part(t.days, 'd') + Part(t.hours, 'h'), Part(t.mins, 'm'));
    AreWordsAppend(Part(t.days, 'd') + Part(t.hours, 'h') + Part(t.mins, 'm'), Part(t.seconds, 's'));
  }

  /** A nonzero duration prints as its nonzero units, days first, each a
      decimal count and a unit letter, separated by single spaces with no
      space around them: splitting the text at white space gives back exactly
      those units. */
  lemma DhmsWords(n: u64)
    requires n > 0
    ensures var r := FormatSecondsDhms(n);
            Trim(r) == r && Words(r) == Parts(Decompose(n)) && SingleSpaced(r)
  {
    var t := Decompose(n);
    assert Parts(t) != [] && FormatSecondsDhms(n) == Join(Parts(t), ' ') by {
      FormatText(n);
    }
    JoinedParts(t);
    PartsAreWords(t);
    JoinSingleSpaced(Parts(t));
  }

  /** A nonzero duration shows a unit exactly when its count is nonzero: no
      `0h` or `0m` ever appears, and every nonzero count does. */
  lemma DhmsOmitsZeros(n: u64)
    requires n > 0
    ensures var t, ws := Decompose(n), Words(FormatSecondsDhms(n));
            && (NatToString(t.days) + ['d'] in ws <==> t.days > 0)
            && (NatToString(t.hours) + ['h'] in ws <==> t.hours > 0)
            && (NatToString(t.mins) + ['m'] in ws <==> t.mins > 0)
            && (NatToString(t.seconds) + ['s'] in ws <==> t.seconds > 0)
  {
    var t := Decompose(n);
    DhmsWords(n);
    ShownIffNonzero(t, t.days, 'd');
    ShownIffNonzero(t, t.hours, 'h');
    ShownIffNonzero(t, t.mins, 'm');
    ShownIffNonzero(t, t.seconds, 's');
  }

  /** The word for a count of one unit is among the parts exactly when the
      count is nonzero. */
  lemma ShownIffNonzero(t: Dhms, v: nat, unit: char)
    requires || (unit == 'd' && v == t.days) || (unit == 'h' && v == t.hours)
             || (unit == 'm' && v == t.mins) || (unit == 's' && v == t.seconds)
    ensures NatToString(v) + [unit] in Parts(t) <==> v > 0
  {
    var w := NatToString(v) + [unit];
    assert w[|w| - 1] == unit;
    if unit != 'd' { OtherUnit(w, t.days, 'd'); }
    if unit != 'h' { OtherUnit(w, t.hours, 'h'); }
    if unit != 'm' { OtherUnit(w, t.mins, 'm'); }
    if unit != 's' { OtherUnit(w, t.seconds, 's'); }
  }

  /** A word ending in another letter is not the part of a unit. */
  lemma OtherUnit(w: string, v: nat, unit: char)
    requires w != [] && w[|w| - 1] != unit
    ensures w !in Part(v, unit)
  {
    if v > 0 {
      var p := NatToString(v) + [unit];
      assert p[|p| - 1] == unit;
    }
  }

  /** The units of any nonzero split duration, joined by spaces, split back
      into the same units. */
  lemma JoinedParts(t: Dhms)
    requires Parts(t) != []
    ensures var r := Join(Parts(t), ' ');
            Trim(r) == r && Words(r) == Parts(t)
  {
    var ws := Parts(t);
    PartsAreWords(t);
    WordsJoin(ws);
    JoinEnds(ws, ' ');
    var j := Join(ws, ' ');
    assert !IsWhitespace(j[0]) && !IsWhitespace(j[|j| - 1]) by {
      assert j[0] in ws[0];
      assert j[|j| - 1] in ws[|ws| - 1];
    }
    TrimOfTrimmed(j);
  }

  /** Below one day the text reads back through `parse_cpu_time_to_seconds`
      as the same number of seconds: the units it prints are the ones that
      parser knows, and the seconds figure is whole. (A day count has the
      unit `d`, which that parser does not read.) */
  lemma DhmsReadBack(n: u64, secs: string -> Option<u64>)
    requires n < SECS_PER_DAY && ReadsWholeSeconds(secs)
    ensures ParseCpuTimeToSeconds(FormatSecondsDhms(n), secs) == Some(n)
  {
    assert secs(NatToString(0)) == Some(0);
    assert secs(NatToString(Decompose(n).seconds)) == Some(Decompose(n).seconds);
    DhmsReadBackAt(n, secs);
  }

  lemma DhmsReadBackAt(n: u64, secs: string -> Option<u64>)
    requires n < SECS_PER_DAY
    requires secs(NatToString(0)) == Some(0)
    requires secs(NatToString(Decompose(n).seconds)) == Some(Decompose(n).seconds)
    ensures ParseCpuTimeToSeconds(FormatSecondsDhms(n), secs) == Some(n)
  {
    if n == 0 {
      ZeroReadBack(secs);
    } else {
      PositiveReadBack(n, secs);
    }
  }

  lemma PositiveReadBack(n: u64, secs: string -> Option<u64>)
    requires 0 < n < SECS_PER_DAY
    requires secs(NatToString(Decompose(n).seconds)) == Some(Decompose(n).seconds)
    ensures ParseCpuTimeToSeconds(FormatSecondsDhms(n), secs) == Some(n)
  {
    var t := Decompose(n);
    DaylessSum(t, n);
    PartsReadBack(t, secs);
    FormatText(n);
  }

  /** Below one day there are no days, and the other units add up to the
      duration. */
  lemma DaylessSum(t: Dhms, n: nat)
    requires IsDhmsOf(t, n) && n < SECS_PER_DAY
    ensures t.days == 0 && t.hours * 3600 + t.mins * 60 + t.seconds == n
  {
  }

  lemma FormatText(n: u64)
    requires n > 0
    ensures FormatSecondsDhms(n) == Join(Parts(Decompose(n)), ' ')
  {
  }

  /** `0s` reads as no time, as long as the floating-point parse reads `0`
      as zero. */
  lemma ZeroReadBack(secs: string -> Option<u64>)
    requires secs(NatToString(0)) == Some(0)
    ensures ParseCpuTimeToSeconds("0s", secs) == Some(0)
  {
    assert NatToString(0) == "0";
    assert "0" + ['s'] == "0s";
    DigitsToken("0", true, secs);
  }

  /** The text of a nonzero split duration without days reads back as the
      seconds it stands for. */
  lemma PartsReadBack(t: Dhms, secs: string -> Option<u64>)
    requires t.days == 0 && t.hours < 24 && t.mins < 60 && t.seconds < 60
    requires t.hours > 0 || t.mins > 0 || t.seconds > 0
    requires secs(NatToString(t.seconds)) == Some(t.seconds)
    ensures ParseCpuTimeToSeconds(Join(Parts(t), ' '), secs) == Some(t.hours * 3600 + t.mins * 60 + t.seconds)
  {
    if t.hours == 0 && t.mins == 0 {
      SecondsOnly(t, secs);
    } else {
      MarkedPartsReadBack(t, secs);
    }
  }

  /** With hours or minutes present, the first unit marks the text as the
      spaced form, which the parser reads unit by unit. */
  lemma MarkedPartsReadBack(t: Dhms, secs: string -> Option<u64>)
    requires t.days == 0 && t.hours < 24 && t.mins < 60 && t.seconds < 60
    requires t.hours > 0 || t.mins > 0
    requires secs(NatToString(t.seconds)) == Some(t.seconds)
    ensures ParseCpuTimeToSeconds(Join(Parts(t), ' '), secs) == Some(t.hours * 3600 + t.mins * 60 + t.seconds)
  {
    var ws := Parts(t);
    var j := Join(ws, ' ');
    assert Words(Trim(j)) == ws by {
      JoinedParts(t);
    }
    assert ExactSum(ws, TokenStep(secs)) == Some(t.hours * 3600 + t.mins * 60 + t.seconds) by {
      DhmsSum(t, secs);
    }
    assert |ws| > 0 && (EndsWith(ws[0], 'h') || EndsWith(ws[0], 'm')) by {
      FirstPartMarked(t);
    }
    var total := ExactSum(ws, TokenStep(secs)).value;
    MarkedWordsRead(j, ws, total, total, secs);
  }

  /** Seconds alone print as the figure with the unit `s`. */
  lemma SecondsOnly(t: Dhms, secs: string -> Option<u64>)
    requires t.days == 0 && t.hours == 0 && t.mins == 0 && t.seconds > 0
    requires secs(NatToString(t.seconds)) == Some(t.seconds)
    ensures ParseCpuTimeToSeconds(Join(Parts(t), ' '), secs) == Some(t.seconds)
  {
    assert Parts(t) == [NatToString(t.seconds) + ['s']];
    DigitsToken(NatToString(t.seconds), true, secs);
  }
  /** Without days, the first unit printed is hours or minutes whenever
      either is there. */
  lemma FirstPartMarked(t: Dhms)
    requires t.days == 0 && (t.hours > 0 || t.mins > 0)
    ensures |Parts(t)| > 0 && (EndsWith(Parts(t)[0], 'h') || EndsWith(Parts(t)[0], 'm'))
  {
    if t.hours > 0 {
      UnitSuffix(t.hours, 'h');
      assert Parts(t)[0] == NatToString(t.hours) + ['h'];
    } else {
      UnitSuffix(t.mins, 'm');
      assert Parts(t)[0] == NatToString(t.mins) + ['m'];
    }
  }

  /** The units of a duration without days read, one by one, as the
      duration. */
  lemma DhmsSum(t: Dhms, secs: string -> Option<u64>)
    requires t.days == 0 && t.hours < 24 && t.mins < 60 && t.seconds < 60
    requires secs(NatToString(t.seconds)) == Some(t.seconds)
    ensures ExactSum(Parts(t), TokenStep(secs)) == Some(t.hours * 3600 + t.mins * 60 + t.seconds)
  {
    HoursSum(t.hours, t.mins, t.seconds, secs);
    assert Parts(t) == Part(t.hours, 'h') + (Part(t.mins, 'm') + Part(t.seconds, 's'));
  }

  /** Hours, minutes and seconds read as their total in seconds. */
  lemma HoursSum(h: nat, m: nat, sec: nat, secs: string -> Option<u64>)
    requires h < 24 && m < 60 && sec < 60 && secs(NatToString(sec)) == Some(sec)
    ensures ExactSum(Part(h, 'h') + (Part(m, 'm') + Part(sec, 's')), TokenStep(secs)) == Some(h * 3600 + m * 60 + sec)
  {
    MinutesSum(m, sec, secs);
    FigureToken(h, 'h', secs);
    PrependPart(h, 'h', Part(m, 'm') + Part(sec, 's'), TokenStep(secs));
  }

  /** Minutes and seconds read as their total in seconds. */
  lemma MinutesSum(m: nat, sec: nat, secs: string -> Option<u64>)
    requires m < 60 && sec < 60 && secs(NatToString(sec)) == Some(sec)
    ensures ExactSum(Part(m, 'm') + Part(sec, 's'), TokenStep(secs)) == Some(m * 60 + sec)
  {
    SecondSum(sec, secs);
    FigureToken(m, 'm', secs);
    PrependPart(m, 'm', Part(sec, 's'), TokenStep(secs));
  }

  /** A unit in front of tokens that read in full adds what it reads as. */
  lemma PrependPart(v: nat, unit: char, rest: seq<string>, step: string -> Option<u64>)
    requires v > 0 ==> step(NatToString(v) + [unit]).Some?
    requires ExactSum(rest, step).Some?
    ensures ExactSum(Part(v, unit) + rest, step)
         == Some((if v > 0 then step(NatToString(v) + [unit]).value else 0) + ExactSum(rest, step).value)
  {
    var ws := Part(v, unit) + rest;
    if v > 0 {
      assert ws[0] == NatToString(v) + [unit] && ws[1..] == rest;
    } else {
      assert ws == rest;
    }
  }

  /** A seconds unit reads as its figure, when the figure parses whole. */
  lemma SecondSum(v: nat, secs: string -> Option<u64>)
    requires v < 60 && secs(NatToString(v)) == Some(v)
    ensures ExactSum(Part(v, 's'), TokenStep(secs)) == Some(v)
  {
    if v > 0 {
      FigureToken(v, 's', secs);
      assert [NatToString(v) + ['s']][1..] == [];
    }
  }
}
