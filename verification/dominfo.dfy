/** Model of `parse_dominfo` in `utils.rs`: picking the memory figures and the
    CPU time out of the text `virsh dominfo` prints, one `Key: value` per
    line. */
module Dominfo {
  import opened Wrappers
  import opened Text

  const MAX_MEMORY: string := "Max memory:"
  const USED_MEMORY: string := "Used memory:"
  const CPU_TIME: string := "CPU time:"

  /** `DomInfo`: each field absent until a line supplies it. The memory
      figures are kept as printed, in whatever unit `virsh` used. */
  datatype DomInfo = DomInfo(maxMemory: Option<u64>, usedMemory: Option<u64>, cpuTime: Option<string>)

  const EMPTY: DomInfo := DomInfo(None, None, None)

  /** `s.splitn(2, c).nth(1)`: what follows the first `c`, if there is one. */
  function AfterFirst(s: string, c: char): (r: Option<string>)
    ensures r.Some? <==> c in s
    ensures r.Some? ==> |r.value| < |s| && s[|s| - |r.value| - 1] == c && r.value == s[|s| - |r.value|..]
    ensures r.Some? ==> c !in s[..|s| - |r.value| - 1]
  {
    if |s| == 0 then None
    else if s[0] == c then Some(s[1..])
    else
      var r := AfterFirst(s[1..], c);
      assert c in s <==> c in s[1..];
      if r.Some? then
        assert s[..|s| - |r.value| - 1] == [s[0]] + s[1..][..|s| - 1 - |r.value| - 1];
        r
      else r
  }

  /** The number a memory line carries: the first word after the colon, when
      it parses as a `u64`. */
  function MemoryFigure(l: string): Option<u64> {
    match AfterFirst(l, ':')
    case None => None
    case Some(val) => ParseU64(FirstWord(Trim(val)))
  }

  /** What one line of the output sets, field by field. */
  function MaxSetBy(line: string): Option<u64> {
    var l := Trim(line);
    if StartsWith(l, MAX_MEMORY) then MemoryFigure(l) else None
  }

  function UsedSetBy(line: string): Option<u64> {
    var l := Trim(line);
    if StartsWith(l, USED_MEMORY) then MemoryFigure(l) else None
  }

  function CpuSetBy(line: string): Option<string> {
    var l := Trim(line);
    if StartsWith(l, CPU_TIME) then
      match AfterFirst(l, ':')
      case None => None
      case Some(val) => Some(Trim(val))
    else None
  }

  /** A newer value, if any, replaces an older one. */
  function Override<T>(older: Option<T>, newer: Option<T>): Option<T> {
    if newer.Some? then newer else older
  }

  /** The body of the `for line in s.lines()` loop. A line updates each field
      exactly by what it sets and leaves the others alone, since no line
      starts with two of the keys; a line that sets nothing changes nothing. */
  function ApplyLine(info: DomInfo, line: string): (r: DomInfo)
    ensures r == DomInfo(Override(info.maxMemory, MaxSetBy(line)),
                         Override(info.usedMemory, UsedSetBy(line)),
                         Override(info.cpuTime, CpuSetBy(line)))
  {
    var l := Trim(line);
    PrefixesExclusive(l, MAX_MEMORY, USED_MEMORY);
    PrefixesExclusive(l, MAX_MEMORY, CPU_TIME);
    PrefixesExclusive(l, USED_MEMORY, CPU_TIME);
    if StartsWith(l, MAX_MEMORY) then
      match MemoryFigure(l)
      case Some(n) => info.(maxMemory := Some(n))
      case None => info
    else if StartsWith(l, USED_MEMORY) then
      match MemoryFigure(l)
      case Some(n) => info.(usedMemory := Some(n))
      case None => info
    else if StartsWith(l, CPU_TIME) then
      match AfterFirst(l, ':')
      case Some(val) => info.(cpuTime := Some(Trim(val)))
      case None => info
    else info
  }

  /** Two prefixes that start differently cannot both begin a line. */
  lemma PrefixesExclusive(l: string, p: string, q: string)
    requires p != [] && q != [] && p[0] != q[0]
    ensures StartsWith(l, p) ==> !StartsWith(l, q)
  {
    if StartsWith(l, p) {
      assert l[0] == l[..|p|][0] == p[0];
      if |q| <= |l| {
        assert l[..|q|][0] == l[0];
      }
    }
  }

  /** The loop over the lines. */
  function ParseLines(info: DomInfo, lines: seq<string>): DomInfo
    decreases |lines|
  {
    if |lines| == 0 then info else ParseLines(ApplyLine(info, lines[0]), lines[1..])
  }


  /** The value the last line that sets a field gives it: some line sets it
      to that value and no later line sets it at all. */
  ghost function LastSet<T>(lines: seq<string>, sets: string -> Option<T>): (r: Option<T>)
    ensures r.Some? ==> exists i :: 0 <= i < |lines| && sets(lines[i]) == r && IsLastSetter(lines, sets, i)
    ensures r.None? <==> forall i :: 0 <= i < |lines| ==> sets(lines[i]).None?
    decreases |lines|
  {
    if |lines| == 0 then None
    else
      var rest := LastSet(lines[1..], sets);
      assert forall i :: 1 <= i < |lines| ==> lines[i] == lines[1..][i - 1];
      if rest.Some? then
        var k :| 0 <= k < |lines[1..]| && sets(lines[1..][k]) == rest && IsLastSetter(lines[1..], sets, k);
        assert sets(lines[k + 1]) == rest && IsLastSetter(lines, sets, k + 1);
        rest
      else
        assert sets(lines[0]).Some? ==> IsLastSetter(lines, sets, 0);
        sets(lines[0])
  }

  /** No line after line `i` sets the field. */
  ghost predicate IsLastSetter<T>(lines: seq<string>, sets: string -> Option<T>, i: nat) {
    forall j :: i < j < |lines| ==> sets(lines[j]).None?
  }

  lemma {:induction false} ParseLinesLastWins(info: DomInfo, lines: seq<string>)
    ensures ParseLines(info, lines)
         == DomInfo(Override(info.maxMemory, LastSet(lines, MaxSetBy)),
                    Override(info.usedMemory, LastSet(lines, UsedSetBy)),
                    Override(info.cpuTime, LastSet(lines, CpuSetBy)))
    decreases |lines|
  {
    if |lines| > 0 {
      var next := ApplyLine(info, lines[0]);
      ParseLinesLastWins(next, lines[1..]);
      LastSetStep(info.maxMemory, lines, MaxSetBy);
      LastSetStep(info.usedMemory, lines, UsedSetBy);
      LastSetStep(info.cpuTime, lines, CpuSetBy);
    }
  }

  /** Taking the first line's value and then the rest's last value is taking
      the last value of all the lines. */
  lemma LastSetStep<T>(older: Option<T>, lines: seq<string>, sets: string -> Option<T>)
    requires |lines| > 0
    ensures Override(Override(older, sets(lines[0])), LastSet(lines[1..], sets)) == Override(older, LastSet(lines, sets))
  {
  }

  /** `parse_dominfo`: each field of the result is what the last line that
      sets it says, and absent when no line sets it. Other lines are ignored,
      a memory line whose figure does not parse keeps the earlier value, and
      later lines win. */
  function ParseDominfo(s: string): (r: DomInfo)
    ensures r == DomInfo(LastSet(Lines(s), MaxSetBy), LastSet(Lines(s), UsedSetBy), LastSet(Lines(s), CpuSetBy))
  {
    ParseLinesLastWins(EMPTY, Lines(s));
    ParseLines(EMPTY, Lines(s))
  }

  /** A memory line of the usual shape, `Max memory:` then a space, the
      figure, a space and its unit, sets the figure. */
  lemma MaxMemoryLine(n: u64, unit: string)
    requires unit != [] && !HasWhitespace(unit)
    ensures MaxSetBy(MAX_MEMORY + " " + NatToString(n) + " " + unit) == Some(n)
  {
    var key := MAX_MEMORY;
    assert key[..|key| - 1] == "Max memory";
    KeyLine(key, n, unit);
  }

  /** The same for `Used memory:`. */
  lemma UsedMemoryLine(n: u64, unit: string)
    requires unit != [] && !HasWhitespace(unit)
    ensures UsedSetBy(USED_MEMORY + " " + NatToString(n) + " " + unit) == Some(n)
  {
    var key := USED_MEMORY;
    assert key[..|key| - 1] == "Used memory";
    KeyLine(key, n, unit);
  }

  /** A line that starts with its key and ends in a unit needs no trimming,
      and it is the figure after the key's colon that it carries. */
  lemma KeyLine(key: string, n: u64, unit: string)
    requires key != [] && !IsWhitespace(key[0])
    requires key[|key| - 1] == ':' && ':' !in key[..|key| - 1]
    requires unit != [] && !HasWhitespace(unit)
    ensures var line := key + " " + NatToString(n) + " " + unit;
            Trim(line) == line && StartsWith(line, key) && MemoryFigure(line) == Some(n)
  {
    var line := key + " " + NatToString(n) + " " + unit;
    assert line[0] == key[0] && line[|line| - 1] == unit[|unit| - 1];
    TrimOfTrimmed(line);
    assert line[..|key|] == key;
    FigureLine(key, n, unit);
  }

  /** A key ending in its only colon, followed by a space, a decimal figure, a
      space and a unit, carries that figure. */
  lemma FigureLine(key: string, n: u64, unit: string)
    requires key != [] && key[|key| - 1] == ':' && ':' !in key[..|key| - 1]
    requires unit != [] && !HasWhitespace(unit)
    ensures MemoryFigure(key + " " + NatToString(n) + " " + unit) == Some(n)
  {
    var digits := NatToString(n);
    var word := digits + " " + unit;
    var val := [' '] + word;
    assert key + " " + digits + " " + unit == key[..|key| - 1] + [':'] + val;
    AfterFirstPrefix(key[..|key| - 1], ':', val);
    TrimValue(word);
    FirstWordValue(digits, unit);
    ParseU64Digits(digits);
  }

  lemma TrimValue(word: string)
    requires word != [] && !IsWhitespace(word[0]) && !IsWhitespace(word[|word| - 1])
    ensures Trim([' '] + word) == word
  {
    TrimLeadingSpace(word);
  }

  lemma FirstWordValue(digits: string, unit: string)
    requires digits != [] && AllDigits(digits)
    requires unit != [] && !HasWhitespace(unit)
    ensures FirstWord(digits + " " + unit) == digits
  {
    DigitsNoWhitespace(digits);
    WordsJoin([digits, unit]);
    assert Join([digits, unit], ' ') == digits + " " + unit;
  }

  /** What follows the first `c` when the text before it has none. */
  lemma {:induction false} AfterFirstPrefix(p: string, c: char, t: string)
    requires c !in p
    ensures AfterFirst(p + [c] + t, c) == Some(t)
    decreases |p|
  {
    var s := p + [c] + t;
    if |p| == 0 {
      assert s[0] == c && s[1..] == t;
    } else {
      assert s[0] == p[0] && s[1..] == p[1..] + [c] + t;
      assert c !in p[1..];
      AfterFirstPrefix(p[1..], c, t);
    }
  }

  /** A space in front of a string whose ends are not white space is all
      that trimming removes. */
  lemma TrimLeadingSpace(s: string)
    requires s != [] && !IsWhitespace(s[0]) && !IsWhitespace(s[|s| - 1])
    ensures Trim([' '] + s) == s
  {
    assert ([' '] + s)[1..] == s;
    assert TrimStart([' '] + s) == TrimStart(s);
    assert TrimStart(s) == s;
  }

  lemma DigitsNoWhitespace(d: string)
    requires AllDigits(d)
    ensures !HasWhitespace(d)
  {
  }
}
