/** The race pace calculator: the `M:SS` formatting of seconds, the decoding
    of an `MM`, `MM:SS` or `HH:MM:SS` target time into seconds, the check
    that rejects a distance or time below one, the unit taken from the
    distance argument, and the table of cumulative split times. */
module RacePace {
  import opened Wrappers
  import opened Text

  // ---------------------------------------------------------------------
  // Ruby string conversions

  /** The length of the longest prefix of `s` whose characters satisfy `p`. */
  function Span(s: string, p: char -> bool): (n: nat)
    ensures n <= |s|
    ensures forall i :: 0 <= i < n ==> p(s[i])
    ensures n == |s| || !p(s[n])
    decreases |s|
  {
    if s == [] || !p(s[0]) then 0 else 1 + Span(s[1..], p)
  }

  /** Ruby's `Integer#to_s`. */
  function IntToString(n: int): string {
    if n < 0 then "-" + NatToString(-n) else NatToString(n)
  }

  /** Ruby's `String#to_i`: an optional sign followed by the longest run of
      digits; whatever follows is ignored, and no digits at all read as 0. */
  function ToI(s: string): (r: int)
    ensures (s == [] || (!IsDigit(s[0]) && s[0] != '-' && s[0] != '+')) ==> r == 0
    ensures r < 0 ==> s[0] == '-'
  {
    if |s| > 0 && (s[0] == '-' || s[0] == '+') then
      var rest := s[1..];
      var v: int := DigitsValue(rest[..Span(rest, IsDigit)]);
      if s[0] == '-' then -v else v
    else
      DigitsValue(s[..Span(s, IsDigit)])
  }

  /** `to_i` reads a run of digits as its decimal value, whatever follows
      the run. */
  lemma ToIOfDigits(ds: string, rest: string)
    requires |ds| >= 1 && AllDigits(ds)
    requires rest == [] || !IsDigit(rest[0])
    ensures ToI(ds + rest) == DigitsValue(ds)
  {
    var s := ds + rest;
    SpanOfDigits(ds, rest);
    assert s[..|ds|] == ds;
  }

  lemma {:induction false} SpanOfDigits(ds: string, rest: string)
    requires AllDigits(ds)
    requires rest == [] || !IsDigit(rest[0])
    ensures Span(ds + rest, IsDigit) == |ds|
    decreases |ds|
  {
    if ds == [] {
      assert ds + rest == rest;
    } else {
      assert (ds + rest)[1..] == ds[1..] + rest;
      SpanOfDigits(ds[1..], rest);
    }
  }

  /** `to_i` reads back a (possibly zero-padded) numeral. */
  lemma ToIOfNumeral(n: nat, width: nat)
    ensures ToI(PadLeft(NatToString(n), width, '0')) == n
  {
    var s := PadLeft(NatToString(n), width, '0');
    ZeroPaddedValue(n, width);
    ToIOfDigits(s, []);
    assert s + [] == s;
  }

  /** The fields list without its trailing empty fields. */
  function DropTrailingEmpty(fields: seq<string>): (r: seq<string>)
    ensures |r| <= |fields| && r == fields[..|r|]
    ensures r == [] || r[|r| - 1] != []
    ensures forall i :: |r| <= i < |fields| ==> fields[i] == []
    decreases |fields|
  {
    if fields != [] && fields[|fields| - 1] == [] then DropTrailingEmpty(fields[..|fields| - 1]) else fields
  }

  /** Ruby's `String#split(sep)` with a one-character separator: the fields
      between separators, with trailing empty fields removed (so the empty
      string has no fields at all). */
  function RubySplit(s: string, sep: char): (r: seq<string>)
    ensures forall i :: 0 <= i < |r| ==> sep !in r[i]
    ensures r == [] || r[|r| - 1] != []
    ensures s == [] ==> r == []
  {
    DropTrailingEmpty(SplitOn(s, sep))
  }

  /** Splitting a join of separator-free fields whose last field is not
      empty gives back the fields. */
  lemma RubySplitJoin(fields: seq<string>, sep: char)
    requires |fields| >= 1 && fields[|fields| - 1] != []
    requires forall i :: 0 <= i < |fields| ==> sep !in fields[i]
    ensures RubySplit(Join(fields, sep), sep) == fields
  {
    SplitJoin(fields, sep);
  }

  // ---------------------------------------------------------------------
  // secs_to_mm

  /** `secs_to_mm`: whole minutes, a colon, then the remaining seconds
      padded to two digits with zeros. Ruby's `/` and `%` round toward
      negative infinity, which for the divisor 60 is Dafny's Euclidean
      division. */
  function SecsToMm(secs: int): (r: string)
    ensures |r| >= 4 && r[|r| - 3] == ':'
    ensures AllDigits(r[|r| - 2..]) && DigitsValue(r[|r| - 2..]) == secs % 60
  {
    var mm := IntToString(secs / 60);
    var ss := PadLeft(IntToString(secs % 60), 2, '0');
    assert |mm| >= 1 && |ss| == 2 && AllDigits(ss) && DigitsValue(ss) == secs % 60 by {
      TwoDigits(secs % 60);
    }
    ColonFields(mm, ss);
    mm + ":" + ss
  }

  /** For a non-negative count of seconds, `secs_to_mm` writes the minutes
      before the colon as a plain numeral. */
  lemma SecsToMmFields(secs: int)
    requires secs >= 0
    ensures SecsToMm(secs)[..|SecsToMm(secs)| - 3] == NatToString(secs / 60)
  {
    var mm := NatToString(secs / 60);
    var ss := PadLeft(NatToString(secs % 60), 2, '0');
    assert SecsToMm(secs) == mm + ":" + ss;
    TwoDigits(secs % 60);
    ColonFields(mm, ss);
  }

  lemma ColonFields(a: string, b: string)
    requires |a| >= 1 && |b| == 2
    ensures var r := a + ":" + b;
      |r| >= 4 && r[|r| - 3] == ':' && r[..|r| - 3] == a && r[|r| - 2..] == b
  {
    var r := a + ":" + b;
    assert r[..|r| - 3] == a;
    assert r[|r| - 2..] == b;
  }

  /** A number below 60, zero-padded to width 2, is exactly two digits. */
  lemma TwoDigits(rem: nat)
    requires rem < 60
    ensures var ss := PadLeft(NatToString(rem), 2, '0');
      |ss| == 2 && AllDigits(ss) && DigitsValue(ss) == rem
  {
    assert Pow10(2) == 100;
    NatToStringLength(rem, 2);
    ZeroPaddedValue(rem, 2);
  }

  // ---------------------------------------------------------------------
  // The target time

  /** The hours, minutes and seconds read from the time argument. */
  datatype Clock = Clock(hour: int, min: int, sec: int)

  /** Every field of the time argument read with `to_i`. */
  function TimeParts(arg: string): (parts: seq<int>)
    ensures |parts| == |RubySplit(arg, ':')|
    ensures forall i :: 0 <= i < |parts| ==> parts[i] == ToI(RubySplit(arg, ':')[i])
  {
    var fields := RubySplit(arg, ':');
    seq(|fields|, i requires 0 <= i < |fields| => ToI(fields[i]))
  }

  /** The `case` on the number of fields: one field is minutes, two are
      minutes and seconds, three are hours, minutes and seconds; any other
      count leaves all three at zero. */
  function DecodeTime(arg: string): (c: Clock)
    ensures var parts := TimeParts(arg);
      && (|parts| == 1 ==> c == Clock(0, parts[0], 0))
      && (|parts| == 2 ==> c == Clock(0, parts[0], parts[1]))
      && (|parts| == 3 ==> c == Clock(parts[0], parts[1], parts[2]))
      && (|parts| == 0 || |parts| > 3 ==> c == Clock(0, 0, 0))
  {
    var parts := TimeParts(arg);
    if |parts| == 1 then Clock(0, parts[0], 0)
    else if |parts| == 2 then Clock(0, parts[0], parts[1])
    else if |parts| == 3 then Clock(parts[0], parts[1], parts[2])
    else Clock(0, 0, 0)
  }

  /** `time_in_s`. */
  function TimeInSeconds(c: Clock): (secs: int)
    ensures 0 <= c.sec < 60 && 0 <= c.min < 60 ==>
      secs % 60 == c.sec && (secs / 60) % 60 == c.min && secs / 3600 == c.hour
  {
    var secs := c.sec + c.min * 60 + c.hour * 60 * 60;
    assert 0 <= c.sec < 60 && 0 <= c.min < 60 ==>
      secs % 60 == c.sec && (secs / 60) % 60 == c.min && secs / 3600 == c.hour by {
      if 0 <= c.sec < 60 && 0 <= c.min < 60 {
        MixedRadix(c.hour, c.min, c.sec);
      }
    }
    secs
  }

  /** Hours, minutes below 60 and seconds below 60 are recovered from the
      total count of seconds. */
  lemma MixedRadix(hour: int, min: int, sec: int)
    requires 0 <= sec < 60 && 0 <= min < 60
    ensures var secs := sec + min * 60 + hour * 60 * 60;
      secs % 60 == sec && (secs / 60) % 60 == min && secs / 3600 == hour
  {
    var secs := sec + min * 60 + hour * 60 * 60;
    var m := min + hour * 60;
    assert secs == m * 60 + sec;
    assert secs / 60 == m && secs % 60 == sec;
    assert m % 60 == min && m / 60 == hour;
    assert secs == hour * 3600 + (min * 60 + sec);
    assert 0 <= min * 60 + sec < 3600;
  }

  /** The validity check: the run goes on only when both the distance and
      the time are at least one. */
  function Accepts(dist: real, timeInS: int): (ok: bool)
    ensures ok ==> dist >= 1.0 && timeInS >= 1
    ensures !ok ==> dist < 1.0 || timeInS < 1
  {
    !(dist < 1.0 || timeInS < 1)
  }

  /** A time argument with no field, or with four or more, decodes to zero
      seconds and is therefore always rejected. */
  lemma WrongPartCountRejected(arg: string, dist: real)
    requires |RubySplit(arg, ':')| == 0 || |RubySplit(arg, ':')| >= 4
    ensures DecodeTime(arg) == Clock(0, 0, 0)
    ensures !Accepts(dist, TimeInSeconds(DecodeTime(arg)))
  {
  }

  /** Decoding the output of `secs_to_mm` as a two-field `MM:SS` time gives
      back the seconds it was written from. */
  lemma SecsToMmRoundTrip(secs: int)
    requires secs >= 0
    ensures DecodeTime(SecsToMm(secs)) == Clock(0, secs / 60, secs % 60)
    ensures TimeInSeconds(DecodeTime(SecsToMm(secs))) == secs
  {
    var mm := PadLeft(NatToString(secs / 60), 0, '0');
    var ss := PadLeft(NatToString(secs % 60), 2, '0');
    assert SecsToMm(secs) == mm + ":" + ss;
    PaddedNumeral(secs / 60, 0);
    PaddedNumeral(secs % 60, 2);
    SplitTwoFields(mm, ss);
    DecodeTwoFields(mm + ":" + ss, mm, ss);
    ToIOfNumeral(secs / 60, 0);
    ToIOfNumeral(secs % 60, 2);
  }

  lemma SplitTwoFields(a: string, b: string)
    requires |a| >= 1 && AllDigits(a) && |b| >= 1 && AllDigits(b)
    ensures RubySplit(a + ":" + b, ':') == [a, b]
  {
    DigitFieldsSplit([a, b]);
    JoinTwo(a, b, ':');
  }

  lemma JoinTwo(a: string, b: string, sep: char)
    ensures Join([a, b], sep) == a + [sep] + b
  {
    assert [a, b][1..] == [b];
  }

  /** An `HH:MM:SS` time written with numerals decodes to its hours,
      minutes and seconds, and to `3600 * HH + 60 * MM + SS` seconds. */
  lemma DecodeHoursMinutesSeconds(hour: nat, min: nat, sec: nat)
    ensures var arg := NatToString(hour) + ":" + PadLeft(NatToString(min), 2, '0') + ":" + PadLeft(NatToString(sec), 2, '0');
      && DecodeTime(arg) == Clock(hour, min, sec)
      && TimeInSeconds(DecodeTime(arg)) == 3600 * hour + 60 * min + sec
  {
    var hh := PadLeft(NatToString(hour), 0, '0');
    var mm := PadLeft(NatToString(min), 2, '0');
    var ss := PadLeft(NatToString(sec), 2, '0');
    assert hh == NatToString(hour);
    PaddedNumeral(hour, 0);
    PaddedNumeral(min, 2);
    PaddedNumeral(sec, 2);
    SplitThreeFields(hh, mm, ss);
    DecodeThreeFields(hh + ":" + mm + ":" + ss, hh, mm, ss);
    ToIOfNumeral(hour, 0);
    ToIOfNumeral(min, 2);
    ToIOfNumeral(sec, 2);
  }

  lemma DecodeThreeFields(arg: string, a: string, b: string, c: string)
    requires RubySplit(arg, ':') == [a, b, c]
    ensures DecodeTime(arg) == Clock(ToI(a), ToI(b), ToI(c))
  {
  }

  lemma DecodeTwoFields(arg: string, a: string, b: string)
    requires RubySplit(arg, ':') == [a, b]
    ensures DecodeTime(arg) == Clock(0, ToI(a), ToI(b))
  {
  }

  lemma SplitThreeFields(a: string, b: string, c: string)
    requires |a| >= 1 && AllDigits(a) && |b| >= 1 && AllDigits(b) && |c| >= 1 && AllDigits(c)
    ensures RubySplit(a + ":" + b + ":" + c, ':') == [a, b, c]
  {
    DigitFieldsSplit([a, b, c]);
    JoinThree(a, b, c, ':');
  }

  lemma PaddedNumeral(n: nat, width: nat)
    ensures var s := PadLeft(NatToString(n), width, '0'); |s| >= 1 && AllDigits(s)
  {
    ZeroPaddedValue(n, width);
  }

  /** Non-empty digit fields are separator-free, so splitting their join
      gives them back. */
  lemma DigitFieldsSplit(fields: seq<string>)
    requires |fields| >= 1
    requires forall i :: 0 <= i < |fields| ==> |fields[i]| >= 1 && AllDigits(fields[i])
    ensures RubySplit(Join(fields, ':'), ':') == fields
  {
    forall i | 0 <= i < |fields| ensures ':' !in fields[i] {
      NoSeparatorInDigits(fields[i], ':');
    }
    RubySplitJoin(fields, ':');
  }

  /** A bare numeral is a number of minutes. */
  lemma DecodeMinutes(min: nat)
    ensures DecodeTime(NatToString(min)) == Clock(0, min, 0)
    ensures TimeInSeconds(DecodeTime(NatToString(min))) == 60 * min
  {
    var mm := NatToString(min);
    NoSeparatorInDigits(mm, ':');
    RubySplitJoin([mm], ':');
    ToIOfNumeral(min, 0);
    assert PadLeft(mm, 0, '0') == mm;
  }

  // ---------------------------------------------------------------------
  // The distance argument

  predicate IsNumberChar(c: char) {
    IsDigit(c) || c == '.'
  }

  predicate IsUnitChar(c: char) {
    'a' <= c <= 'z'
  }

  /** What `/([0-9\.]+)([a-z]+)?/` captures: the number text, and the unit
      when letters follow it directly. */
  datatype DistanceMatch = DistanceMatch(number: string, unit: Option<string>)

  predicate IsOtherChar(c: char) {
    !IsNumberChar(c)
  }

  /** The unanchored match of the distance pattern: it starts at the first
      digit or dot, takes the longest run of digits and dots, then the
      longest run of lower-case letters right after it, if any. There is no
      match when the argument has no digit or dot at all. */
  function MatchDistance(arg: string): (r: Option<DistanceMatch>)
    ensures r.None? <==> forall i :: 0 <= i < |arg| ==> !IsNumberChar(arg[i])
  {
    var p := Span(arg, IsOtherChar);
    if p == |arg| then None else Some(MatchAt(arg[p..]))
  }

  /** The match at a position where the pattern can start: the run of
      digits and dots there, then the run of lower-case letters after it. */
  function MatchAt(rest: string): DistanceMatch {
    var n := Span(rest, IsNumberChar);
    var after := rest[n..];
    var u := Span(after, IsUnitChar);
    DistanceMatch(rest[..n], if u == 0 then None else Some(after[..u]))
  }

  /** The match is leftmost and longest. Its number starts at `p`, the
      first digit or dot (every character before `p` is something else),
      and is the longest run of digits and dots there; its unit is the
      longest run of lower-case letters directly after the number, and
      there is none when that run is empty. (`Span` is the length of the
      longest run, see its contract.) */
  lemma MatchIsLeftmostLongest(arg: string, m: DistanceMatch)
    requires MatchDistance(arg) == Some(m)
    ensures var p := Span(arg, IsOtherChar);
      && p < |arg| && IsNumberChar(arg[p]) && (forall i :: 0 <= i < p ==> !IsNumberChar(arg[i]))
      && RunsFrom(arg, p, m)
  {
    var p := MatchStart(arg, m);
    MatchAtRuns(arg, p, m);
  }

  /** `m` holds the longest run of digits and dots from `p`, and the longest
      run of lower-case letters directly after it, if that run is not
      empty. */
  predicate RunsFrom(arg: string, p: nat, m: DistanceMatch)
    requires p <= |arg|
  {
    var n := Span(arg[p..], IsNumberChar);
    var u := Span(arg[p + n..], IsUnitChar);
    && p + n + u <= |arg|
    && m.number == arg[p..p + n]
    && m.unit == if u == 0 then None else Some(arg[p + n..p + n + u])
  }

  lemma MatchAtRuns(arg: string, p: nat, m: DistanceMatch)
    requires p < |arg| && m == MatchAt(arg[p..])
    ensures RunsFrom(arg, p, m)
  {
    var n := Span(arg[p..], IsNumberChar);
    var u := Span(arg[p + n..], IsUnitChar);
    SliceOfSlice(arg, p, n, u);
    assert m == DistanceMatch(arg[p..][..n], if u == 0 then None else Some(arg[p..][n..][..u]));
  }

  lemma MatchStart(arg: string, m: DistanceMatch) returns (p: nat)
    requires MatchDistance(arg) == Some(m)
    ensures p == Span(arg, IsOtherChar) && p < |arg| && IsNumberChar(arg[p]) && m == MatchAt(arg[p..])
    ensures forall i :: 0 <= i < p ==> !IsNumberChar(arg[i])
  {
    p := Span(arg, IsOtherChar);
  }

  lemma SliceOfSlice(s: string, p: nat, n: nat, u: nat)
    requires p + n <= |s| && u <= |s| - (p + n)
    ensures s[p..][..n] == s[p..p + n] && s[p..][n..] == s[p + n..]
    ensures s[p + n..][..u] == s[p + n..p + n + u]
  {
  }

  /** A match as the distance pattern produces it: a non-empty number of
      digits and dots, and a non-empty lower-case unit when there is one. */
  predicate WellFormedMatch(m: DistanceMatch) {
    && |m.number| >= 1 && (forall i :: 0 <= i < |m.number| ==> IsNumberChar(m.number[i]))
    && (m.unit.Some? ==> |m.unit.value| >= 1 && forall i :: 0 <= i < |m.unit.value| ==> IsUnitChar(m.unit.value[i]))
  }

  /** Every match has a non-empty number of digits and dots, and a
      non-empty lower-case unit when it has one. */
  lemma MatchIsWellFormed(arg: string, m: DistanceMatch)
    requires MatchDistance(arg) == Some(m)
    ensures WellFormedMatch(m)
  {
    var p := MatchStart(arg, m);
    MatchAtWellFormed(arg[p..]);
  }

  lemma MatchAtWellFormed(rest: string)
    requires rest != [] && IsNumberChar(rest[0])
    ensures WellFormedMatch(MatchAt(rest))
  {
  }

  /** `dist_match[2] || "mile"`. */
  function DistUnit(m: DistanceMatch): (unit: string)
    ensures m.unit.None? ==> unit == "mile"
    ensures WellFormedMatch(m) ==> |unit| >= 1 && forall i :: 0 <= i < |unit| ==> IsUnitChar(unit[i])
  {
    if m.unit.Some? then m.unit.value else "mile"
  }

  lemma {:induction false} SpanAll(s: string, rest: string, p: char -> bool)
    requires forall i :: 0 <= i < |s| ==> p(s[i])
    requires rest == [] || !p(rest[0])
    ensures Span(s + rest, p) == |s|
    decreases |s|
  {
    if s == [] {
      assert s + rest == rest;
    } else {
      assert (s + rest)[1..] == s[1..] + rest;
      SpanAll(s[1..], rest, p);
    }
  }

  /** A distance written without letters after it is in miles. */
  lemma DefaultUnitIsMile(number: string)
    requires |number| >= 1 && forall i :: 0 <= i < |number| ==> IsNumberChar(number[i])
    ensures MatchDistance(number) == Some(DistanceMatch(number, None))
    ensures DistUnit(MatchDistance(number).value) == "mile"
  {
    SpanAll(number, [], IsNumberChar);
    assert number + [] == number;
    assert number[|number|..] == [];
  }

  /** Letters written right after the distance are its unit. */
  lemma ExplicitUnit(number: string, unit: string)
    requires |number| >= 1 && forall i :: 0 <= i < |number| ==> IsNumberChar(number[i])
    requires |unit| >= 1 && forall i :: 0 <= i < |unit| ==> IsUnitChar(unit[i])
    ensures MatchDistance(number + unit) == Some(DistanceMatch(number, Some(unit)))
    ensures DistUnit(MatchDistance(number + unit).value) == unit
  {
    var arg := number + unit;
    assert !IsNumberChar(unit[0]);
    SpanAll(number, unit, IsNumberChar);
    assert arg[..|number|] == number && arg[|number|..] == unit;
    SpanAll(unit, [], IsUnitChar);
    assert unit + [] == unit;
    assert unit[..|unit|] == unit;
  }

  /** Letters are a unit only when they directly follow the number in lower
      case: "10 km" and "10K" are both read as 10 miles. */
  lemma DetachedUnitIsMile(number: string, rest: string)
    requires |number| >= 1 && forall i :: 0 <= i < |number| ==> IsNumberChar(number[i])
    requires rest != [] && !IsNumberChar(rest[0]) && !IsUnitChar(rest[0])
    ensures MatchDistance(number + rest) == Some(DistanceMatch(number, None))
    ensures DistUnit(MatchDistance(number + rest).value) == "mile"
  {
    var arg := number + rest;
    SpanAll(number, rest, IsNumberChar);
    assert arg[..|number|] == number && arg[|number|..] == rest;
  }

  // ---------------------------------------------------------------------
  // Splits

  /** The split table: for each whole distance unit `i` from 1 to
      `dist.floor`, the target time `pace * i` at that point. `pace` is the
      whole number of seconds per unit the script computes. */
  method Splits(pace: int, dist: real) returns (splits: seq<int>)
    ensures |splits| == if dist.Floor < 1 then 0 else dist.Floor
    ensures forall i :: 0 <= i < |splits| ==> splits[i] == pace * (i + 1)
    ensures forall i :: 0 < i < |splits| ==> splits[i] - splits[i - 1] == pace
    ensures pace >= 1 ==> forall i, j :: 0 <= i < j < |splits| ==> splits[i] < splits[j]
  {
    var lastDist := dist.Floor;
    splits := [];
    var i := 1;
    while i <= lastDist
      invariant 1 <= i && (lastDist >= 1 ==> i <= lastDist + 1) && (lastDist < 1 ==> i == 1)
      invariant |splits| == i - 1
      invariant forall k :: 0 <= k < |splits| ==> splits[k] == pace * (k + 1)
      decreases lastDist - i
    {
      var targetTimeSecs := pace * i;
      splits := splits + [targetTimeSecs];
      i := i + 1;
    }
    if pace >= 1 {
      forall a, b | 0 <= a < b < |splits| ensures splits[a] < splits[b] {
        MultiplyIncreases(pace, a + 1, b + 1);
      }
    }
  }

  lemma MultiplyIncreases(pace: int, a: int, b: int)
    requires pace >= 1 && a < b
    ensures pace * a < pace * b
  {
    assert pace * b - pace * a == pace * (b - a);
  }
}
