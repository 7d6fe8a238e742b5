/** Character and string operations shared by both programs: ASCII
    lower-casing, substring search (Python's `in` on strings), splitting on a
    separator character, and decimal digit strings. */
module Text {

  // ---------------------------------------------------------------------
  // Lower-casing

  function LowerChar(c: char): char {
    if 'A' <= c <= 'Z' then (c as int + ('a' as int - 'A' as int)) as char else c
  }

  /** `str.lower()`, restricted to ASCII letters. */
  function Lower(s: string): (r: string)
    ensures |r| == |s|
    ensures forall i :: 0 <= i < |s| ==> r[i] == LowerChar(s[i])
  {
    seq(|s|, i requires 0 <= i < |s| => LowerChar(s[i]))
  }

  predicate IsLower(s: string) {
    forall i :: 0 <= i < |s| ==> !('A' <= s[i] <= 'Z')
  }

  /** Lower-casing yields a string with no upper-case letter, and leaves
      such a string unchanged, so lower-casing twice is lower-casing once. */
  lemma LowerIsIdempotent(s: string)
    ensures IsLower(Lower(s))
    ensures IsLower(s) ==> Lower(s) == s
    ensures Lower(Lower(s)) == Lower(s)
  {
  }

  // ---------------------------------------------------------------------
  // Substring search

  /** `pat` occurs in `text` starting at index `i`. */
  predicate OccursAt(text: string, pat: string, i: int) {
    0 <= i && i + |pat| <= |text| && text[i..i + |pat|] == pat
  }

  /** Python's `pat in text`: true iff `pat` occurs somewhere in `text`
      (always true for the empty pattern). */
  function Contains(text: string, pat: string): (r: bool)
    ensures r <==> exists i :: OccursAt(text, pat, i)
    decreases |text|
  {
    if |pat| > |text| then false
    else if text[..|pat|] == pat then (assert OccursAt(text, pat, 0); true)
    else
      var r := Contains(text[1..], pat);
      assert r ==> exists i :: OccursAt(text, pat, i) by {
        if r {
          var i :| OccursAt(text[1..], pat, i);
          assert text[i + 1..i + 1 + |pat|] == text[1..][i..i + |pat|];
          assert OccursAt(text, pat, i + 1);
        }
      }
      assert (exists i :: OccursAt(text, pat, i)) ==> r by {
        if exists i :: OccursAt(text, pat, i) {
          var i :| OccursAt(text, pat, i);
          assert i != 0;
          assert text[1..][i - 1..i - 1 + |pat|] == text[i..i + |pat|];
          assert OccursAt(text[1..], pat, i - 1);
        }
      }
      r
  }

  // ---------------------------------------------------------------------
  // Splitting on a separator character

  /** The fields of `s` between occurrences of `sep`, as Python's
      `str.split(sep)` returns them: one more field than there are
      separators, empty fields included. */
  function SplitOn(s: string, sep: char): (r: seq<string>)
    ensures |r| >= 1
    ensures forall i :: 0 <= i < |r| ==> sep !in r[i]
    decreases |s|
  {
    if s == [] then [[]]
    else
      var rest := SplitOn(s[1..], sep);
      if s[0] == sep then [[]] + rest
      else [[s[0]] + rest[0]] + rest[1..]
  }

  /** The fields joined back with `sep` between them. */
  function Join(fields: seq<string>, sep: char): string
    requires |fields| >= 1
    decreases |fields|
  {
    if |fields| == 1 then fields[0] else fields[0] + [sep] + Join(fields[1..], sep)
  }

  lemma JoinThree(a: string, b: string, c: string, sep: char)
    ensures Join([a, b, c], sep) == a + [sep] + b + [sep] + c
  {
    assert [a, b, c][1..] == [b, c] && [b, c][1..] == [c];
    assert Join([c], sep) == c;
    assert Join([b, c], sep) == b + [sep] + c;
    assert a + [sep] + (b + [sep] + c) == a + [sep] + b + [sep] + c;
  }

  /** Splitting a string that begins with a separator-free field `a`. */
  lemma {:induction false} SplitOnPrefix(a: string, s: string, sep: char)
    requires sep !in a
    ensures SplitOn(a + s, sep) == [a + SplitOn(s, sep)[0]] + SplitOn(s, sep)[1..]
    decreases |a|
  {
    if a != [] {
      var t := a[1..] + s;
      assert a + s == [a[0]] + t;
      SplitOnPrefix(a[1..], s, sep);
      SplitOnCons(a[0], t, sep);
      assert [a[0]] + (a[1..] + SplitOn(s, sep)[0]) == a + SplitOn(s, sep)[0];
    } else {
      var r := SplitOn(s, sep);
      assert a + s == s && a + r[0] == r[0];
      assert r == [r[0]] + r[1..];
    }
  }

  /** Splitting a string that begins with a character other than the
      separator. */
  lemma SplitOnCons(c: char, t: string, sep: char)
    requires c != sep
    ensures SplitOn([c] + t, sep) == [[c] + SplitOn(t, sep)[0]] + SplitOn(t, sep)[1..]
  {
    assert ([c] + t)[1..] == t;
  }

  /** Splitting a join of separator-free fields gives back the fields. */
  lemma {:induction false} SplitJoin(fields: seq<string>, sep: char)
    requires |fields| >= 1
    requires forall i :: 0 <= i < |fields| ==> sep !in fields[i]
    ensures SplitOn(Join(fields, sep), sep) == fields
    decreases |fields|
  {
    if |fields| == 1 {
      SplitOnPrefix(fields[0], [], sep);
      assert SplitOn([], sep) == [[]];
      assert fields[0] + [] == fields[0];
      assert fields == [fields[0]];
    } else {
      var tail := Join(fields[1..], sep);
      SplitJoin(fields[1..], sep);
      assert Join(fields, sep) == fields[0] + ([sep] + tail);
      SplitOnPrefix(fields[0], [sep] + tail, sep);
      assert ([sep] + tail)[0] == sep && ([sep] + tail)[1..] == tail;
      assert SplitOn([sep] + tail, sep) == [[]] + fields[1..];
      assert fields[0] + [] == fields[0];
      assert fields == [fields[0]] + fields[1..];
    }
  }

  // ---------------------------------------------------------------------
  // Decimal digits

  predicate IsDigit(c: char) {
    '0' <= c <= '9'
  }

  predicate AllDigits(s: string) {
    forall i :: 0 <= i < |s| ==> IsDigit(s[i])
  }

  /** A digit string contains no separator character. */
  lemma NoSeparatorInDigits(s: string, sep: char)
    requires AllDigits(s) && !IsDigit(sep)
    ensures sep !in s
  {
  }

  function DigitValue(c: char): nat
    requires IsDigit(c)
  {
    c as int - '0' as int
  }

  function DigitChar(d: nat): (c: char)
    requires d < 10
    ensures IsDigit(c) && DigitValue(c) == d
  {
    ('0' as int + d) as char
  }

  function Pow10(n: nat): (p: nat)
    ensures p >= 1
  {
    if n == 0 then 1 else 10 * Pow10(n - 1)
  }

  /** The value of a string of decimal digits, most significant first;
      leading zeros are allowed and the empty string is 0. */
  function DigitsValue(s: string): nat
    requires AllDigits(s)
    decreases |s|
  {
    if s == [] then 0 else 10 * DigitsValue(s[..|s| - 1]) + DigitValue(s[|s| - 1])
  }

  /** The decimal numeral of `n`: digits only, and a leading zero only for
      zero itself. */
  function NatToString(n: nat): (r: string)
    ensures |r| >= 1 && AllDigits(r)
    ensures r[0] == '0' <==> n == 0
    ensures n == 0 ==> r == "0"
  {
    if n < 10 then [DigitChar(n)] else NatToString(n / 10) + [DigitChar(n % 10)]
  }

  /** Reading back a numeral gives the number it was written from. */
  lemma {:induction false} DigitsValueOfNatToString(n: nat)
    ensures DigitsValue(NatToString(n)) == n
  {
    if n >= 10 {
      var s := NatToString(n);
      assert s[..|s| - 1] == NatToString(n / 10);
      DigitsValueOfNatToString(n / 10);
    }
  }

  /** The value of a concatenation of digit strings. */
  lemma {:induction false} DigitsValueAppend(a: string, b: string)
    requires AllDigits(a) && AllDigits(b)
    ensures AllDigits(a + b)
    ensures DigitsValue(a + b) == DigitsValue(a) * Pow10(|b|) + DigitsValue(b)
    decreases |b|
  {
    if b == [] {
      assert a + b == a;
    } else {
      var b' := b[..|b| - 1];
      var d := DigitValue(b[|b| - 1]);
      assert (a + b)[..|a + b| - 1] == a + b' && (a + b)[|a + b| - 1] == b[|b| - 1];
      DigitsValueAppend(a, b');
      assert DigitsValue(a + b) == 10 * DigitsValue(a + b') + d;
      assert DigitsValue(b) == 10 * DigitsValue(b') + d;
      ShiftDigit(DigitsValue(a), Pow10(|b'|), DigitsValue(b'), d);
    }
  }

  lemma ShiftDigit(x: int, p: int, y: int, d: int)
    ensures 10 * (x * p + y) + d == x * (10 * p) + (10 * y + d)
  {
  }

  function Repeat(c: char, n: nat): (r: string)
    ensures |r| == n && forall i :: 0 <= i < n ==> r[i] == c
  {
    if n == 0 then [] else Repeat(c, n - 1) + [c]
  }

  /** A run of zeros is worth nothing. */
  lemma {:induction false} ZerosValue(n: nat)
    ensures AllDigits(Repeat('0', n)) && DigitsValue(Repeat('0', n)) == 0
  {
    if n > 0 {
      assert Repeat('0', n)[..n - 1] == Repeat('0', n - 1);
      ZerosValue(n - 1);
    }
  }

  /** `s` right-justified to `width` (padded on the left) with `fill` (Ruby's `rjust(width, fill)`;
      also the zero padding of `%d`-style date fields): `s` itself when it is
      already at least that wide, otherwise `s` preceded by just enough
      copies of `fill`. */
  function PadLeft(s: string, width: nat, fill: char): (r: string)
    ensures |r| == if |s| >= width then |s| else width
    ensures r[|r| - |s|..] == s
    ensures forall i :: 0 <= i < |r| - |s| ==> r[i] == fill
  {
    if |s| >= width then s else Repeat(fill, width - |s|) + s
  }

  /** Zero padding does not change the value of a digit string. */
  lemma ZeroPaddedDigits(s: string, width: nat)
    requires AllDigits(s)
    ensures AllDigits(PadLeft(s, width, '0'))
    ensures DigitsValue(PadLeft(s, width, '0')) == DigitsValue(s)
  {
    if |s| < width {
      var z := Repeat('0', width - |s|);
      assert PadLeft(s, width, '0') == z + s;
      ZerosValue(width - |s|);
      DigitsValueAppend(z, s);
      assert DigitsValue(z) * Pow10(|s|) == 0;
    }
  }

  /** Zero padding does not change the value of a numeral. */
  lemma ZeroPaddedValue(n: nat, width: nat)
    ensures AllDigits(PadLeft(NatToString(n), width, '0'))
    ensures DigitsValue(PadLeft(NatToString(n), width, '0')) == n
    ensures |NatToString(n)| <= width ==> |PadLeft(NatToString(n), width, '0')| == width
  {
    DigitsValueOfNatToString(n);
    ZeroPaddedDigits(NatToString(n), width);
  }

  /** A number below 10^k has at most k digits. */
  lemma {:induction false} NatToStringLength(n: nat, k: nat)
    requires n < Pow10(k)
    ensures |NatToString(n)| <= k || (n == 0 && k == 0)
  {
    if n >= 10 {
      assert k >= 1;
      NatToStringLength(n / 10, k - 1);
    } else if k == 0 {
      assert n == 0;
    }
  }
}
