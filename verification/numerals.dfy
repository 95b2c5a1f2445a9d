/** Characters, decimal numerals and their values: the parts of Java's
    `Character.isDigit`, `Double.parseDouble` and `String.format("%d", …)`
    that the calculator exercises. */
module Numerals {
  import opened Wrappers

  /** An ASCII decimal digit. */
  predicate IsDigit(c: char) {
    '0' <= c <= '9'
  }

  /** A character that the tokenizer accumulates into a number: a digit or `.`. */
  predicate IsNumeral(c: char) {
    IsDigit(c) || c == '.'
  }

  predicate AllDigits(s: string) {
    forall i :: 0 <= i < |s| ==> IsDigit(s[i])
  }

  predicate AllNumerals(s: string) {
    forall i :: 0 <= i < |s| ==> IsNumeral(s[i])
  }

  predicate HasDigit(s: string) {
    exists i :: 0 <= i < |s| && IsDigit(s[i])
  }

  /** True when `s` holds `.` at two different positions. */
  predicate HasTwoDots(s: string) {
    exists i, j :: 0 <= i < j < |s| && s[i] == '.' && s[j] == '.'
  }

  function DigitValue(c: char): nat
    requires IsDigit(c)
  {
    (c - '0') as nat
  }

  function DigitChar(d: nat): (c: char)
    requires d < 10
    ensures IsDigit(c) && DigitValue(c) == d
  {
    ('0' as int + d) as char
  }

  function Pow10(n: nat): (r: nat)
    ensures r >= 1
  {
    if n == 0 then 1 else 10 * Pow10(n - 1)
  }

  /** The value of a string of digits read in base ten (the empty string reads as 0). */
  function DigitsValue(s: string): nat
    requires AllDigits(s)
  {
    if s == [] then 0 else 10 * DigitsValue(s[..|s| - 1]) + DigitValue(s[|s| - 1])
  }

  /** The value of `I.F` for digit strings `I` and `F`: I + F / 10^|F|. */
  function PointedValue(whole: string, fraction: string): (r: real)
    requires AllDigits(whole) && AllDigits(fraction)
    ensures r >= 0.0
  {
    DigitsValue(whole) as real + DigitsValue(fraction) as real / Pow10(|fraction|) as real
  }

  /** The canonical decimal form of a natural number: no sign, no leading zero. */
  function NatToString(n: nat): (r: string)
    ensures |r| > 0 && AllDigits(r)
    ensures DigitsValue(r) == n
    ensures r[0] == '0' ==> r == "0"
  {
    if n < 10 then [DigitChar(n)]
    else
      var prefix := NatToString(n / 10);
      var r := prefix + [DigitChar(n % 10)];
      assert r[..|r| - 1] == prefix;
      r
  }

  /** Drops one leading minus sign. */
  function Magnitude(s: string): string {
    if |s| > 0 && s[0] == '-' then s[1..] else s
  }

  /** `String.format("%d", i)`: an optional minus sign followed by the
      canonical digits of |i|; zero is "0", never "-0". */
  function IntToString(i: int): (r: string)
    ensures |r| > 0
    ensures r[0] == '-' <==> i < 0
    ensures AllDigits(Magnitude(r)) && |Magnitude(r)| > 0
    ensures DigitsValue(Magnitude(r)) == if i < 0 then -i else i
    ensures Magnitude(r)[0] == '0' ==> Magnitude(r) == "0"
  {
    if i < 0 then "-" + NatToString(-i) else NatToString(i)
  }

  /** The position of the first occurrence of `c` in `s`, if any. */
  function IndexOf(s: string, c: char): (r: Option<nat>)
    ensures r.Some? ==> r.value < |s| && s[r.value] == c
    ensures r.Some? ==> forall i :: 0 <= i < r.value ==> s[i] != c
    ensures r.None? ==> forall i :: 0 <= i < |s| ==> s[i] != c
  {
    if s == [] then None
    else if s[0] == c then Some(0)
    else match IndexOf(s[1..], c)
      case None => None
      case Some(k) => Some(k + 1)
  }

  /** `Double.parseDouble` on a string of digits and points, computed exactly:
      `I`, `I.`, `.F` and `I.F` are accepted; a string with no digit or with
      two points raises NumberFormatException, modelled as None. */
  function ParseNumeral(t: string): (r: Option<real>)
    requires AllNumerals(t)
    ensures r.Some? ==> r.value >= 0.0
  {
    match IndexOf(t, '.')
    case None =>
      assert AllDigits(t);
      if t == [] then None else Some(DigitsValue(t) as real)
    case Some(k) =>
      var whole, fraction := t[..k], t[k + 1..];
      assert AllDigits(whole);
      match IndexOf(fraction, '.')
      case Some(_) => None
      case None =>
        assert AllDigits(fraction);
        if |whole| + |fraction| == 0 then None else Some(PointedValue(whole, fraction))
  }

  /** `parseDouble` accepts a string of digits and points exactly when it has
      a digit and at most one point. */
  lemma ParseNumeralAccepts(t: string)
    requires AllNumerals(t)
    ensures ParseNumeral(t).Some? <==> HasDigit(t) && !HasTwoDots(t)
  {
    match IndexOf(t, '.')
    case None =>
      if t != [] {
        assert IsDigit(t[0]);
      }
    case Some(k) =>
      var fraction := t[k + 1..];
      match IndexOf(fraction, '.')
      case Some(j) =>
        assert t[k] == '.' && t[k + 1 + j] == '.';
      case None =>
        assert forall i :: k < i < |t| ==> t[i] == fraction[i - k - 1];
        if k + 1 == |t| && k == 0 {
          assert t == ".";
        } else if k > 0 {
          assert IsDigit(t[0]);
        } else {
          assert IsDigit(t[k + 1]);
        }
  }

  /** A string of digits contains no point. */
  lemma DigitsHaveNoPoint(s: string)
    requires AllDigits(s)
    ensures IndexOf(s, '.') == None
  {
  }

  /** A canonical digit string parses back to the number it was printed from. */
  lemma NatToStringParses(n: nat)
    ensures ParseNumeral(NatToString(n)) == Some(n as real)
  {
    DigitsParse(NatToString(n));
  }

  /** A string of digits parses to its base-ten value. */
  lemma DigitsParse(s: string)
    requires |s| > 0 && AllDigits(s)
    ensures ParseNumeral(s) == Some(DigitsValue(s) as real)
  {
    DigitsHaveNoPoint(s);
  }

  /** In `I.F` with a digit string `I`, the first point is the one after `I`. */
  lemma FirstPointAfterDigits(whole: string, rest: string)
    requires AllDigits(whole) && |rest| > 0 && rest[0] == '.'
    ensures IndexOf(whole + rest, '.') == Some(|whole|)
  {
    assert (whole + rest)[|whole|] == '.';
  }

  /** `I.F` with digit strings `I` and `F` parses to I + F / 10^|F|. */
  lemma PointedParse(whole: string, fraction: string)
    requires AllDigits(whole) && AllDigits(fraction) && |whole| + |fraction| > 0
    ensures ParseNumeral(whole + "." + fraction) == Some(PointedValue(whole, fraction))
  {
    var t := whole + "." + fraction;
    assert AllNumerals(t) by {
      forall i | 0 <= i < |t| ensures IsNumeral(t[i]) {
        if i < |whole| { assert t[i] == whole[i]; }
        else if i > |whole| { assert t[i] == fraction[i - |whole| - 1]; }
      }
    }
    FirstPointAfterDigits(whole, "." + fraction);
    assert t == whole + ("." + fraction);
    assert t[..|whole|] == whole;
    assert t[|whole| + 1..] == fraction;
    DigitsHaveNoPoint(fraction);
  }
}
