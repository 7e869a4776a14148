/**
 * Numerals in radix 16 and radix 10: the digit alphabets, the value a
 * numeral denotes, parsing (the subset of Python's `int(s, 16)` the bridge
 * relies on) and printing (Python's `str(n)` for a natural number).
 */
module Numerals {
  import opened Wrappers

  datatype Radix = Hex | Dec

  function Base(radix: Radix): (b: nat)
    ensures b >= 2
  {
    match radix
    case Hex => 16
    case Dec => 10
  }

  /** The value of one digit character, or None when `c` is not a digit of
      the radix. Hex digits are accepted in either case. */
  function DigitValue(radix: Radix, c: char): (d: Option<nat>)
    ensures d.Some? ==> d.value < Base(radix)
  {
    if '0' <= c <= '9' then Some(c as nat - '0' as nat)
    else if radix == Dec then None
    else if 'a' <= c <= 'f' then Some(c as nat - 'a' as nat + 10)
    else if 'A' <= c <= 'F' then Some(c as nat - 'A' as nat + 10)
    else None
  }

  predicate AllDigits(radix: Radix, s: string) {
    forall i :: 0 <= i < |s| ==> DigitValue(radix, s[i]).Some?
  }

  /** A numeral: one or more digits of the radix, nothing else. */
  predicate IsNumeral(radix: Radix, s: string) {
    |s| > 0 && AllDigits(radix, s)
  }

  function Pow(b: nat, k: nat): nat {
    if k == 0 then 1 else b * Pow(b, k - 1)
  }

  /** Reference value of a digit string: the positional sum
      d0 * B^(n-1) + d1 * B^(n-2) + ... + d(n-1), read from the most
      significant digit. */
  function Value(radix: Radix, s: string): nat
    requires AllDigits(radix, s)
  {
    if s == [] then 0
    else DigitValue(radix, s[0]).value * Pow(Base(radix), |s| - 1) + Value(radix, s[1..])
  }

  lemma AllDigitsSlice(radix: Radix, s: string, i: nat, j: nat)
    requires AllDigits(radix, s) && i <= j <= |s|
    ensures AllDigits(radix, s[i..j])
  {
    forall k | 0 <= k < j - i ensures DigitValue(radix, s[i..j][k]).Some? {
      assert s[i..j][k] == s[i + k];
    }
  }

  lemma SnocArithmetic(b: nat, k: nat, d0: nat, vt: nat, vtp: nat, dl: nat)
    requires vt == b * vtp + dl
    ensures d0 * (b * Pow(b, k)) + vt == b * (d0 * Pow(b, k) + vtp) + dl
  {
    assert d0 * (b * Pow(b, k)) == b * (d0 * Pow(b, k));
  }

  /** Appending a digit multiplies the value by the base and adds the digit. */
  lemma {:induction false} ValueSnoc(radix: Radix, s: string)
    requires |s| > 0 && AllDigits(radix, s)
    ensures AllDigits(radix, s[..|s| - 1])
    ensures Value(radix, s) == Base(radix) * Value(radix, s[..|s| - 1]) + DigitValue(radix, s[|s| - 1]).value
  {
    AllDigitsSlice(radix, s, 0, |s| - 1);
    if |s| == 1 {
      assert s[..0] == [];
      assert s[1..] == [];
    } else {
      var b := Base(radix);
      var t := s[1..];
      var p := s[..|s| - 1];
      AllDigitsSlice(radix, s, 1, |s|);
      ValueSnoc(radix, t);
      assert p[0] == s[0];
      assert p[1..] == t[..|t| - 1];
      assert t[|t| - 1] == s[|s| - 1];
      var d0 := DigitValue(radix, s[0]).value;
      var k := |t| - 1;
      assert Pow(b, |t|) == b * Pow(b, k);
      assert Value(radix, s) == d0 * (b * Pow(b, k)) + Value(radix, t);
      assert Value(radix, p) == d0 * Pow(b, k) + Value(radix, t[..k]);
      SnocArithmetic(b, k, d0, Value(radix, t), Value(radix, t[..k]), DigitValue(radix, t[k]).value);
    }
  }

  /**
   * Parse a numeral, scanning digits from the left and accumulating
   * (Horner's rule). Fails on the empty string and on any character
   * that is not a digit of the radix.
   */
  function Parse(radix: Radix, s: string): (r: Option<nat>)
    ensures r.Some? <==> IsNumeral(radix, s)
    ensures r.Some? ==> r.value == Value(radix, s)
    decreases |s|
  {
    if |s| == 0 then None
    else
      var p := s[..|s| - 1];
      var d := DigitValue(radix, s[|s| - 1]);
      if d.None? then None
      else if |s| == 1 then
        assert s[1..] == [];
        Some(d.value)
      else
        match Parse(radix, p)
        case None =>
          assert !AllDigits(radix, s) by {
            var i :| 0 <= i < |p| && DigitValue(radix, p[i]).None?;
            assert p[i] == s[i];
          }
          None
        case Some(v) =>
          assert AllDigits(radix, s) by {
            forall i | 0 <= i < |s| ensures DigitValue(radix, s[i]).Some? {
              if i < |p| { assert p[i] == s[i]; }
            }
          }
          ValueSnoc(radix, s);
          Some(Base(radix) * v + d.value)
  }

  /** Horner's step: one more digit on the right. */
  lemma ParseSnoc(radix: Radix, s: string, c: char)
    requires Parse(radix, s).Some? && DigitValue(radix, c).Some?
    ensures Parse(radix, s + [c]) == Some(Base(radix) * Parse(radix, s).value + DigitValue(radix, c).value)
  {
    assert (s + [c])[..|s|] == s;
  }

  function DecimalDigit(d: nat): (c: char)
    requires d < 10
    ensures DigitValue(Dec, c) == Some(d)
  {
    ('0' as nat + d) as char
  }

  /** Canonical numeral: no leading zero, except the numeral "0" itself. */
  predicate IsCanonical(s: string) {
    |s| > 0 && (s[0] == '0' ==> s == "0")
  }

  /**
   * The decimal rendering of a natural number, as Python's `str` gives it:
   * a canonical decimal numeral denoting `n`.
   */
  function DecimalString(n: nat): (r: string)
    ensures IsNumeral(Dec, r) && IsCanonical(r)
    ensures Value(Dec, r) == n
  {
    if n < 10 then
      var r := [DecimalDigit(n)];
      assert r[1..] == [];
      r
    else
      var p := DecimalString(n / 10);
      var r := p + [DecimalDigit(n % 10)];
      assert r[..|r| - 1] == p;
      assert AllDigits(Dec, r) by {
        forall i | 0 <= i < |r| ensures DigitValue(Dec, r[i]).Some? {
          if i < |p| { assert r[i] == p[i]; }
        }
      }
      ValueSnoc(Dec, r);
      r
  }

  /** Parsing the printed decimal gives the number back. */
  lemma DecimalRoundTrip(n: nat)
    ensures Parse(Dec, DecimalString(n)) == Some(n)
  {
  }

  /** A numeral whose leading digit is not zero denotes a positive number. */
  lemma {:induction false} LeadingDigitPositive(radix: Radix, s: string)
    requires IsNumeral(radix, s) && s[0] != '0'
    ensures Value(radix, s) >= 1
  {
    var d0 := DigitValue(radix, s[0]).value;
    assert d0 >= 1;
    PowPositive(Base(radix), |s| - 1);
    assert d0 * Pow(Base(radix), |s| - 1) >= 1;
  }

  lemma {:induction false} PowPositive(b: nat, k: nat)
    requires b >= 1
    ensures Pow(b, k) >= 1
  {
    if k > 0 {
      PowPositive(b, k - 1);
    }
  }

  /**
   * The converse of the round trip: a canonical decimal numeral is the
   * printing of the number it denotes, so `DecimalString` is the only
   * canonical spelling of each number.
   */
  lemma {:induction false} CanonicalDecimalUnique(s: string)
    requires IsNumeral(Dec, s) && IsCanonical(s)
    ensures DecimalString(Value(Dec, s)) == s
    decreases |s|
  {
    var c := s[|s| - 1];
    var d := DigitValue(Dec, c).value;
    assert DecimalDigit(d) == c;
    if |s| == 1 {
      assert s[1..] == [];
      assert Value(Dec, s) == d;
    } else {
      var p := s[..|s| - 1];
      ValueSnoc(Dec, s);
      assert p[0] == s[0];
      LeadingDigitPositive(Dec, p);
      CanonicalDecimalUnique(p);
      var n := Value(Dec, s);
      var v := Value(Dec, p);
      assert n == 10 * v + d;
      assert n / 10 == v && n % 10 == d;
      assert s == p + [c];
    }
  }

  /** Hex digits of either case denote the same value. */
  lemma HexCaseInsensitive(c: char)
    requires 'a' <= c <= 'f'
    ensures DigitValue(Hex, c) == DigitValue(Hex, (c as int - 32) as char)
  {
  }
}
