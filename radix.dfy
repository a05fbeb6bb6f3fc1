/**
 * The integer-text conversions of the Rust standard library that the decoder uses:
 * `char::to_digit`, `u32::from_str_radix` and `u32::to_string`.
 *
 * Text is a sequence of characters; the model assumes ASCII text, for which Rust's
 * byte length is the character count.
 */
module Radix {
  import opened Wrappers
  import opened Bits

  function Pow(b: nat, n: nat): (r: nat)
    ensures b >= 1 ==> r >= 1
  {
    if n == 0 then 1 else b * Pow(b, n - 1)
  }

  /**
   * `char::to_digit(radix)`: '0'..'9' stand for 0..9, and letters of either case for
   * 10..35; a character whose value is not below the radix is not a digit.
   */
  function DigitValue(c: char, radix: nat): (r: Option<nat>)
    requires 2 <= radix <= 36
    ensures r.Some? ==> r.value < radix
  {
    var v :=
      if '0' <= c <= '9' then c as int - '0' as int
      else if 'a' <= c <= 'z' then c as int - 'a' as int + 10
      else if 'A' <= c <= 'Z' then c as int - 'A' as int + 10
      else radix;
    if v < radix then Some(v) else None
  }

  /** Every character of s is a digit in the radix. */
  ghost predicate IsDigits(s: seq<char>, radix: nat)
    requires 2 <= radix <= 36
  {
    forall i :: 0 <= i < |s| ==> DigitValue(s[i], radix).Some?
  }

  /** The value of s read as digits, most significant first (Horner's rule), if every character is a digit. */
  function DigitsValue(s: seq<char>, radix: nat): (r: Option<nat>)
    requires 2 <= radix <= 36
    ensures r.Some? ==> r.value < Pow(radix, |s|)
  {
    if |s| == 0 then Some(0)
    else
      match (DigitsValue(s[..|s| - 1], radix), DigitValue(s[|s| - 1], radix))
      case (Some(v), Some(d)) =>
        HornerBound(v, d, Pow(radix, |s| - 1), radix);
        Some(v * radix + d)
      case _ => None
  }

  /** Reading one more digit of s multiplies the value of the prefix read so far by the radix and adds the digit. */
  lemma DigitsValuePrefix(s: seq<char>, k: nat, radix: nat)
    requires 2 <= radix <= 36 && k < |s|
    ensures DigitsValue(s[..k + 1], radix)
         == if DigitsValue(s[..k], radix).Some? && DigitValue(s[k], radix).Some?
            then Some(DigitsValue(s[..k], radix).value * radix + DigitValue(s[k], radix).value)
            else None
  {
    assert s[..k + 1][..k] == s[..k];
  }

  lemma MulLeq(a: nat, b: nat, c: nat)
    requires a <= b
    ensures a * c <= b * c
  {
    assert b * c - a * c == (b - a) * c;
  }

  /** One more digit keeps a value below the next power of the radix. */
  lemma HornerBound(v: nat, d: nat, p: nat, radix: nat)
    requires v < p && d < radix
    ensures v * radix + d < radix * p
  {
    MulLeq(v, p - 1, radix);
    assert (p - 1) * radix == radix * p - radix;
  }

  /**
   * `u32::from_str_radix(s, radix)`: the empty text and a lone sign are errors, one
   * leading '+' is allowed, every other character must be a digit, and the value
   * must fit in 32 bits.
   */
  function FromStrRadix(s: seq<char>, radix: nat): (r: Option<nat>)
    requires 2 <= radix <= 36
    ensures r.Some? ==> r.value <= U32Max
  {
    if |s| == 0 then None
    else
      var digits := if s[0] == '+' then s[1..] else s;
      if |digits| == 0 then None
      else
        match DigitsValue(digits, radix)
        case Some(v) => if v <= U32Max then Some(v) else None
        case None => None
  }

  function DecimalDigit(d: nat): (c: char)
    requires d < 10
  {
    ('0' as int + d) as char
  }

  /** `u32::to_string`: the decimal text of n, without leading zeros. */
  function ToDecimal(n: nat): (r: seq<char>)
    ensures |r| >= 1
    ensures n < 10 ==> r == [DecimalDigit(n)]
  {
    if n < 10 then [DecimalDigit(n)] else ToDecimal(n / 10) + [DecimalDigit(n % 10)]
  }

  /** Digits are exactly the texts that have a value. */
  lemma {:induction false} DigitsValueDefined(s: seq<char>, radix: nat)
    requires 2 <= radix <= 36
    ensures DigitsValue(s, radix).Some? <==> IsDigits(s, radix)
  {
    if |s| > 0 {
      var init := s[..|s| - 1];
      DigitsValueDefined(init, radix);
      assert forall i :: 0 <= i < |init| ==> init[i] == s[i];
    }
  }

  /** Reading a + b is reading a, shifting by |b| digits, and adding the value of b. */
  lemma {:induction false} DigitsValueAppend(a: seq<char>, b: seq<char>, radix: nat)
    requires 2 <= radix <= 36
    requires DigitsValue(a, radix).Some? && DigitsValue(b, radix).Some?
    ensures DigitsValue(a + b, radix)
         == Some(DigitsValue(a, radix).value * Pow(radix, |b|) + DigitsValue(b, radix).value)
  {
    var va := DigitsValue(a, radix).value;
    if |b| == 0 {
      assert a + b == a;
    } else {
      var init, last := b[..|b| - 1], b[|b| - 1];
      var d := DigitValue(last, radix).value;
      assert DigitsValue(init, radix).Some?;
      var vi := DigitsValue(init, radix).value;
      assert DigitsValue(b, radix) == Some(vi * radix + d);
      DigitsValueAppend(a, init, radix);
      assert DigitsValue(a + b, radix) == Some((va * Pow(radix, |init|) + vi) * radix + d) by {
        assert (a + b)[..|a + b| - 1] == a + init;
        assert (a + b)[|a + b| - 1] == last;
      }
      var p := Pow(radix, |init|);
      assert Pow(radix, |b|) == radix * p;
      HornerShift(va, p, vi, d, radix);
      assert va * Pow(radix, |b|) == va * (radix * p);
    }
  }

  lemma HornerShift(va: nat, p: nat, vi: nat, d: nat, radix: nat)
    ensures (va * p + vi) * radix + d == va * (radix * p) + (vi * radix + d)
  {
  }

  /** A leading zero does not change the value. */
  lemma LeadingZero(s: seq<char>, radix: nat)
    requires 2 <= radix <= 36
    requires DigitsValue(s, radix).Some?
    ensures DigitsValue(['0'] + s, radix) == DigitsValue(s, radix)
  {
    assert DigitsValue(['0'], radix) == Some(0) by {
      assert ['0'][..0] == [];
    }
    DigitsValueAppend(['0'], s, radix);
  }

  /** Text that starts with a digit carries no sign, so `from_str_radix` reads it as digits. */
  lemma FromStrRadixOfDigits(s: seq<char>, radix: nat)
    requires 2 <= radix <= 36
    requires |s| > 0 && IsDigits(s, radix)
    requires DigitsValue(s, radix).Some? && DigitsValue(s, radix).value <= U32Max
    ensures FromStrRadix(s, radix) == DigitsValue(s, radix)
  {
    assert DigitValue(s[0], radix).Some?;
  }

  /** `to_string` followed by a decimal parse gives the number back. */
  lemma {:induction false} DecimalRoundTrip(n: nat)
    ensures DigitsValue(ToDecimal(n), 10) == Some(n)
  {
    if n >= 10 {
      DecimalRoundTrip(n / 10);
      var t := ToDecimal(n);
      assert t[..|t| - 1] == ToDecimal(n / 10);
    }
  }

  /** A decimal digit read in a radix up to ten is that digit when it is below the radix, and no digit otherwise. */
  lemma DecimalDigitInRadix(d: nat, radix: nat)
    requires d < 10 && 2 <= radix <= 10
    ensures DigitValue(DecimalDigit(d), radix) == if d < radix then Some(d) else None
  {
  }
}
