/**
 * Decoding of the text argument of `modify_hexbitmap`: an H3 cell index written as
 * 15 or 16 hexadecimal characters.
 *
 * The index is read as two 32-bit words. The high word must carry the mode byte 8
 * (reserved bit 0, index mode 1, mode-dependent bits 0) and a resolution of at
 * least 9; the low word holds, in its bits 18 to 29, the four 3-bit child digits of
 * resolutions 6 to 9, which are read as one base-7 number: the offset of the
 * resolution 9 cell inside its resolution 5 ancestor.
 */
module IndexDecoder {
  import opened Wrappers
  import opened Bits
  import opened Radix
  import opened MapperErrors

  /** Number of resolution 9 descendants of a resolution 5 cell: 7^4. */
  const ChildCount: nat := 2401

  /** The powers of two at the field boundaries used below. */
  lemma Pow2Table()
    ensures Pow2(0) == 1 && Pow2(1) == 2 && Pow2(3) == 8 && Pow2(4) == 16 && Pow2(6) == 64
    ensures Pow2(7) == 0x80 && Pow2(8) == 0x100 && Pow2(9) == 0x200 && Pow2(12) == 0x1000
    ensures Pow2(18) == 0x4_0000 && Pow2(20) == 0x10_0000 && Pow2(21) == 0x20_0000
    ensures Pow2(24) == 0x100_0000 && Pow2(27) == 0x800_0000 && Pow2(32) == 0x1_0000_0000
    ensures Pow2(45) == 0x2000_0000_0000 && Pow2(52) == 0x10_0000_0000_0000
    ensures Pow2(56) == 0x100_0000_0000_0000 && Pow2(59) == 0x800_0000_0000_0000
    ensures Pow2(63) == 0x8000_0000_0000_0000
  {
    assert Pow2(12) == 0x1000;
    assert Pow2(24) == 0x100_0000;
    assert Pow2(36) == 0x10_0000_0000;
    assert Pow2(48) == 0x1_0000_0000_0000;
    assert Pow2(60) == 0x1000_0000_0000_0000;
  }

  /** The child digits of resolutions 6, 7, 8 and 9. */
  datatype Digits = Digits(r6: nat, r7: nat, r8: nat, r9: nat) {

    /** Each digit fits its 3-bit field. */
    predicate InField() {
      r6 < 8 && r7 < 8 && r8 < 8 && r9 < 8
    }

    /** Each digit is a base-7 digit (7 is the digit H3 leaves unused). */
    predicate IsBase7() {
      r6 < 7 && r7 < 7 && r8 < 7 && r9 < 7
    }
  }

  /** What `modify_hexbitmap` makes of its text before it looks at the bitmap. */
  datatype Decoded =
    | Rejected(error: MyError)  // returned to the caller as an error
    | Unparsed                  // the low word or the base-7 text did not parse: logged, and the call returns Ok
    | Child(offset: nat)        // the bit of the bitmap to test and set

  /** The text with the assumed leading zero of a 15-character index restored; any other length but 16 is refused. */
  function Normalize(s: seq<char>): (r: Option<seq<char>>)
    ensures r.Some? <==> |s| == 15 || |s| == 16
    ensures r.Some? ==> |r.value| == 16 && r.value[16 - |s|..] == s
    ensures r.Some? && |s| == 15 ==> r.value[0] == '0'
  {
    if |s| == 15 then Some(['0'] + s)
    else if |s| == 16 then Some(s)
    else None
  }

  /** Bits 24 to 31 of the high word: the reserved bit, index mode and mode-dependent bits, as one byte. */
  function ModeByte(high: nat): (m: nat)
    ensures m < 0x100
  {
    (high / 0x100_0000) % 0x100
  }

  /** The program extracts the mode byte as `(high >> 24) & 0xFF`. */
  lemma ModeByteShiftMask(high: nat)
    ensures ModeByte(high) == And(Shr(high, 24), 0xFF)
  {
    Pow2Table();
    ShrThenMask(high, 24, 8);
  }

  /** Bits 20 to 23 of the high word: the resolution. */
  function ResolutionNibble(high: nat): (res: nat)
    ensures res < 0x10
  {
    (high / 0x10_0000) % 0x10
  }

  /** The program extracts the resolution as `(high >> 20) & 0xF`. */
  lemma ResolutionShiftMask(high: nat)
    ensures ResolutionNibble(high) == And(Shr(high, 20), 0xF)
  {
    Pow2Table();
    ShrThenMask(high, 20, 4);
  }

  /**
   * The checks on the high eight characters: they must parse as a 32-bit hexadecimal
   * word whose top byte is 8, and then the resolution below that byte must be at
   * least 9. None means both checks pass.
   */
  function HighWordCheck(high: seq<char>): (r: Option<MyError>)
    ensures r == match FromStrRadix(high, 16)
      case None => Some(InvalidCell)
      case Some(sk) =>
        if And(Shr(sk, 24), 0xFF) != 8 then Some(InvalidCell)
        else if And(Shr(sk, 20), 0xF) < 9 then Some(IncorrectRes9)
        else None
  {
    match FromStrRadix(high, 16)
    case None => Some(InvalidCell)
    case Some(sk) =>
      ModeByteShiftMask(sk);
      ResolutionShiftMask(sk);
      if ModeByte(sk) != 8 then Some(InvalidCell)
      else if ResolutionNibble(sk) < 9 then Some(IncorrectRes9)
      else None
  }

  /** On a parsed word the mode byte is the word's top byte, so the checks read as plain division. */
  lemma HighWordDecision(high: seq<char>)
    ensures HighWordCheck(high) == match FromStrRadix(high, 16)
      case None => Some(InvalidCell)
      case Some(w) =>
        if w / 0x100_0000 != 8 then Some(InvalidCell)
        else if (w / 0x10_0000) % 0x10 < 9 then Some(IncorrectRes9)
        else None
  {
  }

  /** `(low >> 18) & 0xFFF`: the twelve bits that hold the digits of resolutions 6 to 9. */
  function ChildField(low: nat): (b: nat)
    ensures b < 0x1000
  {
    (low / 0x4_0000) % 0x1000
  }

  /** The program extracts the child field as `(low >> 18) & 0xFFF`. */
  lemma ChildFieldShiftMask(low: nat)
    ensures ChildField(low) == And(Shr(low, 18), 0xFFF)
  {
    Pow2Table();
    ShrThenMask(low, 18, 12);
  }

  /** The four 3-bit digits of the twelve-bit field, resolution 9 in the lowest bits. */
  function ChildDigits(b: nat): (d: Digits)
    ensures d.InField()
  {
    Digits((b / 512) % 8, (b / 64) % 8, (b / 8) % 8, b % 8)
  }

  /**
   * The program extracts the digits as `(b & 0b111000000000) >> 9`, `(b & 0b111000000) >> 6`,
   * `(b & 0b111000) >> 3` and `b & 0b111`.
   */
  lemma ChildDigitsShiftMask(b: nat)
    ensures ChildDigits(b) == Digits(Shr(And(b, 0xE00), 9), Shr(And(b, 0x1C0), 6), Shr(And(b, 0x38), 3), Shr(And(b, 0x7), 0))
  {
    DigitField(b, 0, 0x7, 1);
    DigitField(b, 3, 0x38, 8);
    DigitField(b, 6, 0x1C0, 64);
    DigitField(b, 9, 0xE00, 512);
  }

  /** `(b & (0b111 << k)) >> k` is the 3-bit field of b at bit k. */
  lemma DigitField(b: nat, k: nat, mask: nat, unit: nat)
    requires k <= 9 && mask == Shl(7, k) && unit == Pow2(k)
    ensures Shr(And(b, mask), k) == (b / unit) % 8
  {
    assert Pow2(3) - 1 == 7;
    MaskThenShr(b, k, 3);
  }

  /** `format!("{}{}{}{}", r6, r7, r8, r9)`. */
  function Base7Text(d: Digits): (t: seq<char>)
    ensures d.InField() ==> t == [DecimalDigit(d.r6), DecimalDigit(d.r7), DecimalDigit(d.r8), DecimalDigit(d.r9)]
  {
    ToDecimal(d.r6) + ToDecimal(d.r7) + ToDecimal(d.r8) + ToDecimal(d.r9)
  }

  /** The mixed-radix offset of the digits: r6 * 7^3 + r7 * 7^2 + r8 * 7 + r9. */
  function Offset(d: Digits): (c: nat)
    ensures d.IsBase7() ==> c < ChildCount
  {
    d.r6 * 343 + d.r7 * 49 + d.r8 * 7 + d.r9
  }

  /** The digits of an offset below 7^4, most significant first. */
  function OffsetDigits(c: nat): (d: Digits)
    ensures d.IsBase7()
  {
    Digits(c / 343 % 7, c / 49 % 7, c / 7 % 7, c % 7)
  }

  /** Reading an offset's digits back gives the offset: every offset below 7^4 is some child's. */
  lemma OffsetDigitsRoundTrip(c: nat)
    requires c < ChildCount
    ensures Offset(OffsetDigits(c)) == c
  {
    var q1, q2, q3 := c / 7, c / 49, c / 343;
    DivDiv(c, 7, 7);
    DivDiv(c, 49, 7);
    assert q2 == q1 / 7 && q3 == q2 / 7;
    assert q3 < 7;
    assert q1 == q2 * 7 + q1 % 7 && q2 == q3 * 7 + q2 % 7 && c == q1 * 7 + c % 7;
  }

  /** The digits of an offset are the digits it was computed from. */
  lemma OffsetRoundTrip(d: Digits)
    requires d.IsBase7()
    ensures OffsetDigits(Offset(d)) == d
  {
    var c := Offset(d);
    var q1, q2 := (d.r6 * 7 + d.r7) * 7 + d.r8, d.r6 * 7 + d.r7;
    DivModUnique(c, 7, q1, d.r9);
    DivModUnique(q1, 7, q2, d.r8);
    DivModUnique(q2, 7, d.r6, d.r7);
    DivDiv(c, 7, 7);
    DivDiv(c, 49, 7);
  }

  /** Distinct children have distinct offsets, so each one has its own bit. */
  lemma OffsetInjective(d: Digits, e: Digits)
    requires d.IsBase7() && e.IsBase7()
    ensures Offset(d) == Offset(e) <==> d == e
  {
    if Offset(d) == Offset(e) {
      OffsetRoundTrip(d);
      OffsetRoundTrip(e);
    }
  }

  /** Parsing the digits' text in base 7 gives their offset, and fails exactly when some digit is 7. */
  lemma Base7TextValue(d: Digits)
    requires d.InField()
    ensures FromStrRadix(Base7Text(d), 7) == if d.IsBase7() then Some(Offset(d)) else None
  {
    var c6, c7, c8, c9 := DecimalDigit(d.r6), DecimalDigit(d.r7), DecimalDigit(d.r8), DecimalDigit(d.r9);
    var t := [c6, c7, c8, c9];
    assert Base7Text(d) == t;
    DecimalDigitInRadix(d.r6, 7);
    DecimalDigitInRadix(d.r7, 7);
    DecimalDigitInRadix(d.r8, 7);
    DecimalDigitInRadix(d.r9, 7);
    assert t[..3] == [c6, c7, c8] && [c6, c7, c8][..2] == [c6, c7] && [c6, c7][..1] == [c6] && [c6][..0] == [];
    assert DigitsValue([c6], 7) == DigitValue(c6, 7);
    if d.IsBase7() {
      assert DigitsValue([c6, c7], 7) == Some(d.r6 * 7 + d.r7);
      assert DigitsValue([c6, c7, c8], 7) == Some((d.r6 * 7 + d.r7) * 7 + d.r8);
      assert DigitsValue(t, 7) == Some(((d.r6 * 7 + d.r7) * 7 + d.r8) * 7 + d.r9);
      FromStrRadixOfDigits(t, 7);
    }
  }

  /** The digits 0000 are written "0000" and read back as offset 0, the first child. */
  lemma FirstChildText()
    ensures Base7Text(Digits(0, 0, 0, 0)) == "0000" && FromStrRadix("0000", 7) == Some(0)
  {
    RepeatedDigit(Digits(0, 0, 0, 0), 0, "0000");
  }

  /** The digits 6666 are written "6666" and read back as offset 2400, the last child. */
  lemma LastChildText()
    ensures Base7Text(Digits(6, 6, 6, 6)) == "6666" && FromStrRadix("6666", 7) == Some(ChildCount - 1)
  {
    RepeatedDigit(Digits(6, 6, 6, 6), 6, "6666");
  }

  /** The digit k at all four resolutions is written as four copies of k, and read back as its offset. */
  lemma RepeatedDigit(d: Digits, k: nat, t: seq<char>)
    requires k < 7 && d == Digits(k, k, k, k)
    requires t == [DecimalDigit(k), DecimalDigit(k), DecimalDigit(k), DecimalDigit(k)]
    ensures Base7Text(d) == t && FromStrRadix(t, 7) == Some(Offset(d))
  {
    Base7TextValue(d);
  }

  /** The twelve-bit field holding the given digits, resolution 9 in the lowest bits: the inverse of ChildDigits. */
  function ChildBits(d: Digits): nat
  {
    d.r6 * 512 + d.r7 * 64 + d.r8 * 8 + d.r9
  }

  /** Splitting a packed field gives back the digits that were packed. */
  lemma ChildDigitsRoundTrip(d: Digits)
    requires d.InField()
    ensures ChildBits(d) < 0x1000
    ensures ChildDigits(ChildBits(d)) == d
  {
    var b := ChildBits(d);
    var q2 := d.r6 * 8 + d.r7;
    var q1 := q2 * 8 + d.r8;
    assert b % 8 == d.r9 && b / 8 == q1 by {
      DivModUnique(b, 8, q1, d.r9);
    }
    assert q1 % 8 == d.r8 && q1 / 8 == q2 by {
      DivModUnique(q1, 8, q2, d.r8);
    }
    assert q2 % 8 == d.r7 && q2 / 8 == d.r6 by {
      DivModUnique(q2, 8, d.r6, d.r7);
    }
    assert b / 64 == q2 by {
      DivDiv(b, 8, 8);
    }
    assert b / 512 == d.r6 by {
      DivDiv(b, 64, 8);
    }
  }

  /** `(low >> 18) & 0xFFF` takes out bits 18 to 29 of a word whatever its other bits are. */
  lemma ChildFieldOfWord(a: nat, b: nat, z: nat)
    requires b < 0x1000 && z < 0x4_0000
    ensures ChildField(a * 0x4000_0000 + b * 0x4_0000 + z) == b
  {
    var w := a * 0x4000_0000 + b * 0x4_0000 + z;
    DivModUnique(w, 0x4_0000, a * 0x1000 + b, z);
    DivModUnique(a * 0x1000 + b, 0x1000, a, b);
  }

  /**
   * The low eight characters: parsed as a hexadecimal word, its digits of resolutions
   * 6 to 9 give the offset. None when the word does not parse or a digit is 7.
   */
  function ChildOffset(low: seq<char>): (r: Option<nat>)
    ensures r == match FromStrRadix(low, 16)
      case None => None
      case Some(w) =>
        var d := ChildDigits(ChildField(w));
        if d.IsBase7() then Some(Offset(d)) else None
    ensures r.Some? ==> r.value < ChildCount
  {
    match FromStrRadix(low, 16)
    case None => None
    case Some(sk) =>
      var b := ChildField(sk);
      Base7TextValue(ChildDigits(b));
      FromStrRadix(Base7Text(ChildDigits(b)), 7)
  }

  /** The whole decoding, in the order `modify_hexbitmap` performs it. */
  function DecodeChild(s: seq<char>): (r: Decoded)
    ensures r.Child? ==> r.offset < ChildCount
  {
    match Normalize(s)
    case None => Rejected(InvalidCell)
    case Some(t) =>
      match HighWordCheck(t[0..8])
      case Some(e) => Rejected(e)
      case None =>
        match ChildOffset(t[8..16])
        case None => Unparsed
        case Some(c) => Child(c)
  }

  /** Any length other than 15 or 16 characters is not a cell index. */
  lemma WrongLengthRejected(s: seq<char>)
    requires |s| != 15 && |s| != 16
    ensures DecodeChild(s) == Rejected(InvalidCell)
  {
  }

  /** A 15-character text is decided as the same text with its leading zero written out. */
  lemma LeadingZeroRestored(s: seq<char>)
    requires |s| == 15
    ensures DecodeChild(s) == DecodeChild(['0'] + s)
  {
  }

  /*
   * The 64-bit H3 index, field by field, as the layout table in the source lists it:
   * fields are numbered by start bit, bit 0 being the most significant of 64.
   */

  /** The field of the given width that starts at the given bit of a 64-bit index. */
  function LayoutField(i: nat, start: nat, width: nat): nat
    requires start + width <= 64
  {
    (i / Pow2(64 - start - width)) % Pow2(width)
  }

  function ReservedBit(i: nat): nat { LayoutField(i, 0, 1) }

  function IndexMode(i: nat): nat { LayoutField(i, 1, 4) }

  function ModeDependent(i: nat): nat { LayoutField(i, 5, 3) }

  function IndexResolution(i: nat): nat { LayoutField(i, 8, 4) }

  /** The digit of resolution r, 1 <= r <= 15. */
  function ResDigit(i: nat, r: nat): nat
    requires 1 <= r <= 15
  {
    LayoutField(i, 19 + 3 * (r - 1), 3)
  }

  /**
   * The decision stated on the index itself: a mode 1 cell index (reserved bit 0,
   * mode 1, mode-dependent bits 0) of resolution 9 or finer, whose digits of
   * resolutions 6 to 9 name the child; digits of finer resolutions play no part.
   */
  function LayoutDecision(i: nat): (r: Decoded)
    ensures r.Child? ==> r.offset < ChildCount
  {
    if ReservedBit(i) != 0 || IndexMode(i) != 1 || ModeDependent(i) != 0 then Rejected(InvalidCell)
    else if IndexResolution(i) < 9 then Rejected(IncorrectRes9)
    else
      var d := Digits(ResDigit(i, 6), ResDigit(i, 7), ResDigit(i, 8), ResDigit(i, 9));
      if d.IsBase7() then Child(Offset(d)) else Unparsed
  }

  /** A field that ends at or above bit 45 of the layout (bit 18 of the value) depends only on the value without its low 18 bits. */
  lemma FieldAboveFinerDigits(i: nat, start: nat, width: nat)
    requires start + width <= 46
    ensures LayoutField(i, start, width) == (i / Pow2(18) / Pow2(46 - start - width)) % Pow2(width)
  {
    Pow2Add(18, 46 - start - width);
    DivDiv(i, Pow2(18), Pow2(46 - start - width));
  }

  /** Two indexes that agree above bit 18 of the value agree on every field that ends at or above bit 45 of the layout. */
  lemma SameFieldAbove(i: nat, j: nat, start: nat, width: nat)
    requires i / Pow2(18) == j / Pow2(18) && start + width <= 46
    ensures LayoutField(i, start, width) == LayoutField(j, start, width)
  {
    FieldAboveFinerDigits(i, start, width);
    FieldAboveFinerDigits(j, start, width);
  }

  /**
   * The digits of resolutions 10 to 15 play no part: two indexes that differ only
   * there are decided alike. A finer cell is treated as its resolution 9 ancestor.
   */
  lemma LayoutIgnoresFinerDigits(i: nat, j: nat)
    requires i / Pow2(18) == j / Pow2(18)
    ensures LayoutDecision(i) == LayoutDecision(j)
  {
    SameFieldAbove(i, j, 0, 1);
    SameFieldAbove(i, j, 1, 4);
    SameFieldAbove(i, j, 5, 3);
    SameFieldAbove(i, j, 8, 4);
    SameFieldAbove(i, j, 34, 3);
    SameFieldAbove(i, j, 37, 3);
    SameFieldAbove(i, j, 40, 3);
    SameFieldAbove(i, j, 43, 3);
  }

  /**
   * A cell finer than resolution 9 is decided as its resolution 9 ancestor: two mode 1
   * indexes of resolution 9 or finer that agree on the mode fields and on the digits of
   * resolutions 6 to 9 are decided alike, whatever their resolutions and finer digits.
   */
  lemma FinerCellAsAncestor(i: nat, j: nat)
    requires IndexResolution(i) >= 9 && IndexResolution(j) >= 9
    requires ReservedBit(i) == ReservedBit(j) && IndexMode(i) == IndexMode(j) && ModeDependent(i) == ModeDependent(j)
    requires forall r :: 6 <= r <= 9 ==> ResDigit(i, r) == ResDigit(j, r)
    ensures LayoutDecision(i) == LayoutDecision(j)
  {
    assert ResDigit(i, 6) == ResDigit(j, 6) && ResDigit(i, 7) == ResDigit(j, 7);
    assert ResDigit(i, 8) == ResDigit(j, 8) && ResDigit(i, 9) == ResDigit(j, 9);
  }

  /** A 3-bit field at or below bit 29 of an index lies in its low word. */
  lemma DigitOfLowWord(hi: nat, lo: nat, p: nat, q: nat)
    requires p > 0 && q >= 8 && q % 8 == 0 && lo < p * q
    ensures ((hi * (p * q) + lo) / p) % 8 == (lo / p) % 8
  {
    var i := hi * (p * q) + lo;
    var y := lo / p;
    assert i == (hi * q + y) * p + lo % p;
    DivModUnique(i, p, hi * q + y, lo % p);
    assert hi * q + y == (hi * (q / 8) + y / 8) * 8 + y % 8;
    DivModUnique(hi * q + y, 8, hi * (q / 8) + y / 8, y % 8);
  }

  /** The 3-bit digits of the 12-bit field are the 3-bit fields of the word it was cut from. */
  lemma FieldOfField(y: nat)
    ensures (y % 0x1000) % 8 == y % 8
    ensures ((y % 0x1000) / 8) % 8 == (y / 8) % 8
    ensures ((y % 0x1000) / 64) % 8 == (y / 64) % 8
    ensures ((y % 0x1000) / 512) % 8 == (y / 512) % 8
  {
    var a, r := y / 0x1000, y % 0x1000;
    DivModUnique(y, 8, a * 0x200 + r / 8, r % 8);
    DivModUnique(y / 8, 8, a * 0x40 + (r / 8) / 8, (r / 8) % 8);
    DivModUnique(y, 64, a * 0x40 + r / 64, r % 64);
    DivModUnique(y / 64, 8, a * 8 + (r / 64) / 8, (r / 64) % 8);
    DivModUnique(y, 512, a * 8 + r / 512, r % 512);
    DivModUnique(y / 512, 8, a + (r / 512) / 8, (r / 512) % 8);
  }

  /** The reserved bit, index mode and mode-dependent bits are the fields of the top byte. */
  lemma TopByteFields(i: nat, m: nat)
    requires i / 0x100_0000_0000_0000 == m && m < 0x100
    ensures ReservedBit(i) == m / 0x80 && IndexMode(i) == (m / 8) % 0x10 && ModeDependent(i) == m % 8
  {
    Pow2Table();
    DivDiv(i, 0x100_0000_0000_0000, 0x80);
    DivDiv(i, 0x100_0000_0000_0000, 8);
  }

  /** The top byte holds reserved bit 0, mode 1 and mode-dependent bits 0 exactly when it is 8. */
  lemma ModeByteEight(m: nat)
    requires m < 0x100
    ensures m / 0x80 == 0 && (m / 8) % 0x10 == 1 && m % 8 == 0 <==> m == 8
  {
  }

  /** The mode and resolution fields of an index made of a high and a low 32-bit word are read off the high word. */
  lemma HighWordFields(i: nat, hi: nat, lo: nat)
    requires hi <= U32Max && lo <= U32Max && i == hi * 0x1_0000_0000 + lo
    ensures ReservedBit(i) == 0 && IndexMode(i) == 1 && ModeDependent(i) == 0 <==> hi / 0x100_0000 == 8
    ensures IndexResolution(i) == (hi / 0x10_0000) % 0x10
  {
    assert i / 0x1_0000_0000 == hi by {
      DivModUnique(i, 0x1_0000_0000, hi, lo);
    }
    var m := hi / 0x100_0000;
    assert i / 0x100_0000_0000_0000 == m by {
      DivDiv(i, 0x1_0000_0000, 0x100_0000);
    }
    TopByteFields(i, m);
    ModeByteEight(m);
    assert IndexResolution(i) == (hi / 0x10_0000) % 0x10 by {
      Pow2Table();
      DivDiv(i, 0x1_0000_0000, 0x10_0000);
    }
  }

  /** The digits of resolutions 6 to 9 of an index made of a high and a low 32-bit word are 3-bit fields of the low word. */
  lemma LowWordDigits(i: nat, hi: nat, lo: nat)
    requires lo <= U32Max && i == hi * 0x1_0000_0000 + lo
    ensures ResDigit(i, 9) == (lo / 0x4_0000) % 8
    ensures ResDigit(i, 8) == (lo / 0x20_0000) % 8
    ensures ResDigit(i, 7) == (lo / 0x100_0000) % 8
    ensures ResDigit(i, 6) == (lo / 0x800_0000) % 8
  {
    Pow2Table();
    DigitOfLowWord(hi, lo, 0x4_0000, 0x4000);
    DigitOfLowWord(hi, lo, 0x20_0000, 0x800);
    DigitOfLowWord(hi, lo, 0x100_0000, 0x100);
    DigitOfLowWord(hi, lo, 0x800_0000, 0x20);
  }

  /** The digits the decoder extracts from a low word are its 3-bit fields at bits 18, 21, 24 and 27. */
  lemma ChildDigitsOfWord(lo: nat)
    ensures ChildDigits(ChildField(lo))
         == Digits((lo / 0x800_0000) % 8, (lo / 0x100_0000) % 8, (lo / 0x20_0000) % 8, (lo / 0x4_0000) % 8)
  {
    var y := lo / 0x4_0000;
    DivDiv(lo, 0x4_0000, 8);
    DivDiv(lo, 0x4_0000, 64);
    DivDiv(lo, 0x4_0000, 512);
    FieldOfField(y);
  }

  /** The 64-bit value of an index text of hexadecimal digits. */
  function IndexValue(s: seq<char>): (i: nat)
    requires IsDigits(s, 16)
    ensures i < Pow2(4 * |s|)
  {
    DigitsValueDefined(s, 16);
    PowOfSixteen(|s|);
    DigitsValue(s, 16).value
  }

  lemma {:induction false} PowOfSixteen(n: nat)
    ensures Pow(16, n) == Pow2(4 * n)
  {
    if n > 0 {
      PowOfSixteen(n - 1);
      var k := 4 * (n - 1);
      assert Pow2(k + 4) == 2 * Pow2(k + 3) == 4 * Pow2(k + 2) == 8 * Pow2(k + 1) == 16 * Pow2(k);
    }
  }

  /** Restoring the leading zero keeps the text hexadecimal and its value unchanged. */
  lemma NormalizeDigits(s: seq<char>)
    requires |s| == 15 || |s| == 16
    requires IsDigits(s, 16)
    ensures Normalize(s).Some? && IsDigits(Normalize(s).value, 16)
    ensures DigitsValue(Normalize(s).value, 16) == DigitsValue(s, 16)
  {
    var t := Normalize(s).value;
    DigitsValueDefined(s, 16);
    if |s| == 15 {
      LeadingZero(s, 16);
    }
    assert forall k :: 16 - |s| <= k < 16 ==> t[k] == s[k - (16 - |s|)];
  }

  lemma SixteenToTheEighth()
    ensures Pow(16, 8) == 0x1_0000_0000
  {
    PowOfSixteen(8);
    assert Pow2(32) == 0x1_0000_0000 by { Pow2Table(); }
  }

  /** Eight hexadecimal digits always fit a 32-bit word, so parsing them gives their digit value. */
  lemma WordParses(w: seq<char>)
    requires |w| == 8 && IsDigits(w, 16)
    ensures DigitsValue(w, 16).Some? && FromStrRadix(w, 16) == DigitsValue(w, 16)
  {
    DigitsValueDefined(w, 16);
    SixteenToTheEighth();
    FromStrRadixOfDigits(w, 16);
  }

  /** Two words of eight hexadecimal digits each parse, and side by side they read as high * 2^32 + low. */
  lemma TwoWords(high: seq<char>, low: seq<char>)
    requires |high| == 8 && |low| == 8
    requires IsDigits(high, 16) && IsDigits(low, 16)
    ensures DigitsValue(high, 16).Some? && DigitsValue(low, 16).Some?
    ensures FromStrRadix(high, 16) == DigitsValue(high, 16)
    ensures FromStrRadix(low, 16) == DigitsValue(low, 16)
    ensures DigitsValue(high + low, 16)
         == Some(DigitsValue(high, 16).value * 0x1_0000_0000 + DigitsValue(low, 16).value)
  {
    WordParses(high);
    WordParses(low);
    DigitsValueAppend(high, low, 16);
    SixteenToTheEighth();
  }

  lemma SplitAtEight(t: seq<char>)
    requires |t| == 16 && IsDigits(t, 16)
    ensures t == t[0..8] + t[8..16]
    ensures IsDigits(t[0..8], 16) && IsDigits(t[8..16], 16)
  { }

  /** A 16-digit hexadecimal text splits into two 8-digit words that parse, high word first. */
  lemma SplitWords(t: seq<char>)
    requires |t| == 16 && IsDigits(t, 16)
    ensures DigitsValue(t[0..8], 16).Some? && DigitsValue(t[8..16], 16).Some?
    ensures FromStrRadix(t[0..8], 16) == DigitsValue(t[0..8], 16)
    ensures FromStrRadix(t[8..16], 16) == DigitsValue(t[8..16], 16)
    ensures DigitsValue(t, 16)
         == Some(DigitsValue(t[0..8], 16).value * 0x1_0000_0000 + DigitsValue(t[8..16], 16).value)
  {
    SplitAtEight(t);
    TwoWords(t[0..8], t[8..16]);
  }

  /** The two halves of a normalized index text of hexadecimal digits parse as the high and low words of its value. */
  lemma IndexWords(s: seq<char>) returns (hi: nat, lo: nat)
    requires |s| == 15 || |s| == 16
    requires IsDigits(s, 16)
    ensures Normalize(s).Some?
    ensures FromStrRadix(Normalize(s).value[0..8], 16) == Some(hi)
    ensures FromStrRadix(Normalize(s).value[8..16], 16) == Some(lo)
    ensures IndexValue(s) == hi * 0x1_0000_0000 + lo
  {
    NormalizeDigits(s);
    var t := Normalize(s).value;
    SplitWords(t);
    hi, lo := DigitsValue(t[0..8], 16).value, DigitsValue(t[8..16], 16).value;
  }

  /**
   * For text made of hexadecimal digits, decoding the two 32-bit halves agrees with
   * reading the fields of the whole 64-bit index.
   */
  lemma DecodeMatchesLayout(s: seq<char>)
    requires |s| == 15 || |s| == 16
    requires IsDigits(s, 16)
    ensures DecodeChild(s) == LayoutDecision(IndexValue(s))
  {
    var hi, lo := IndexWords(s);
    var t := Normalize(s).value;
    var high, low := t[0..8], t[8..16];
    var i := IndexValue(s);
    HighWordDecision(high);
    HighWordFields(i, hi, lo);
    LowWordDigits(i, hi, lo);
    ChildDigitsOfWord(lo);
    var d := ChildDigits(ChildField(lo));
    assert d == Digits(ResDigit(i, 6), ResDigit(i, 7), ResDigit(i, 8), ResDigit(i, 9));
    assert ChildOffset(low) == if d.IsBase7() then Some(Offset(d)) else None;
    var modeOk := ReservedBit(i) == 0 && IndexMode(i) == 1 && ModeDependent(i) == 0;
    if hi / 0x100_0000 != 8 {
      assert HighWordCheck(high) == Some(InvalidCell);
      assert !modeOk;
    } else if (hi / 0x10_0000) % 0x10 < 9 {
      assert HighWordCheck(high) == Some(IncorrectRes9);
      assert modeOk && IndexResolution(i) < 9;
    } else {
      assert HighWordCheck(high) == None;
      assert modeOk && IndexResolution(i) >= 9;
    }
  }
}
