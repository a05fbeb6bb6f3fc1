/**
 * Concrete indexes: the cases the program's integration tests exercise, the index
 * in the layout comment of `modify_hexbitmap`, and the accepted-but-ignored texts.
 */
module Scenarios {
  import opened Wrappers
  import opened Bits
  import opened Radix
  import opened MapperErrors
  import opened IndexDecoder
  import opened CoverageBitmap

  /** The value of a hexadecimal digit character, and 16 for any other character. */
  function Hex(c: char): nat
  {
    match DigitValue(c, 16)
    case Some(v) => v
    case None => 16
  }

  /** The value of the first k characters of a hexadecimal text, digit by digit. */
  function HexPrefix(s: seq<char>, k: nat): nat
    requires k <= |s| && IsDigits(s, 16)
  {
    if k == 0 then 0 else HexPrefix(s, k - 1) * 16 + Hex(s[k - 1])
  }

  lemma {:induction false} HexPrefixValue(s: seq<char>, k: nat)
    requires k <= |s| && IsDigits(s, 16)
    ensures DigitsValue(s[..k], 16) == Some(HexPrefix(s, k))
  {
    if k == 0 {
      assert s[..0] == [];
    } else {
      HexPrefixValue(s, k - 1);
      DigitsValuePrefix(s, k - 1, 16);
    }
  }

  /** An eight-character hexadecimal text parses as a 32-bit word, read digit by digit. */
  lemma HexWord(c0: char, c1: char, c2: char, c3: char, c4: char, c5: char, c6: char, c7: char)
    requires Hex(c0) < 16 && Hex(c1) < 16 && Hex(c2) < 16 && Hex(c3) < 16
    requires Hex(c4) < 16 && Hex(c5) < 16 && Hex(c6) < 16 && Hex(c7) < 16
    ensures FromStrRadix([c0, c1, c2, c3, c4, c5, c6, c7], 16)
         == Some(((((((Hex(c0) * 16 + Hex(c1)) * 16 + Hex(c2)) * 16 + Hex(c3)) * 16
              + Hex(c4)) * 16 + Hex(c5)) * 16 + Hex(c6)) * 16 + Hex(c7))
  {
    var s := [c0, c1, c2, c3, c4, c5, c6, c7];
    assert IsDigits(s, 16);
    assert HexPrefix(s, 1) == Hex(c0);
    assert HexPrefix(s, 2) == HexPrefix(s, 1) * 16 + Hex(c1);
    assert HexPrefix(s, 3) == HexPrefix(s, 2) * 16 + Hex(c2);
    assert HexPrefix(s, 4) == HexPrefix(s, 3) * 16 + Hex(c3);
    assert HexPrefix(s, 5) == HexPrefix(s, 4) * 16 + Hex(c4);
    assert HexPrefix(s, 6) == HexPrefix(s, 5) * 16 + Hex(c5);
    assert HexPrefix(s, 7) == HexPrefix(s, 6) * 16 + Hex(c6);
    assert HexPrefix(s, 8) == HexPrefix(s, 7) * 16 + Hex(c7);
    HexPrefixValue(s, 8);
    assert s[..8] == s;
    FromStrRadixOfDigits(s, 16);
  }

  /** A low word that parses, and whose child field packs the given digits, names the offset of those digits. */
  lemma LowWordChild(low: seq<char>, w: nat, d: Digits)
    requires FromStrRadix(low, 16) == Some(w)
    requires d.InField() && ChildField(w) == ChildBits(d)
    ensures ChildOffset(low) == if d.IsBase7() then Some(Offset(d)) else None
  {
    ChildDigitsRoundTrip(d);
  }

  lemma Word08912EA6()
    ensures FromStrRadix("08912ea6", 16) == Some(0x08912ea6)
  {
    HexWord('0', '8', '9', '1', '2', 'e', 'a', '6');
  }

  lemma Word08912CCD()
    ensures FromStrRadix("08912ccd", 16) == Some(0x08912ccd)
  {
    HexWord('0', '8', '9', '1', '2', 'c', 'c', 'd');
  }

  lemma Word09912EA6()
    ensures FromStrRadix("09912ea6", 16) == Some(0x09912ea6)
  {
    HexWord('0', '9', '9', '1', '2', 'e', 'a', '6');
  }

  lemma Word08812EA6()
    ensures FromStrRadix("08812ea6", 16) == Some(0x08812ea6)
  {
    HexWord('0', '8', '8', '1', '2', 'e', 'a', '6');
  }

  lemma Word09812EA6()
    ensures FromStrRadix("09812ea6", 16) == Some(0x09812ea6)
  {
    HexWord('0', '9', '8', '1', '2', 'e', 'a', '6');
  }

  lemma Word08528347()
    ensures FromStrRadix("08528347", 16) == Some(0x08528347)
  {
    HexWord('0', '8', '5', '2', '8', '3', '4', '7');
  }

  lemma Word08928347()
    ensures FromStrRadix("08928347", 16) == Some(0x08928347)
  {
    HexWord('0', '8', '9', '2', '8', '3', '4', '7');
  }

  /** A high word that parses with mode byte 8 and resolution 9 or finer passes the checks. */
  lemma HighPasses(high: seq<char>, w: nat)
    requires FromStrRadix(high, 16) == Some(w) && w / 0x100_0000 == 8 && (w / 0x10_0000) % 0x10 >= 9
    ensures HighWordCheck(high) == None
  {
    HighWordDecision(high);
  }

  /** A high word that parses with another mode byte, or a coarser resolution, fails the checks with the matching error. */
  lemma HighFails(high: seq<char>, w: nat, e: MyError)
    requires FromStrRadix(high, 16) == Some(w)
    requires w / 0x100_0000 != 8 || (w / 0x10_0000) % 0x10 < 9
    requires e == if w / 0x100_0000 != 8 then InvalidCell else IncorrectRes9
    ensures HighWordCheck(high) == Some(e)
  {
    HighWordDecision(high);
  }

  /** A 15-character text whose high word the checks refuse is refused with their error. */
  lemma HighRejects(s: seq<char>, high: seq<char>, e: MyError)
    requires |s| == 15 && high == (['0'] + s)[0..8] && HighWordCheck(high) == Some(e)
    ensures DecodeChild(s) == Rejected(e)
  {
  }

  /** A 15-character text whose high word passes the checks is decided by its low word. */
  lemma HighAccepts(s: seq<char>, high: seq<char>, low: seq<char>)
    requires |s| == 15 && high == (['0'] + s)[0..8] && low == (['0'] + s)[8..16]
    requires HighWordCheck(high) == None
    ensures DecodeChild(s) == match ChildOffset(low)
      case None => Unparsed
      case Some(c) => Child(c)
  {
  }

  lemma FirstTestIndexHigh()
    ensures HighWordCheck("08912ea6") == None
  {
    Word08912EA6();
    HighPasses("08912ea6", 0x08912ea6);
  }

  lemma WordD803FFFF()
    ensures FromStrRadix("d803ffff", 16) == Some(0xd803ffff)
  {
    HexWord('d', '8', '0', '3', 'f', 'f', 'f', 'f');
  }

  lemma FirstTestIndexLow()
    ensures ChildOffset("d803ffff") == Some(1029)
  {
    WordD803FFFF();
    LowWordChild("d803ffff", 0xd803ffff, Digits(3, 0, 0, 0));
  }


  /** The index of the first integration test: child 1029, bit 5 of byte 128. */
  lemma FirstTestIndex()
    ensures DecodeChild("8912ea6d803ffff") == Child(1029)
    ensures 1029 / 8 == 128 && 1029 % 8 == 5
  {
    assert "08912ea6" == (['0'] + "8912ea6d803ffff")[0..8] && "d803ffff" == (['0'] + "8912ea6d803ffff")[8..16];
    FirstTestIndexHigh();
    FirstTestIndexLow();
    HighAccepts("8912ea6d803ffff", "08912ea6", "d803ffff");
  }

  lemma DuplicateTestIndexHigh()
    ensures HighWordCheck("08912ccd") == None
  {
    Word08912CCD();
    HighPasses("08912ccd", 0x08912ccd);
  }

  lemma Word04A3FFFF()
    ensures FromStrRadix("04a3ffff", 16) == Some(0x04a3ffff)
  {
    HexWord('0', '4', 'a', '3', 'f', 'f', 'f', 'f');
  }

  lemma DuplicateTestIndexLow()
    ensures ChildOffset("04a3ffff") == Some(231)
  {
    Word04A3FFFF();
    LowWordChild("04a3ffff", 0x04a3ffff, Digits(0, 4, 5, 0));
  }


  /** The index of the duplicate test: child 231. */
  lemma DuplicateTestIndex()
    ensures DecodeChild("8912ccd04a3ffff") == Child(231)
  {
    assert "08912ccd" == (['0'] + "8912ccd04a3ffff")[0..8] && "04a3ffff" == (['0'] + "8912ccd04a3ffff")[8..16];
    DuplicateTestIndexHigh();
    DuplicateTestIndexLow();
    HighAccepts("8912ccd04a3ffff", "08912ccd", "04a3ffff");
  }

  /** The index of the invalid-hex test: mode byte 9, so not a mode 1 cell index. */
  lemma InvalidModeIndex()
    ensures DecodeChild("9912ea6d803ffff") == Rejected(InvalidCell)
  {
    assert "09912ea6" == (['0'] + "9912ea6d803ffff")[0..8];
    Word09912EA6();
    HighFails("09912ea6", 0x09912ea6, InvalidCell);
    HighRejects("9912ea6d803ffff", "09912ea6", InvalidCell);
  }

  /** The index of the incorrect-resolution test: resolution 8. */
  lemma CoarseResolutionIndex()
    ensures DecodeChild("8812ea6d803ffff") == Rejected(IncorrectRes9)
  {
    assert "08812ea6" == (['0'] + "8812ea6d803ffff")[0..8];
    Word08812EA6();
    HighFails("08812ea6", 0x08812ea6, IncorrectRes9);
    HighRejects("8812ea6d803ffff", "08812ea6", IncorrectRes9);
  }

  /** A wrong mode byte is reported before a coarse resolution: mode 9 and resolution 8 give InvalidCell. */
  lemma ModeBeforeResolution()
    ensures DecodeChild("9812ea6d803ffff") == Rejected(InvalidCell)
  {
    assert "09812ea6" == (['0'] + "9812ea6d803ffff")[0..8];
    Word09812EA6();
    HighFails("09812ea6", 0x09812ea6, InvalidCell);
    HighRejects("9812ea6d803ffff", "09812ea6", InvalidCell);
  }

  /** The resolution 5 index of the layout comment is refused for its resolution. */
  lemma LayoutCommentIndex()
    ensures DecodeChild("85283473fffffff") == Rejected(IncorrectRes9)
  {
    assert "08528347" == (['0'] + "85283473fffffff")[0..8];
    Word08528347();
    HighFails("08528347", 0x08528347, IncorrectRes9);
    HighRejects("85283473fffffff", "08528347", IncorrectRes9);
  }

  lemma SevensIgnoredHigh()
    ensures HighWordCheck("08928347") == None
  {
    Word08928347();
    HighPasses("08928347", 0x08928347);
  }

  lemma Word3FFFFFFF()
    ensures FromStrRadix("3fffffff", 16) == Some(0x3fffffff)
  {
    HexWord('3', 'f', 'f', 'f', 'f', 'f', 'f', 'f');
  }

  lemma SevensIgnoredLow()
    ensures ChildOffset("3fffffff") == None
  {
    Word3FFFFFFF();
    LowWordChild("3fffffff", 0x3fffffff, Digits(7, 7, 7, 7));
  }


  /** A resolution 9 index whose child digits are all 7 is accepted without naming a child. */
  lemma SevensIgnored()
    ensures DecodeChild("89283473fffffff") == Unparsed
  {
    assert "08928347" == (['0'] + "89283473fffffff")[0..8] && "3fffffff" == (['0'] + "89283473fffffff")[8..16];
    SevensIgnoredHigh();
    SevensIgnoredLow();
    HighAccepts("89283473fffffff", "08928347", "3fffffff");
  }

  /** A low word that is not hexadecimal is accepted without naming a child. */
  lemma BadLowWordIgnored()
    ensures DecodeChild("8912ea6zzzzzzzz") == Unparsed
  {
    assert "08912ea6" == (['0'] + "8912ea6zzzzzzzz")[0..8] && "zzzzzzzz" == (['0'] + "8912ea6zzzzzzzz")[8..16];
    FirstTestIndexHigh();
    assert FromStrRadix("zzzzzzzz", 16) == None by {
      DigitsValueDefined("zzzzzzzz", 16);
      assert DigitValue("zzzzzzzz"[0], 16) == None;
    }
    HighAccepts("8912ea6zzzzzzzz", "08912ea6", "zzzzzzzz");
  }

  /** Covering the child of a text on a new account succeeds and sets just that child's bit. */
  method CoverOnce(text: seq<char>, c: nat) returns (r: Result, byte: bv8)
    requires DecodeChild(text) == Child(c)
    ensures r == Ok && byte == Mask(c % 8)
  {
    var bitmap := new Hexbitmap("8512ea6ffffffff", "0123456789abcdef");
    MarkEmpty(c);
    r := bitmap.ModifyHexbitmap(text);
    byte := bitmap.children[c / 8];
  }

  /** Submitting the text of a child twice to a new account: Ok, then HexMapped. */
  method SubmitTwice(text: seq<char>, c: nat) returns (first: Result, second: Result)
    requires DecodeChild(text) == Child(c)
    ensures first == Ok && second == Err(HexMapped)
  {
    var bitmap := new Hexbitmap("8512ccd3fffffff", "0123456789abcdef");
    MarkEmpty(c);
    MarkTwice(c, Zeros());
    first := bitmap.ModifyHexbitmap(text);
    second := bitmap.ModifyHexbitmap(text);
  }

  lemma MaskOfFirstChild()
    ensures Mask(1029 % 8) == 0x20
  { }

  /** Covering the first test's child on a new account sets bit 5 of byte 128. */
  method FirstCoverage() returns (r: Result, byte: bv8)
    ensures r == Ok && byte == 0x20
  {
    FirstTestIndex();
    r, byte := CoverOnce("8912ea6d803ffff", 1029);
    MaskOfFirstChild();
  }

  /** The duplicate test: the second submission of the same index is HexMapped, error number 6000. */
  method DuplicateSubmission() returns (first: Result, second: Result)
    ensures first == Ok && second == Err(HexMapped) && ErrorNumber(second.error) == 6000
  {
    DuplicateTestIndex();
    first, second := SubmitTwice("8912ccd04a3ffff", 231);
  }
}
