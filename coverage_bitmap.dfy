/**
 * The `Hexbitmap` account and the `modify_hexbitmap` instruction that updates it.
 *
 * The account records, for one resolution 5 parent cell and one mapper device,
 * which of the parent's 2401 resolution 9 descendants have been covered: one bit
 * per child, the child with offset c being bit c % 8 of byte c / 8. Only the
 * first 2401 bits are ever used; the other bits of the 512-byte buffer stay clear.
 */
module CoverageBitmap {
  import opened Wrappers
  import opened Radix
  import opened MapperErrors
  import opened IndexDecoder
  import Bits

  /** Length of the `children` buffer. */
  const ChildBytes: nat := 512

  /** `1 << k` as a byte, for the eight bit positions. */
  function Mask(k: nat): (m: bv8)
    requires k < 8
    ensures m as int == Bits.Pow2(k)
  {
    if k == 0 then 0x01 else if k == 1 then 0x02 else if k == 2 then 0x04 else if k == 3 then 0x08
    else if k == 4 then 0x10 else if k == 5 then 0x20 else if k == 6 then 0x40 else 0x80
  }

  /** Bit k of the byte is set. */
  predicate IsSet(b: bv8, k: nat)
    requires k < 8
  {
    b & Mask(k) != 0
  }

  /** Bit c of the bitmap, counting from bit 0 of byte 0. */
  predicate Bit(bytes: seq<bv8>, c: nat)
  {
    c / 8 < |bytes| && IsSet(bytes[c / 8], c % 8)
  }

  /** The children whose bit is set. */
  ghost function CoveredIn(bytes: seq<bv8>): set<nat>
  {
    set c | 0 <= c < 8 * |bytes| && Bit(bytes, c)
  }

  /** Or-ing the mask of bit k into a byte sets bit k and leaves the other seven as they were. */
  lemma MaskOr(b: bv8, k: nat, j: nat)
    requires k < 8 && j < 8
    ensures IsSet(Mask(k) | b, j) <==> IsSet(b, j) || j == k
  {
  }

  /** Every offset of a child falls inside the buffer: 2400 / 8 == 300 < 512. */
  lemma ByteIndexInBounds(c: nat)
    requires c < ChildCount
    ensures c / 8 < ChildBytes
  {
  }

  /** Setting bit c of the bitmap sets that bit and leaves every other bit as it was. */
  lemma SetBitOnly(bytes: seq<bv8>, c: nat)
    requires c / 8 < |bytes|
    ensures forall x: nat :: Bit(bytes[c / 8 := Mask(c % 8) | bytes[c / 8]], x) <==> Bit(bytes, x) || x == c
  {
    var after := bytes[c / 8 := Mask(c % 8) | bytes[c / 8]];
    forall x: nat
      ensures Bit(after, x) <==> Bit(bytes, x) || x == c
    {
      if x / 8 == c / 8 {
        MaskOr(bytes[c / 8], c % 8, x % 8);
        if x % 8 == c % 8 {
          assert x == 8 * (x / 8) + x % 8 == 8 * (c / 8) + c % 8 == c;
        }
      }
    }
  }

  /** Setting the bit of child c adds c to the covered children and nothing else. */
  lemma SetBitCovers(bytes: seq<bv8>, c: nat)
    requires c / 8 < |bytes|
    ensures CoveredIn(bytes[c / 8 := Mask(c % 8) | bytes[c / 8]]) == CoveredIn(bytes) + {c}
  {
    SetBitOnly(bytes, c);
    assert c < 8 * |bytes|;
  }

  /** No bit past the last child is set. */
  ghost predicate UnusedClear(bytes: seq<bv8>)
  {
    forall c: nat :: ChildCount <= c ==> !Bit(bytes, c)
  }

  /** Setting the bit of a child keeps the bits past the last child clear. */
  lemma SetBitKeepsUnusedClear(bytes: seq<bv8>, c: nat)
    requires UnusedClear(bytes) && c < ChildCount && c / 8 < |bytes|
    ensures UnusedClear(bytes[c / 8 := Mask(c % 8) | bytes[c / 8]])
  {
    var after := bytes[c / 8 := Mask(c % 8) | bytes[c / 8]];
    SetBitOnly(bytes, c);
    forall x: nat | ChildCount <= x
      ensures !Bit(after, x)
    {
      assert !Bit(bytes, x);
    }
  }

  /**
   * The test-and-set of child c on the bitmap: HexMapped if its bit is already set,
   * otherwise Ok with the bit or-ed into its byte.
   */
  function Mark(c: nat, bytes: seq<bv8>): (r: (Result, seq<bv8>))
    requires c / 8 < |bytes|
    ensures |r.1| == |bytes|
    ensures r.0 == Ok || r.0 == Err(HexMapped)
  {
    if Bit(bytes, c) then (Err(HexMapped), bytes)
    else (Ok, bytes[c / 8 := Mask(c % 8) | bytes[c / 8]])
  }

  /** What `modify_hexbitmap` returns, and the bitmap it leaves, for a decoded text. */
  function Modify(dec: Decoded, bytes: seq<bv8>): (r: (Result, seq<bv8>))
    requires dec.Child? ==> dec.offset / 8 < |bytes|
    ensures |r.1| == |bytes|
    ensures r.1 != bytes ==> dec.Child? && r.0 == Ok
  {
    match dec
    case Rejected(e) => (Err(e), bytes)
    case Unparsed => (Ok, bytes)
    case Child(c) => Mark(c, bytes)
  }

  /**
   * Marking a child covers exactly that child, and succeeds exactly when the child
   * was not covered before.
   */
  lemma MarkCovers(c: nat, bytes: seq<bv8>)
    requires c / 8 < |bytes|
    ensures CoveredIn(Mark(c, bytes).1) == CoveredIn(bytes) + {c}
    ensures Mark(c, bytes).0 == Ok <==> c !in CoveredIn(bytes)
    ensures Mark(c, bytes).0 != Ok ==> Mark(c, bytes).0 == Err(HexMapped)
  {
    assert c < 8 * |bytes|;
    if !Bit(bytes, c) {
      SetBitCovers(bytes, c);
    }
  }

  /** Submitting the same child again is refused as HexMapped and changes nothing more. */
  lemma MarkTwice(c: nat, bytes: seq<bv8>)
    requires c / 8 < |bytes|
    ensures Mark(c, Mark(c, bytes).1) == (Err(HexMapped), Mark(c, bytes).1)
  {
    var after := Mark(c, bytes).1;
    if !Bit(bytes, c) {
      SetBitOnly(bytes, c);
      assert Bit(after, c);
    }
  }

  /** A call only ever adds the child it names: covered children are never lost. */
  lemma ModifyCovers(dec: Decoded, bytes: seq<bv8>)
    requires dec.Child? ==> dec.offset / 8 < |bytes|
    ensures CoveredIn(Modify(dec, bytes).1) == if dec.Child? then CoveredIn(bytes) + {dec.offset} else CoveredIn(bytes)
    ensures Modify(dec, bytes).0 == Ok <==> dec.Unparsed? || (dec.Child? && dec.offset !in CoveredIn(bytes))
  {
    if dec.Child? {
      MarkCovers(dec.offset, bytes);
    }
  }

  /** A call keeps the bits past the last child clear. */
  lemma ModifyKeepsUnusedClear(dec: Decoded, bytes: seq<bv8>)
    requires dec.Child? ==> dec.offset < ChildCount && dec.offset / 8 < |bytes|
    requires UnusedClear(bytes)
    ensures UnusedClear(Modify(dec, bytes).1)
  {
    if dec.Child? && !Bit(bytes, dec.offset) {
      SetBitKeepsUnusedClear(bytes, dec.offset);
    }
  }

  /** The buffer of a new account: every byte zero. */
  function Zeros(): (z: seq<bv8>)
    ensures |z| == ChildBytes && CoveredIn(z) == {} && UnusedClear(z)
  {
    seq(ChildBytes, _ => 0 as bv8)
  }

  /** On a new account, marking a child succeeds and sets just its bit. */
  lemma MarkEmpty(c: nat)
    requires c < ChildCount
    ensures Mark(c, Zeros()) == (Ok, Zeros()[c / 8 := Mask(c % 8)])
  {
    assert Mask(c % 8) | 0 == Mask(c % 8);
  }

  /** The byte-level test and update of child c are the bitmap-level Mark. */
  lemma MarkByte(c: nat, bytes: seq<bv8>, existing: bv8, newBit: bv8)
    requires c / 8 < |bytes| && existing == bytes[c / 8] && newBit == Mask(c % 8)
    ensures newBit & existing != 0 <==> Bit(bytes, c)
    ensures Mark(c, bytes) == if newBit & existing != 0 then (Err(HexMapped), bytes)
      else (Ok, bytes[c / 8 := newBit | existing])
  {
  }

  /** The mapping account of one mapper device over one resolution 5 parent cell. */
  class Hexbitmap {
    var parentHex: seq<char>
    var deveui: seq<char>
    const children: array<bv8>

    /** The buffer has its fixed size, and no bit beyond the last child is set. */
    ghost predicate Valid()
      reads this, children
    {
      children.Length == ChildBytes && UnusedClear(children[..])
    }

    /** The children this mapper has covered so far. */
    ghost function Covered(): set<nat>
      reads this, children
    {
      CoveredIn(children[..])
    }

    /** `create_hexbitmap`: the new account names its parent cell and device, and no child is covered yet. */
    constructor (parentHex: seq<char>, deveui: seq<char>)
      ensures Valid()
      ensures this.parentHex == parentHex && this.deveui == deveui
      ensures fresh(children) && children[..] == Zeros()
      ensures Covered() == {}
    {
      this.parentHex := parentHex;
      this.deveui := deveui;
      children := new bv8[ChildBytes](_ => 0 as bv8);
    }

    /**
     * The last step of `modify_hexbitmap`: test the bit of child c and set it if
     * it was clear. A bit already set is the error HexMapped and changes nothing.
     */
    method MarkChild(c: nat) returns (r: Result)
      requires Valid() && c < ChildCount
      modifies children
      ensures Valid()
      ensures (r, children[..]) == Mark(c, old(children[..]))
      ensures Covered() == old(Covered()) + {c}
    {
      ByteIndexInBounds(c);
      ghost var before := children[..];
      var byteIndex := c / 8;
      var existingByte := children[byteIndex];
      var newBit := Mask(c % 8);
      MarkByte(c, before, existingByte, newBit);
      MarkCovers(c, before);
      if newBit & existingByte != 0 {
        return Err(HexMapped);
      }
      children[byteIndex] := newBit | existingByte;
      assert children[..] == before[c / 8 := newBit | existingByte];
      ModifyKeepsUnusedClear(Child(c), before);
      return Ok;
    }

    /**
     * `modify_hexbitmap`: decode the resolution 9 index text and set the bit of the
     * child it names. A child already covered is an error and changes nothing; a
     * text whose low word does not parse, or whose child digits include a 7, is
     * accepted and changes nothing.
     */
    method ModifyHexbitmap(newRes9: seq<char>) returns (r: Result)
      requires Valid()
      modifies children
      ensures Valid()
      ensures (r, children[..]) == Modify(DecodeChild(newRes9), old(children[..]))
      ensures Covered() == match DecodeChild(newRes9)
        case Child(c) => old(Covered()) + {c}
        case _ => old(Covered())
    {
      var t := newRes9;
      if |t| == 15 {
        t := ['0'] + t;
      } else if |t| == 16 {
      } else {
        return Err(InvalidCell);
      }
      var mode, res := t[0..8], t[8..16];

      match HighWordCheck(mode) {
        case Some(e) => return Err(e);
        case None =>
      }

      match ChildOffset(res) {
        case Some(c) =>
          r := MarkChild(c);
          return;
        case None =>
      }
      return Ok;
    }
  }
}
