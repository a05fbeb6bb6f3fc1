# Mappers coverage bitmap, in Dafny

The `mappers` Solana program records which resolution 9 H3 cells a mapper device has
covered. Each record, a `Hexbitmap` account, belongs to one resolution 5 parent cell and
one device (`deveui`). It holds a 512-byte `children` buffer with one bit for each of the
parent's 7^4 = 2401 resolution 9 descendants. The instruction `modify_hexbitmap` takes an
H3 index as hexadecimal text and works in this order:

1. It restores the assumed leading zero of a 15-character text. Any other length but 16
   is `InvalidCell`.
2. It parses the high 8 characters as a `u32` and checks that the top byte is 8: reserved
   bit 0, index mode 1, mode-dependent bits 0. Otherwise it returns `InvalidCell`.
3. It checks that the resolution nibble is at least 9. Otherwise it returns `IncorrectRes9`.
4. It parses the low 8 characters. It extracts the four 3-bit digits of resolutions 6 to 9
   and writes them as decimal text.
5. It reads that text in base 7 as the child's offset `c`.
6. It tests bit `c % 8` of byte `c / 8`. A set bit is `HexMapped`; a clear bit is set.

A low word that does not parse, or a child digit of 7 (the base-7 parse fails), is only
logged. The instruction then returns `Ok` and changes nothing.

The project has seven modules:

- `Wrappers` holds the `Option` type.
- `Bits` models `u32` words as naturals with `>>`, `<<` and `&`, and relates shift-and-mask
  to division and remainder.
- `Radix` models `char::to_digit`, `u32::from_str_radix` and `u32::to_string`.
- `MapperErrors` holds the error enum and its Anchor error numbers.
- `IndexDecoder` decodes the index text.
  - Its front half is the decoder as the program runs it (`DecodeChild`).
  - Its back half reads the whole 64-bit index field by field, as in the bit-layout table
    of the source (`LayoutDecision`). It proves the two agree.
- `CoverageBitmap` holds the `Hexbitmap` account as a class over its byte array. The
  instruction is a method proved against the pure transition function `Modify`. The
  coverage properties are lemmas about that function.
- `Scenarios` holds the concrete indexes of the integration tests and of the layout comment.

## Model

| member | source | states |
|---|---|---|
| MapperErrors.ErrorNumber | programs/mappers/src/lib.rs:5-13 | the three custom errors are numbered 6000, 6001, 6002 in declaration order, one number each |
| Radix.DigitValue | programs/mappers/src/lib.rs:129 | `to_digit`: a character is a digit of the radix only with a value below the radix; DecimalDigitInRadix states it for base 7 |
| Radix.FromStrRadix | programs/mappers/src/lib.rs:129-172 | computes `from_str_radix`: one optional leading '+', then digits only, None for the empty text, a lone '+', a non-digit or an overflow; its contract states that any value fits in 32 bits, and FromStrRadixOfDigits gives its value on digit text |
| Radix.ToDecimal | programs/mappers/src/lib.rs:156-159 | `to_string`: a non-empty decimal text, a single digit for n below 10; DecimalRoundTrip reads it back as n |
| Radix.DigitsValueDefined | programs/mappers/src/lib.rs:129-146 | a text has a value in a radix exactly when every character is a digit of that radix |
| Radix.DigitsValueAppend | programs/mappers/src/lib.rs:121-124 | reading two texts one after the other is the value of the first shifted by the length of the second, plus the value of the second |
| Radix.LeadingZero | programs/mappers/src/lib.rs:109-113 | a leading '0' does not change the value of a digit text |
| Radix.FromStrRadixOfDigits | programs/mappers/src/lib.rs:129 | `from_str_radix` of a non-empty text of digits that fits in 32 bits is the value of those digits |
| Radix.DecimalRoundTrip | programs/mappers/src/lib.rs:156-159 | `to_string` of n, read back as decimal, is n |
| Radix.DecimalDigitInRadix | programs/mappers/src/lib.rs:172 | a decimal digit read in base 7 is itself when below 7, and no digit when it is 7 |
| Bits.ShrThenMask | programs/mappers/src/lib.rs:132-137 | `(x >> k) & (2^w - 1)` is the w-bit field of x at bit k, `(x / 2^k) % 2^w` |
| Bits.MaskThenShr | programs/mappers/src/lib.rs:156-159 | `(x & ((2^w - 1) << k)) >> k` is that same field |
| IndexDecoder.Normalize | programs/mappers/src/lib.rs:107-119 | a text is accepted exactly when it has 15 or 16 characters; the result has 16 characters, ends with the input, and starts with '0' when the input had 15 |
| IndexDecoder.ModeByteShiftMask | programs/mappers/src/lib.rs:132 | the mode byte `(sk >> 24) & 0xFF` is bits 24 to 31 of the high word |
| IndexDecoder.ResolutionShiftMask | programs/mappers/src/lib.rs:137 | the resolution `(sk >> 20) & 0xF` is bits 20 to 23 of the high word |
| IndexDecoder.HighWordCheck | programs/mappers/src/lib.rs:129-147 | the check computed on bits 24 to 31 and 20 to 23 is the source's: InvalidCell when the text does not parse or `(sk >> 24) & 0xFF != 8`, then IncorrectRes9 when `(sk >> 20) & 0xF < 9`, otherwise it passes |
| IndexDecoder.HighWordDecision | programs/mappers/src/lib.rs:129-140 | on a parsed word the checks read as "the top byte is 8" and "the nibble at bit 20 is at least 9" |
| IndexDecoder.ModeByte | programs/mappers/src/lib.rs:132 | bits 24 to 31 of the high word, below 0x100; ModeByteShiftMask ties it to `(sk >> 24) & 0xFF` |
| IndexDecoder.ResolutionNibble | programs/mappers/src/lib.rs:137 | bits 20 to 23 of the high word, below 16; ResolutionShiftMask ties it to `(sk >> 20) & 0xF` |
| IndexDecoder.ChildField | programs/mappers/src/lib.rs:154 | bits 18 to 29 of the low word, below 0x1000; ChildFieldShiftMask ties it to `(sk >> 18) & 0xFFF` |
| IndexDecoder.ChildDigits | programs/mappers/src/lib.rs:156-159 | splits the 12-bit field into four 3-bit digits, each in its field; ChildDigitsShiftMask ties them to the source's masks and shifts, and ChildDigitsRoundTrip inverts them |
| IndexDecoder.Base7Text | programs/mappers/src/lib.rs:169 | `format!` of the four digits, r6 first: each 3-bit digit prints as one decimal character, so the text has four characters; Base7TextValue states what its base-7 parse gives |
| IndexDecoder.ChildFieldShiftMask | programs/mappers/src/lib.rs:154 | the field `(sk >> 18) & 0xFFF` is bits 18 to 29 of the low word |
| IndexDecoder.ChildFieldOfWord | programs/mappers/src/lib.rs:153-154 | the child field of a word is its bits 18 to 29, whatever its other bits are |
| IndexDecoder.ChildDigitsShiftMask | programs/mappers/src/lib.rs:156-159 | the four masked and shifted 3-bit fields are the digits of resolutions 6 to 9, resolution 9 lowest |
| IndexDecoder.ChildDigitsRoundTrip | programs/mappers/src/lib.rs:153-166 | packing four 3-bit digits into the 12-bit field and splitting it again gives the same digits |
| IndexDecoder.Base7TextValue | programs/mappers/src/lib.rs:169-172 | the base-7 parse of the digits' decimal text is their mixed-radix offset, and fails exactly when some digit is 7 |
| IndexDecoder.Offset | programs/mappers/src/lib.rs:160-168 | the offset of four base-7 digits lies in [0, 2400] |
| IndexDecoder.OffsetDigitsRoundTrip | programs/mappers/src/lib.rs:160-168 | every offset below 2401 is the offset of some digits: every bit of a child is reachable |
| IndexDecoder.OffsetRoundTrip | programs/mappers/src/lib.rs:160-168 | the digits of an offset are the digits it came from |
| IndexDecoder.OffsetInjective | programs/mappers/src/lib.rs:160-168 | two digit sequences have the same offset exactly when they are equal, so distinct children have distinct bits |
| IndexDecoder.FirstChildText | programs/mappers/src/lib.rs:160-172 | the digits 0000 are written "0000" and read as offset 0 |
| IndexDecoder.LastChildText | programs/mappers/src/lib.rs:164-167 | the digits 6666 are written "6666" and read as offset 2400, the last bit |
| IndexDecoder.ChildOffset | programs/mappers/src/lib.rs:150-197 | the low word names the offset of its resolution 6 to 9 digits when it parses and no digit is 7, and nothing otherwise; any offset named is below 2401 |
| IndexDecoder.DecodeChild | programs/mappers/src/lib.rs:107-197 | any child the decoder names has an offset below 2401 |
| IndexDecoder.WrongLengthRejected | programs/mappers/src/lib.rs:117-119 | a text of any length other than 15 or 16 is refused with InvalidCell |
| IndexDecoder.LeadingZeroRestored | programs/mappers/src/lib.rs:109-113 | a 15-character text is decided exactly as '0' followed by it |
| IndexDecoder.FieldAboveFinerDigits | programs/mappers/src/lib.rs:84-98 | a layout field that ends at or above bit 45 depends only on the index without its low 18 bits |
| IndexDecoder.LayoutIgnoresFinerDigits | programs/mappers/src/lib.rs:99-104 | two indexes of the same resolution that differ only in the digits of resolutions 10 to 15 are decided alike |
| IndexDecoder.FinerCellAsAncestor | programs/mappers/src/lib.rs:136 | two indexes of resolution 9 or finer that agree on the mode fields and the digits of resolutions 6 to 9 are decided alike, whatever their resolutions: a finer cell counts as its resolution 9 ancestor |
| IndexDecoder.TopByteFields | programs/mappers/src/lib.rs:84-87 | the reserved bit, mode and mode-dependent bits are the fields of the index's top byte |
| IndexDecoder.ModeByteEight | programs/mappers/src/lib.rs:131-132 | the top byte holds reserved bit 0, mode 1 and mode-dependent bits 0 exactly when it is 8 |
| IndexDecoder.HighWordFields | programs/mappers/src/lib.rs:121-137 | the layout's mode fields are right exactly when the high word's top byte is 8, and the layout's resolution is the high word's nibble at bit 20 |
| IndexDecoder.LowWordDigits | programs/mappers/src/lib.rs:95-98 | the layout's digits of resolutions 6 to 9 are the 3-bit fields of the low word at bits 27, 24, 21 and 18 |
| IndexDecoder.NormalizeDigits | programs/mappers/src/lib.rs:109-113 | restoring the leading zero keeps a hexadecimal text hexadecimal and keeps its value |
| IndexDecoder.IndexWords | programs/mappers/src/lib.rs:121-124 | the two 8-character halves of the text parse as the high and low 32-bit words of the 64-bit index |
| IndexDecoder.DecodeMatchesLayout | programs/mappers/src/lib.rs:79-197 | decoding the two 32-bit halves gives the same decision as reading the mode, resolution and child digits off the whole 64-bit index |
| CoverageBitmap.Zeros | programs/mappers/src/lib.rs:320-322 | a zero buffer has 512 bytes, no covered child and no stray bit |
| CoverageBitmap.Mask | programs/mappers/src/lib.rs:177 | `1 << k` as a byte: its value is 2^k, for the eight bit positions; MaskOr states the bit it sets |
| CoverageBitmap.Mark | programs/mappers/src/lib.rs:175-186 | the test-and-set of child c on a buffer, as a value: keeps the buffer length and returns only Ok or HexMapped; MarkCovers, MarkTwice and MarkByte state what it does |
| CoverageBitmap.Modify | programs/mappers/src/lib.rs:72-201 | the whole instruction on a decoded text and a buffer, as a value: keeps the buffer length, and changes the buffer only when it returns Ok for a decoded child; ModifyCovers and ModifyKeepsUnusedClear state what it does |
| CoverageBitmap.MaskOr | programs/mappers/src/lib.rs:177-185 | or-ing `1 << k` into a byte sets bit k and keeps the other seven |
| CoverageBitmap.ByteIndexInBounds | programs/mappers/src/lib.rs:175-176 | the byte index of every child is inside the 512-byte buffer |
| CoverageBitmap.SetBitOnly | programs/mappers/src/lib.rs:175-185 | setting the bit of child c makes c's bit set and leaves every other bit as it was |
| CoverageBitmap.SetBitCovers | programs/mappers/src/lib.rs:184-185 | setting the bit of child c adds exactly c to the covered children |
| CoverageBitmap.SetBitKeepsUnusedClear | programs/mappers/src/lib.rs:320-322 | setting a child's bit keeps the bits past the 2401st clear |
| CoverageBitmap.MarkCovers | programs/mappers/src/lib.rs:175-186 | marking c covers exactly the old children plus c, succeeds exactly when c was not covered, and otherwise fails with HexMapped |
| CoverageBitmap.MarkTwice | programs/mappers/src/lib.rs:179-182 | marking the same child again fails with HexMapped and changes nothing |
| CoverageBitmap.ModifyCovers | programs/mappers/src/lib.rs:72-201 | a call adds the child it names and nothing else, never clears a bit, and returns Ok exactly when the text is accepted without naming a child, or names a child not covered before |
| CoverageBitmap.ModifyKeepsUnusedClear | programs/mappers/src/lib.rs:175-185 | a call keeps the bits past the last child clear |
| CoverageBitmap.MarkEmpty | programs/mappers/src/lib.rs:56-70 | on a new account, marking a child succeeds and the buffer is zero except for that child's bit |
| CoverageBitmap.MarkByte | programs/mappers/src/lib.rs:176-185 | the byte test `new_bit & existing_byte` is the child's bit, and the byte update is the bitmap-level marking |
| CoverageBitmap.Hexbitmap.constructor | programs/mappers/src/lib.rs:56-70 | `create_hexbitmap` stores the parent cell and the device, and starts from a zero buffer of 512 bytes with no child covered |
| CoverageBitmap.Hexbitmap.MarkChild | programs/mappers/src/lib.rs:173-187 | the test-and-set of child c on the account's buffer is the transition `Mark`; it adds c to the covered children and keeps the bits past the last child clear |
| CoverageBitmap.Hexbitmap.ModifyHexbitmap | programs/mappers/src/lib.rs:72-201 | the result and the new buffer are `Modify` of the decoded text and the old buffer: an error changes nothing, an ignored text changes nothing, and a child is marked; the covered children grow by exactly the child the text names |
| Scenarios.HexWord | programs/mappers/src/lib.rs:129 | an 8-character hexadecimal text parses as the word its digits spell |
| Scenarios.FirstTestIndex | tests/mappers.ts:245 | "8912ea6d803ffff" names child 1029, which is bit 5 of byte 128 |
| Scenarios.DuplicateTestIndex | tests/mappers.ts:266 | "8912ccd04a3ffff" names child 231 |
| Scenarios.InvalidModeIndex | tests/mappers.ts:276-285 | "9912ea6d803ffff" is refused with InvalidCell |
| Scenarios.CoarseResolutionIndex | tests/mappers.ts:288-298 | "8812ea6d803ffff" is refused with IncorrectRes9 |
| Scenarios.ModeBeforeResolution | programs/mappers/src/lib.rs:131-140 | with both a wrong mode byte and a coarse resolution, "9812ea6d803ffff" is refused with InvalidCell: the mode check comes first |
| Scenarios.LayoutCommentIndex | programs/mappers/src/lib.rs:81-88 | the resolution 5 index of the layout comment, "85283473fffffff", is refused with IncorrectRes9 |
| Scenarios.SevensIgnored | programs/mappers/src/lib.rs:172-190 | a resolution 9 index whose child digits are all 7 is accepted and names no child |
| Scenarios.BadLowWordIgnored | programs/mappers/src/lib.rs:150-196 | an index whose low word is not hexadecimal is accepted and names no child |
| Scenarios.CoverOnce | programs/mappers/src/lib.rs:175-185 | on a new account, a text that names child c returns Ok and leaves byte c / 8 equal to `1 << (c % 8)` |
| Scenarios.SubmitTwice | tests/mappers.ts:261-274 | on a new account, the same text naming a child returns Ok the first time and HexMapped the second |
| Scenarios.FirstCoverage | tests/mappers.ts:243-245 | the first test's index on a new account returns Ok and sets byte 128 to 0x20 |
| Scenarios.DuplicateSubmission | tests/mappers.ts:261-274 | the duplicate test's second submission is HexMapped, error number 6000 |

## Left out

- The Anchor plumbing is not modelled: account derivation from seeds, account space, the
  payer and signer, and serialization. The model acts on one `Hexbitmap` object, which the
  runtime loads and stores around each call.
- `create_user`, `create_mapper` and the `User` and `Mapper` accounts are not part of this
  model. Only `create_hexbitmap` is modelled, as the `Hexbitmap` constructor.
- `msg!` logging is left out. It has no effect on the result or on the account.
- Rust strings are UTF-8 bytes; the model treats text as a sequence of characters.
  - `len()` and the slices `[0..8]` and `[8..16]` count bytes, which equals characters only
    for ASCII.
  - A non-ASCII text of 15 or 16 bytes, which can panic at a slice boundary, is not modelled.
- Concurrency is left out. The runtime serializes transactions on one account, so the
  test-and-set is atomic.
- No check that the index descends from `parent_hex`. The program never compares the index
  with the account's `parent_hex`, so neither does the model. The field is stored, and
  the program reads it only for logging.
- No check on the index's base cell or the digits of resolutions 1 to 5, and no handling
  of pentagons. The program does none of these, and neither does the model.
- DecodeMatchesLayout: stated only for texts made of hexadecimal digits. Other texts are
  decided by HighWordCheck and ChildOffset as they stand; these include a text with a '+'
  at the start of either 8-character half, which `from_str_radix` accepts.
- The model keeps two choices of the program:
  - A low word that does not parse, or child digits that include a 7, return `Ok` with no
    change.
  - The buffer is 512 bytes, though 301 would hold the 2401 bits (lib.rs:320-321). Every
    bit past bit 2400 stays zero, which `Valid` states.
