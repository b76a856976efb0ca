/** gtest's conversion of wide strings to UTF-8, against the byte layout of section 3 of RFC 3629
    (for up to 21 bits) and the surrogate pairs of section 2 of RFC 2781. */
module Utf8 {

  import opened Options

  // ----- code points as bytes

  const MaxCodePoint1: bv32 := 0x7F
  const MaxCodePoint2: bv32 := 0x7FF
  const MaxCodePoint3: bv32 := 0xFFFF
  const MaxCodePoint4: bv32 := 0x1F_FFFF

  function Low(bits: bv32): bv8
    requires bits < 256
  {
    bits as bv8
  }

  /** A trailing byte 10xxxxxx with the six lowest bits. */
  function Trail(bits: bv32): bv8 {
    Low(0x80 | (bits & 0x3F))
  }

  /** A leading byte 110xxxxx, 1110xxxx or 11110xxx. */
  function Lead2(cp: bv32): bv8
    requires cp <= 0x7FF
  {
    Low(0xC0 | (cp >> 6))
  }

  function Lead3(cp: bv32): bv8
    requires cp <= 0xFFFF
  {
    Low(0xE0 | (cp >> 12))
  }

  function Lead4(cp: bv32): bv8
    requires cp <= 0x1F_FFFF
  {
    Low(0xF0 | (cp >> 18))
  }

  /** The byte layout: as many bytes as the code point needs, the first one telling how many. */
  function Layout(cp: bv32): (bytes: seq<bv8>)
    requires cp <= 0x1F_FFFF
    ensures 1 <= |bytes| <= 4
  {
    if cp <= 0x7F then [Low(cp)]
    else if cp <= 0x7FF then [Lead2(cp), Trail(cp)]
    else if cp <= 0xFFFF then [Lead3(cp), Trail(cp >> 6), Trail(cp)]
    else [Lead4(cp), Trail(cp >> 12), Trail(cp >> 6), Trail(cp)]
  }

  /** The examples of one, two, three and four bytes in section 7 of RFC 3629. */
  lemma ExamplesOfLengths()
    ensures Layout(0x41) == [0x41] && Layout(0x391) == [0xCE, 0x91]
    ensures Layout(0x2262) == [0xE2, 0x89, 0xA2] && Layout(0x233B4) == [0xF0, 0xA3, 0x8E, 0xB4]
  {
  }

  // ----- bytes as code points

  predicate IsLead1(b: bv8) {
    b & 0x80 == 0
  }

  predicate IsLead2(b: bv8) {
    b & 0xE0 == 0xC0
  }

  predicate IsLead3(b: bv8) {
    b & 0xF0 == 0xE0
  }

  predicate IsLead4(b: bv8) {
    b & 0xF8 == 0xF0
  }

  predicate IsTrail(b: bv8) {
    b & 0xC0 == 0x80
  }

  function Payload(b: bv8, mask: bv8): bv32 {
    (b & mask) as bv32
  }

  function Join2(b0: bv8, b1: bv8): bv32 {
    (Payload(b0, 0x1F) << 6) | Payload(b1, 0x3F)
  }

  function Join3(b0: bv8, b1: bv8, b2: bv8): bv32 {
    (Payload(b0, 0x0F) << 12) | (Payload(b1, 0x3F) << 6) | Payload(b2, 0x3F)
  }

  function Join4(b0: bv8, b1: bv8, b2: bv8, b3: bv8): bv32 {
    (Payload(b0, 0x07) << 18) | (Payload(b1, 0x3F) << 12) | (Payload(b2, 0x3F) << 6) | Payload(b3, 0x3F)
  }

  datatype First = First(cp: bv32, length: nat)

  /** Reads one code point other than 0, insisting on the shortest form. */
  function ReadFirst(b: seq<bv8>): (first: Option<First>)
    ensures first.Some? ==> 1 <= first.value.length <= |b|
  {
    if b == [] then None
    else if IsLead1(b[0]) then
      if b[0] == 0 then None else Some(First(b[0] as bv32, 1))
    else if IsLead2(b[0]) && |b| >= 2 && IsTrail(b[1]) then
      var cp := Join2(b[0], b[1]);
      if cp <= 0x7F then None else Some(First(cp, 2))
    else if IsLead3(b[0]) && |b| >= 3 && IsTrail(b[1]) && IsTrail(b[2]) then
      var cp := Join3(b[0], b[1], b[2]);
      if cp <= 0x7FF then None else Some(First(cp, 3))
    else if IsLead4(b[0]) && |b| >= 4 && IsTrail(b[1]) && IsTrail(b[2]) && IsTrail(b[3]) then
      var cp := Join4(b[0], b[1], b[2], b[3]);
      if cp <= 0xFFFF then None else Some(First(cp, 4))
    else None
  }

  /** The bytes of a text, one code point after the other, or None if it is not well-formed. */
  function Decode(b: seq<bv8>): (cps: Option<seq<bv32>>)
    decreases |b|
  {
    if b == [] then Some([]) else
      match ReadFirst(b)
      case None => None
      case Some(first) =>
        match Decode(b[first.length..])
        case None => None
        case Some(cps) => Some([first.cp] + cps)
  }

  // ----- layouts and reading are inverse

  lemma Bits1(cp: bv32)
    requires cp <= 0x7F
    ensures IsLead1(Low(cp)) && Low(cp) as bv32 == cp
  {
  }

  lemma Bits2(cp: bv32)
    requires cp <= 0x7FF
    ensures !IsLead1(Lead2(cp)) && IsLead2(Lead2(cp)) && IsTrail(Trail(cp))
    ensures Join2(Lead2(cp), Trail(cp)) == cp
  {
  }

  lemma Bits3(cp: bv32)
    requires cp <= 0xFFFF
    ensures !IsLead1(Lead3(cp)) && !IsLead2(Lead3(cp)) && IsLead3(Lead3(cp))
    ensures IsTrail(Trail(cp >> 6)) && IsTrail(Trail(cp))
    ensures Join3(Lead3(cp), Trail(cp >> 6), Trail(cp)) == cp
  {
  }

  lemma Bits4(cp: bv32)
    requires cp <= 0x1F_FFFF
    ensures !IsLead1(Lead4(cp)) && !IsLead2(Lead4(cp)) && !IsLead3(Lead4(cp)) && IsLead4(Lead4(cp))
    ensures IsTrail(Trail(cp >> 12)) && IsTrail(Trail(cp >> 6)) && IsTrail(Trail(cp))
    ensures Join4(Lead4(cp), Trail(cp >> 12), Trail(cp >> 6), Trail(cp)) == cp
  {
  }

  lemma ReadFirstOfLayout(cp: bv32, rest: seq<bv8>)
    requires 0 < cp <= 0x1F_FFFF
    ensures ReadFirst(Layout(cp) + rest) == Some(First(cp, |Layout(cp)|))
  {
    hide IsLead1, IsLead2, IsLead3, IsLead4, IsTrail, Lead2, Lead3, Lead4, Trail, Low, Join2, Join3, Join4;
    if cp <= 0x7F {
      Bits1(cp);
    } else if cp <= 0x7FF {
      Bits2(cp);
    } else if cp <= 0xFFFF {
      Bits3(cp);
    } else {
      Bits4(cp);
    }
  }

  lemma Bytes1(b0: bv8)
    requires IsLead1(b0)
    ensures b0 as bv32 <= 0x7F && Low(b0 as bv32) == b0 && (b0 != 0 ==> b0 as bv32 > 0)
  {
  }

  lemma Bytes2(b0: bv8, b1: bv8)
    requires IsLead2(b0) && IsTrail(b1)
    ensures Join2(b0, b1) <= 0x7FF && Lead2(Join2(b0, b1)) == b0 && Trail(Join2(b0, b1)) == b1
  {
  }

  lemma Bytes3(b0: bv8, b1: bv8, b2: bv8)
    requires IsLead3(b0) && IsTrail(b1) && IsTrail(b2)
    ensures var cp := Join3(b0, b1, b2);
            cp <= 0xFFFF && Lead3(cp) == b0 && Trail(cp >> 6) == b1 && Trail(cp) == b2
  {
  }

  lemma Bytes4(b0: bv8, b1: bv8, b2: bv8, b3: bv8)
    requires IsLead4(b0) && IsTrail(b1) && IsTrail(b2) && IsTrail(b3)
    ensures var cp := Join4(b0, b1, b2, b3);
            cp <= 0x1F_FFFF && Lead4(cp) == b0 && Trail(cp >> 12) == b1 && Trail(cp >> 6) == b2 && Trail(cp) == b3
  {
  }

  lemma LayoutOfJoin2(b0: bv8, b1: bv8)
    requires IsLead2(b0) && IsTrail(b1) && Join2(b0, b1) > 0x7F
    ensures Join2(b0, b1) <= 0x1F_FFFF && Layout(Join2(b0, b1)) == [b0, b1]
  {
    Bytes2(b0, b1);
    hide Join2, Lead2, Trail, IsLead2, IsTrail;
  }

  lemma LayoutOfJoin3(b0: bv8, b1: bv8, b2: bv8)
    requires IsLead3(b0) && IsTrail(b1) && IsTrail(b2) && Join3(b0, b1, b2) > 0x7FF
    ensures Join3(b0, b1, b2) <= 0x1F_FFFF && Layout(Join3(b0, b1, b2)) == [b0, b1, b2]
  {
    Bytes3(b0, b1, b2);
    hide Join3, Lead3, Trail, IsLead3, IsTrail;
  }

  lemma LayoutOfJoin4(b0: bv8, b1: bv8, b2: bv8, b3: bv8)
    requires IsLead4(b0) && IsTrail(b1) && IsTrail(b2) && IsTrail(b3) && Join4(b0, b1, b2, b3) > 0xFFFF
    ensures Join4(b0, b1, b2, b3) <= 0x1F_FFFF && Layout(Join4(b0, b1, b2, b3)) == [b0, b1, b2, b3]
  {
    Bytes4(b0, b1, b2, b3);
    hide Join4, Lead4, Trail, IsLead4, IsTrail;
  }

  /** The first n bytes are the layout of cp. */
  ghost predicate StartsWith(b: seq<bv8>, first: First) {
    0 < first.cp <= 0x1F_FFFF && first.length <= |b| && Layout(first.cp) == b[..first.length]
  }

  lemma StartsWithTwo(b: seq<bv8>)
    requires |b| >= 2 && IsLead2(b[0]) && IsTrail(b[1]) && Join2(b[0], b[1]) > 0x7F
    ensures StartsWith(b, First(Join2(b[0], b[1]), 2))
  {
    LayoutOfJoin2(b[0], b[1]);
    hide Layout, Join2, IsLead2, IsTrail;
  }

  lemma StartsWithThree(b: seq<bv8>)
    requires |b| >= 3 && IsLead3(b[0]) && IsTrail(b[1]) && IsTrail(b[2]) && Join3(b[0], b[1], b[2]) > 0x7FF
    ensures StartsWith(b, First(Join3(b[0], b[1], b[2]), 3))
  {
    LayoutOfJoin3(b[0], b[1], b[2]);
    hide Layout, Join3, IsLead3, IsTrail;
  }

  lemma StartsWithFour(b: seq<bv8>)
    requires |b| >= 4 && IsLead4(b[0]) && IsTrail(b[1]) && IsTrail(b[2]) && IsTrail(b[3])
    requires Join4(b[0], b[1], b[2], b[3]) > 0xFFFF
    ensures StartsWith(b, First(Join4(b[0], b[1], b[2], b[3]), 4))
  {
    LayoutOfJoin4(b[0], b[1], b[2], b[3]);
    hide Layout, Join4, IsLead4, IsTrail;
  }

  lemma StartsWithOne(b: seq<bv8>)
    requires |b| >= 1 && IsLead1(b[0]) && b[0] != 0
    ensures StartsWith(b, First(b[0] as bv32, 1))
  {
    Bytes1(b[0]);
    hide Low, IsLead1;
  }

  lemma LayoutOfReadFirst(b: seq<bv8>)
    requires ReadFirst(b).Some?
    ensures StartsWith(b, ReadFirst(b).value)
  {
    hide IsLead1, IsLead2, IsLead3, IsLead4, IsTrail, Join2, Join3, Join4, StartsWith;
    if IsLead1(b[0]) {
      StartsWithOne(b);
    } else if IsLead2(b[0]) && |b| >= 2 && IsTrail(b[1]) {
      StartsWithTwo(b);
    } else if IsLead3(b[0]) && |b| >= 3 && IsTrail(b[1]) && IsTrail(b[2]) {
      StartsWithThree(b);
    } else {
      StartsWithFour(b);
    }
  }

  // ----- whole texts

  /** The bytes written for a code point: its layout, nothing for 0 (a C string ends there), and a
      message for what has more than 21 bits. */
  function Encoded(cp: bv32): seq<bv8> {
    if cp > MaxCodePoint4 then InvalidUnicode(cp)
    else if cp == 0 then []
    else Layout(cp)
  }

  function InvalidUnicode(cp: bv32): seq<bv8> {
    Ascii("(Invalid Unicode 0x") + FormatHexInt(cp as nat) + Ascii(")")
  }

  /** What the documentation says: the message for everything outside Unicode, which ends at U+10FFFF. */
  function Documented(cp: bv32): seq<bv8> {
    if cp > 0x10_FFFF then InvalidUnicode(cp)
    else if cp == 0 then []
    else Layout(cp)
  }

  /** The code does what is documented exactly outside of the code points from 0x110000 up to 21 bits, which it
      encodes. */
  lemma EncodedAsDocumentedIff(cp: bv32)
    ensures Encoded(cp) == Documented(cp) <==> !(0x10_FFFF < cp <= MaxCodePoint4)
  {
    hide Layout, InvalidUnicode;
    MessageIsLong(cp);
  }

  lemma MessageIsLong(cp: bv32)
    ensures |InvalidUnicode(cp)| > 4
  {
    hide Ascii, FormatHexInt;
  }

  function EncodeAll(cps: seq<bv32>): seq<bv8> {
    if cps == [] then [] else Encoded(cps[0]) + EncodeAll(cps[1..])
  }

  predicate IsCodePoints(cps: seq<bv32>) {
    forall i :: 0 <= i < |cps| ==> 0 < cps[i] <= MaxCodePoint4
  }

  lemma {:induction false} DecodeEncodes(cps: seq<bv32>)
    requires IsCodePoints(cps)
    ensures Decode(EncodeAll(cps)) == Some(cps)
    decreases |cps|
  {
    if cps != [] {
      hide Layout, ReadFirst;
      DecodeEncodes(cps[1..]);
      var layout, rest := Layout(cps[0]), EncodeAll(cps[1..]);
      ReadFirstOfLayout(cps[0], rest);
      assert EncodeAll(cps) == layout + rest;
      assert (layout + rest)[|layout|..] == rest;
      assert cps == [cps[0]] + cps[1..];
    }
  }

  lemma EncodeOneMore(cp: bv32, cps: seq<bv32>)
    ensures EncodeAll([cp] + cps) == Encoded(cp) + EncodeAll(cps)
  {
    assert ([cp] + cps)[1..] == cps;
  }

  lemma DecodeOneMore(b: seq<bv8>)
    requires b != [] && Decode(b).Some?
    ensures ReadFirst(b).Some?
    ensures var first := ReadFirst(b).value;
            Decode(b[first.length..]).Some? && Decode(b).value == [first.cp] + Decode(b[first.length..]).value
  {
    hide ReadFirst;
  }

  /** What is read first is encoded back to the bytes it was read from. */
  lemma EncodeOfReadFirst(b: seq<bv8>)
    requires ReadFirst(b).Some?
    ensures 0 < ReadFirst(b).value.cp <= MaxCodePoint4
    ensures Encoded(ReadFirst(b).value.cp) + b[ReadFirst(b).value.length..] == b
  {
    hide Layout, ReadFirst;
    LayoutOfReadFirst(b);
    var n := ReadFirst(b).value.length;
    assert b == b[..n] + b[n..];
  }

  lemma CodePointsJoin(cp: bv32, cps: seq<bv32>)
    requires 0 < cp <= MaxCodePoint4 && IsCodePoints(cps)
    ensures IsCodePoints([cp] + cps)
  {
  }

  lemma {:induction false} EncodeDecodes(b: seq<bv8>)
    requires Decode(b).Some?
    ensures IsCodePoints(Decode(b).value) && EncodeAll(Decode(b).value) == b
    decreases |b|
  {
    if b != [] {
      hide ReadFirst, Encoded, Decode, EncodeAll, IsCodePoints;
      DecodeOneMore(b);
      EncodeOfReadFirst(b);
      var first := ReadFirst(b).value;
      var cps := Decode(b[first.length..]).value;
      EncodeDecodes(b[first.length..]);
      CodePointsJoin(first.cp, cps);
      EncodeOneMore(first.cp, cps);
    }
  }

  /** Encoding is a bijection between the sequences of code points and the well-formed byte
      sequences: in particular, no two texts share their bytes. */
  lemma EncodesIffDecodes(cps: seq<bv32>, b: seq<bv8>)
    ensures IsCodePoints(cps) && EncodeAll(cps) == b <==> Decode(b) == Some(cps)
  {
    if IsCodePoints(cps) {
      DecodeEncodes(cps);
    }
    if Decode(b).Some? {
      EncodeDecodes(b);
    }
  }

  // ----- messages

  function Ascii(s: string): (bytes: seq<bv8>)
    ensures |bytes| == |s|
  {
    if s == "" then [] else [(s[0] as int % 0x100) as bv8] + Ascii(s[1..])
  }

  function HexDigit(d: nat): (c: bv8)
    requires d < 16
  {
    (if d < 10 then 0x30 + d else 0x41 + d - 10) as bv8
  }

  function FormatHexInt(n: nat): (digits: seq<bv8>)
    ensures |digits| >= 1
  {
    if n < 16 then [HexDigit(n)] else FormatHexInt(n / 16) + [HexDigit(n % 16)]
  }

  function DigitValue(c: bv8): int {
    if c < 0x41 then c as int - 0x30 else c as int - 0x41 + 10
  }

  function HexValue(digits: seq<bv8>): int {
    if digits == [] then 0 else
      16 * HexValue(digits[..|digits| - 1]) + DigitValue(digits[|digits| - 1])
  }

  lemma DigitReadsBack(d: nat)
    requires d < 16
    ensures DigitValue(HexDigit(d)) == d
    ensures d > 0 ==> HexDigit(d) != 0x30
  {
  }

  /** The digits read back to the number, and there is no leading zero. */
  lemma {:induction false} HexReadsBack(n: nat)
    ensures HexValue(FormatHexInt(n)) == n
    ensures n > 0 ==> FormatHexInt(n)[0] != 0x30
  {
    hide HexDigit, DigitValue;
    DigitReadsBack(n % 16);
    if n >= 16 {
      HexReadsBack(n / 16);
      var digits := FormatHexInt(n);
      assert digits[..|digits| - 1] == FormatHexInt(n / 16);
    } else {
      assert [HexDigit(n)][..0] == [];
    }
  }

  // ----- one code point

  /** The n lowest bits, and the bits without them. */
  function ChopLowBits(bits: bv32, n: nat): (chopped: (bv32, bv32))
    requires n < 32
  {
    (bits & (((1 as bv32) << n) - 1), bits >> n)
  }

  /** The characters in front of the terminator. */
  function UpToNul(b: seq<bv8>): seq<bv8> {
    if b == [] || b[0] == 0 then [] else [b[0]] + UpToNul(b[1..])
  }

  lemma {:induction false} UpToNulIs(b: seq<bv8>, n: nat)
    requires n < |b| && b[n] == 0 && forall i :: 0 <= i < n ==> b[i] != 0
    ensures UpToNul(b) == b[..n]
    decreases n
  {
    if n > 0 {
      UpToNulIs(b[1..], n - 1);
    }
  }

  lemma TrailByte(bits: bv32, low: bv32)
    requires low == bits & 0x3F
    ensures 0x80 | low < 256 && Low(0x80 | low) == Trail(bits) && Trail(bits) != 0
  {
  }

  lemma ChopSix(bits: bv32)
    ensures ChopLowBits(bits, 6) == (bits & 0x3F, bits >> 6)
  {
  }

  lemma LayoutHasNoNul(cp: bv32, i: nat)
    requires 0 < cp <= 0x1F_FFFF && i < |Layout(cp)|
    ensures Layout(cp)[i] != 0
  {
    LeadIsNotNul(cp);
    TrailIsNotNul(cp);
    TrailIsNotNul(cp >> 6);
    TrailIsNotNul(cp >> 12);
    hide Lead2, Lead3, Lead4, Trail, Low;
  }

  lemma TrailIsNotNul(bits: bv32)
    ensures Trail(bits) != 0
  {
  }

  lemma LeadIsNotNul(cp: bv32)
    requires 0 < cp <= 0x1F_FFFF
    ensures cp <= 0xFF ==> Low(cp) != 0
    ensures cp <= 0x7FF ==> Lead2(cp) != 0
    ensures cp <= 0xFFFF ==> Lead3(cp) != 0
    ensures Lead4(cp) != 0
  {
  }

  /** What a buffer holds once a layout and a terminator have been stored in it. */
  lemma StoredLayout(b: seq<bv8>, cp: bv32)
    requires |b| == 5 && cp <= 0x1F_FFFF && Holds(b, cp)
    ensures UpToNul(b) == Encoded(cp)
  {
    if cp == 0 {
      assert b[0] == Layout(cp)[0];
    } else {
      var n := |Layout(cp)|;
      forall i | 0 <= i < n
        ensures b[i] != 0
      {
        LayoutHasNoNul(cp, i);
        assert b[i] == b[..n][i];
      }
      UpToNulIs(b, n);
    }
  }

  function Drop6(bits: bv32): bv32 {
    bits >> 6
  }

  /** Shifting step by step leaves the bits of the leading byte. */
  lemma LeadByChopping(cp: bv32)
    requires cp <= 0x1F_FFFF
    ensures Drop6(Drop6(cp)) == cp >> 12
    ensures cp <= 0x7FF ==> 0xC0 | Drop6(cp) < 256 && Low(0xC0 | Drop6(cp)) == Lead2(cp)
    ensures cp <= 0xFFFF ==> 0xE0 | Drop6(Drop6(cp)) < 256 && Low(0xE0 | Drop6(Drop6(cp))) == Lead3(cp)
    ensures 0xF0 | Drop6(Drop6(Drop6(cp))) < 256 && Low(0xF0 | Drop6(Drop6(Drop6(cp)))) == Lead4(cp)
  {
    assert cp >> 6 >> 6 >> 6 == cp >> 18;
  }

  /** What the first n bytes of a buffer have to be. */
  ghost predicate Holds(b: seq<bv8>, cp: bv32)
    requires |b| == 5 && cp <= 0x1F_FFFF
  {
    b[..|Layout(cp)|] == Layout(cp) && b[|Layout(cp)|] == 0
  }

  lemma HoldsOne(b: seq<bv8>, cp: bv32)
    requires |b| == 5 && cp <= 0x7F && b[0] == Low(cp) && b[1] == 0
    ensures Holds(b, cp)
  {
  }

  lemma HoldsTwo(b: seq<bv8>, cp: bv32)
    requires |b| == 5 && 0x7F < cp <= 0x7FF && b[0] == Lead2(cp) && b[1] == Trail(cp) && b[2] == 0
    ensures Holds(b, cp)
  {
    hide Lead2, Trail;
  }

  lemma HoldsThree(b: seq<bv8>, cp: bv32)
    requires |b| == 5 && 0x7FF < cp <= 0xFFFF
    requires b[0] == Lead3(cp) && b[1] == Trail(Drop6(cp)) && b[2] == Trail(cp) && b[3] == 0
    ensures Holds(b, cp)
  {
    hide Lead3, Trail;
  }

  lemma HoldsFour(b: seq<bv8>, cp: bv32)
    requires |b| == 5 && 0xFFFF < cp <= 0x1F_FFFF
    requires b[0] == Lead4(cp) && b[1] == Trail(Drop6(Drop6(cp))) && b[2] == Trail(Drop6(cp))
    requires b[3] == Trail(cp) && b[4] == 0
    ensures Holds(b, cp)
  {
    LeadByChopping(cp);
    hide Lead4, Trail;
  }

  /** Turns the six lowest bits into a trailing byte at index i and removes them. */
  method StoreTrail(str: array<bv8>, i: nat, bits: bv32) returns (rest: bv32)
    requires i < str.Length
    modifies str
    ensures str[..] == old(str[..])[i := Trail(bits)] && rest == Drop6(bits)
  {
    ChopSix(bits);
    TrailByte(bits, bits & 0x3F);
    var chopped := ChopLowBits(bits, 6);
    str[i], rest := Low(0x80 | chopped.0), chopped.1;
  }

  method CodePointToUtf8(codePoint: bv32) returns (s: seq<bv8>)
    ensures s == Encoded(codePoint)
  {
    if codePoint > MaxCodePoint4 {
      return Ascii("(Invalid Unicode 0x") + FormatHexInt(codePoint as nat) + Ascii(")");
    }
    var str := new bv8[5];
    LeadByChopping(codePoint);
    hide Trail, Low, Lead2, Lead3, Lead4, Layout, Drop6, Holds;
    if codePoint <= MaxCodePoint1 {
      str[1] := 0;
      str[0] := Low(codePoint);
      HoldsOne(str[..], codePoint);
    } else if codePoint <= MaxCodePoint2 {
      str[2] := 0;
      var code1 := StoreTrail(str, 1, codePoint);
      str[0] := Low(0xC0 | code1);
      HoldsTwo(str[..], codePoint);
    } else if codePoint <= MaxCodePoint3 {
      str[3] := 0;
      var code2 := StoreTrail(str, 2, codePoint);
      var code1 := StoreTrail(str, 1, code2);
      str[0] := Low(0xE0 | code1);
      HoldsThree(str[..], codePoint);
    } else {
      str[4] := 0;
      var code3 := StoreTrail(str, 3, codePoint);
      var code2 := StoreTrail(str, 2, code3);
      var code1 := StoreTrail(str, 1, code2);
      str[0] := Low(0xF0 | code1);
      HoldsFour(str[..], codePoint);
    }
    StoredLayout(str[..], codePoint);
    s := UpToNul(str[..]);
  }

  // ----- UTF-16

  function IsHighSurrogate(unit: bv32): bool {
    unit & 0xFC00 == 0xD800
  }

  function IsLowSurrogate(unit: bv32): bool {
    unit & 0xFC00 == 0xDC00
  }

  /** Wide characters are 16-bit units of UTF-16, or code points themselves. */
  predicate IsUtf16SurrogatePair(utf16: bool, first: bv32, second: bv32) {
    utf16 && IsHighSurrogate(first) && IsLowSurrogate(second)
  }

  function JoinPair(first: bv32, second: bv32): bv32 {
    ((first & 0x3FF) << 10) | (second & 0x3FF)
  }

  function CreateCodePointFromUtf16SurrogatePair(utf16: bool, first: bv32, second: bv32): bv32 {
    if utf16 then JoinPair(first, second) + 0x1_0000 else first
  }

  /** The code points of a wide string; unpaired surrogates stand for themselves. */
  function CodePoints(utf16: bool, s: seq<bv32>): seq<bv32> {
    if s == [] then []
    else if |s| >= 2 && IsUtf16SurrogatePair(utf16, s[0], s[1]) then
      [CreateCodePointFromUtf16SurrogatePair(utf16, s[0], s[1])] + CodePoints(utf16, s[2..])
    else [s[0]] + CodePoints(utf16, s[1..])
  }

  function HighUnit(bits: bv32): bv32 {
    0xD800 | (bits >> 10)
  }

  function LowUnit(bits: bv32): bv32 {
    0xDC00 | (bits & 0x3FF)
  }

  /** The encoding in units: section 2.1 of RFC 2781. */
  function Units(cp: bv32): (units: seq<bv32>)
    ensures |units| > 0
  {
    if cp < 0x1_0000 then [cp]
    else [HighUnit(cp - 0x1_0000), LowUnit(cp - 0x1_0000)]
  }

  function ToUtf16(cps: seq<bv32>): seq<bv32> {
    if cps == [] then [] else Units(cps[0]) + ToUtf16(cps[1..])
  }

  predicate AreUnits(s: seq<bv32>) {
    forall i :: 0 <= i < |s| ==> 0 < s[i] < 0x1_0000
  }

  lemma JoinedBits(first: bv32, second: bv32)
    requires first < 0x1_0000 && second < 0x1_0000 && IsHighSurrogate(first) && IsLowSurrogate(second)
    ensures JoinPair(first, second) <= 0xF_FFFF
    ensures HighUnit(JoinPair(first, second)) == first && LowUnit(JoinPair(first, second)) == second
  {
  }

  lemma SplitBits(bits: bv32)
    requires bits <= 0xF_FFFF
    ensures IsHighSurrogate(HighUnit(bits)) && IsLowSurrogate(LowUnit(bits)) && !IsLowSurrogate(HighUnit(bits))
    ensures 0 < HighUnit(bits) < 0x1_0000 && 0 < LowUnit(bits) < 0x1_0000
    ensures JoinPair(HighUnit(bits), LowUnit(bits)) == bits
  {
  }

  lemma UnitsOfOffset(bits: bv32)
    requires bits <= 0xF_FFFF
    ensures 0x1_0000 <= bits + 0x1_0000 <= 0x10_FFFF
    ensures Units(bits + 0x1_0000) == [HighUnit(bits), LowUnit(bits)]
  {
    hide HighUnit, LowUnit;
    assert bits + 0x1_0000 - 0x1_0000 == bits;
  }

  lemma PairUnits(first: bv32, second: bv32)
    requires first < 0x1_0000 && second < 0x1_0000 && IsUtf16SurrogatePair(true, first, second)
    ensures Units(CreateCodePointFromUtf16SurrogatePair(true, first, second)) == [first, second]
  {
    JoinedBits(first, second);
    UnitsOfOffset(JoinPair(first, second));
    hide JoinPair, HighUnit, LowUnit, IsHighSurrogate, IsLowSurrogate, Units;
  }

  lemma PairIsHigh(first: bv32, second: bv32)
    ensures 0x1_0000 <= CreateCodePointFromUtf16SurrogatePair(true, first, second) <= 0x10_FFFF
  {
    assert JoinPair(first, second) <= 0xF_FFFF;
  }

  lemma ToUtf16OneMore(cp: bv32, cps: seq<bv32>)
    ensures ToUtf16([cp] + cps) == Units(cp) + ToUtf16(cps)
  {
    assert ([cp] + cps)[1..] == cps;
  }

  lemma UnitsFrom(s: seq<bv32>, n: nat)
    requires AreUnits(s) && n <= |s|
    ensures AreUnits(s[n..])
  {
  }

  /** Any string of units, well-formed or not, can be recovered from its code points. */
  lemma {:induction false} UnitsOfCodePoints(s: seq<bv32>)
    requires AreUnits(s)
    ensures ToUtf16(CodePoints(true, s)) == s && IsCodePoints(CodePoints(true, s))
    decreases |s|
  {
    if s != [] {
      hide IsHighSurrogate, IsLowSurrogate, Units, CreateCodePointFromUtf16SurrogatePair, IsUtf16SurrogatePair;
      hide IsCodePoints, ToUtf16;
      if |s| >= 2 && IsUtf16SurrogatePair(true, s[0], s[1]) {
        var cp, rest := CreateCodePointFromUtf16SurrogatePair(true, s[0], s[1]), CodePoints(true, s[2..]);
        UnitsFrom(s, 2);
        UnitsOfCodePoints(s[2..]);
        PairUnits(s[0], s[1]);
        PairIsHigh(s[0], s[1]);
        ToUtf16OneMore(cp, rest);
        CodePointsJoin(cp, rest);
        assert s == [s[0], s[1]] + s[2..];
      } else {
        var rest := CodePoints(true, s[1..]);
        UnitsFrom(s, 1);
        UnitsOfCodePoints(s[1..]);
        OneUnit(s[0]);
        ToUtf16OneMore(s[0], rest);
        CodePointsJoin(s[0], rest);
        assert s == [s[0]] + s[1..];
      }
    }
  }

  lemma OneUnit(unit: bv32)
    requires unit < 0x1_0000
    ensures Units(unit) == [unit]
  {
  }

  /** Code points that only look like a surrogate pair. */
  predicate HasFalsePair(cps: seq<bv32>) {
    exists i :: 0 <= i < |cps| - 1 && IsFalsePair(cps[i], cps[i + 1])
  }

  predicate IsFalsePair(first: bv32, second: bv32) {
    first < 0x1_0000 && second < 0x1_0000 && IsUtf16SurrogatePair(true, first, second)
  }

  lemma PairOfUnits(cp: bv32)
    requires 0x1_0000 <= cp <= 0x10_FFFF
    ensures var u := Units(cp);
            |u| == 2 && IsUtf16SurrogatePair(true, u[0], u[1])
            && CreateCodePointFromUtf16SurrogatePair(true, u[0], u[1]) == cp
            && 0 < u[0] < 0x1_0000 && 0 < u[1] < 0x1_0000
            && !IsLowSurrogate(u[0])
  {
    OffsetBack(cp);
    SplitBits(cp - 0x1_0000);
    hide JoinPair, HighUnit, LowUnit, IsHighSurrogate, IsLowSurrogate;
  }

  lemma OffsetBack(cp: bv32)
    requires 0x1_0000 <= cp <= 0x10_FFFF
    ensures cp - 0x1_0000 <= 0xF_FFFF && cp - 0x1_0000 + 0x1_0000 == cp
  {
  }

  /** A sequence of code points survives UTF-16 exactly if no two neighbours in it look like a pair. */
  lemma {:induction false} SurvivesUtf16Iff(cps: seq<bv32>)
    requires forall i :: 0 <= i < |cps| ==> cps[i] <= 0x10_FFFF
    ensures CodePoints(true, ToUtf16(cps)) == cps <==> !HasFalsePair(cps)
    decreases |cps|
  {
    if cps != [] {
      var cp, rest := cps[0], cps[1..];
      SurvivesUtf16Iff(rest);
      FalsePairsIn(cps);
      FirstDecodes(cp, rest);
      assert cps == [cp] + rest;
    }
  }

  /** The shortest sequence that does not: it comes back as one code point. */
  lemma LoneSurrogatesMerge()
    ensures CodePoints(true, ToUtf16([0xD800, 0xDC00])) == [0x1_0000] != [0xD800, 0xDC00]
    ensures HasFalsePair([0xD800, 0xDC00])
  {
    var cps: seq<bv32> := [0xD800, 0xDC00];
    assert cps[1..] == [0xDC00] && cps[1..][1..] == [];
    assert ToUtf16([0xDC00]) == [0xDC00];
    assert ToUtf16(cps) == cps;
    assert CodePoints(true, cps) == [0x1_0000] + CodePoints(true, cps[2..]);
    assert IsFalsePair(cps[0], cps[1]);
  }

  lemma FalsePairsIn(cps: seq<bv32>)
    requires cps != []
    ensures HasFalsePair(cps) <==> (|cps| > 1 && IsFalsePair(cps[0], cps[1])) || HasFalsePair(cps[1..])
  {
    hide IsFalsePair;
    var rest := cps[1..];
    if i :| 0 <= i < |cps| - 1 && IsFalsePair(cps[i], cps[i + 1]) {
      assert i > 0 ==> IsFalsePair(rest[i - 1], rest[i]);
    }
    if i :| 0 <= i < |rest| - 1 && IsFalsePair(rest[i], rest[i + 1]) {
      assert IsFalsePair(cps[i + 1], cps[i + 2]);
    }
  }

  lemma FirstDecodes(cp: bv32, rest: seq<bv32>)
    requires cp <= 0x10_FFFF && forall i :: 0 <= i < |rest| ==> rest[i] <= 0x10_FFFF
    ensures var s := Units(cp) + ToUtf16(rest);
            if rest != [] && IsFalsePair(cp, rest[0]) then CodePoints(true, s)[..1] != [cp]
            else CodePoints(true, s) == [cp] + CodePoints(true, ToUtf16(rest))
  {
    var s, tail := Units(cp) + ToUtf16(rest), ToUtf16(rest);
    if cp < 0x1_0000 {
      OneUnit(cp);
      assert s == [cp] + tail && s[1..] == tail;
      if rest != [] {
        if rest[0] < 0x1_0000 {
          OneUnit(rest[0]);
          if IsFalsePair(cp, rest[0]) {
            PairIsHigh(cp, rest[0]);
          }
        } else {
          PairOfUnits(rest[0]);
        }
      }
    } else {
      PairOfUnits(cp);
      assert s[2..] == tail;
    }
  }

  // ----- wide strings

  lemma {:induction false} NoPairsInUtf32(s: seq<bv32>)
    ensures CodePoints(false, s) == s
  {
    if s != [] {
      NoPairsInUtf32(s[1..]);
    }
  }

  /** The part of a wide string that is converted. */
  function Converted(str: seq<bv32>, numChars: int): (s: seq<bv32>)
    ensures s <= str
  {
    if numChars == -1 || numChars > |str| then str else if numChars < 0 then [] else str[..numChars]
  }

  function WideAt(str: seq<bv32>, i: nat): bv32 {
    if i < |str| then str[i] else 0
  }

  lemma CodePointsFrom(utf16: bool, s: seq<bv32>, i: nat)
    requires i < |s|
    ensures var rest := s[i..];
            if i + 1 < |s| && IsUtf16SurrogatePair(utf16, s[i], s[i + 1]) then
              CodePoints(utf16, rest)
              == [CreateCodePointFromUtf16SurrogatePair(utf16, s[i], s[i + 1])] + CodePoints(utf16, s[i + 2..])
            else CodePoints(utf16, rest) == [s[i]] + CodePoints(utf16, s[i + 1..])
  {
    var rest := s[i..];
    assert rest[1..] == s[i + 1..];
    assert i + 1 < |s| ==> rest[2..] == s[i + 2..];
  }

  lemma NulIsNoSurrogate()
    ensures !IsLowSurrogate(0)
  {
  }

  /** Writes the bytes of the string's code points. What is written reads back to the string: from
      UTF-16 whatever units the string has, and from UTF-32 if its characters have at most 21 bits. */
  method WideStringToUtf8(utf16: bool, str: seq<bv32>, numChars: int) returns (stream: seq<bv8>)
    requires |str| <= 0x7FFF_FFFF && 0 !in str
    requires utf16 ==> AreUnits(str)
    ensures stream == EncodeAll(CodePoints(utf16, Converted(str, numChars)))
    ensures utf16 ==> Decode(stream).Some? && ToUtf16(Decode(stream).value) == Converted(str, numChars)
    ensures !utf16 && IsCodePoints(Converted(str, numChars)) ==> Decode(stream) == Some(Converted(str, numChars))
  {
    ghost var s := Converted(str, numChars);
    var limit := if numChars == -1 then |str| else numChars;
    hide CreateCodePointFromUtf16SurrogatePair, CodePoints, Encoded, EncodeAll, IsHighSurrogate, IsLowSurrogate;
    stream := [];
    EncodeNothing();
    var i := 0;
    while i < limit
      invariant 0 <= i <= |s|
      invariant stream + EncodeAll(CodePoints(utf16, s[i..])) == EncodeAll(CodePoints(utf16, s[0..]))
      decreases limit - i
    {
      var codePoint;
      if WideAt(str, i) == 0 {
        break;
      }
      assert i < |s|;
      CodePointsFrom(utf16, s, i);
      NulIsNoSurrogate();
      if i + 1 < limit && IsUtf16SurrogatePair(utf16, str[i], WideAt(str, i + 1)) {
        codePoint := CreateCodePointFromUtf16SurrogatePair(utf16, str[i], str[i + 1]);
        i := i + 1;
      } else {
        codePoint := str[i];
      }
      i := i + 1;
      EncodeOneMore(codePoint, CodePoints(utf16, s[i..]));
      var bytes := CodePointToUtf8(codePoint);
      stream := stream + bytes;
    }
    assert s[i..] == [] && s[0..] == s;
    WideRoundTrip(utf16, str, s);
  }

  lemma EncodeNothing()
    ensures EncodeAll(CodePoints(true, [])) == [] && EncodeAll(CodePoints(false, [])) == []
  {
  }

  lemma WideRoundTrip(utf16: bool, str: seq<bv32>, s: seq<bv32>)
    requires s <= str && (utf16 ==> AreUnits(str))
    ensures var bytes := EncodeAll(CodePoints(utf16, s));
            (utf16 ==> Decode(bytes).Some? && ToUtf16(Decode(bytes).value) == s)
            && (!utf16 && IsCodePoints(s) ==> Decode(bytes) == Some(s))
  {
    if utf16 {
      UnitsOfCodePoints(s);
      DecodeEncodes(CodePoints(true, s));
    } else if IsCodePoints(s) {
      NoPairsInUtf32(s);
      DecodeEncodes(s);
    }
  }
}
