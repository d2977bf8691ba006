/** generate_uuid_v4 (uuid.cc): masks, shifts and zero-padded hexadecimal printing on 64-bit words.
    The two generator outputs are supplied. */
module Uuid {

  const VERSION_MASK: bv64 := 0xFFFF_FFFF_FFFF_0FFF
  const VERSION_BITS: bv64 := 0x0000_0000_0000_4000
  const VARIANT_MASK: bv64 := 0x3FFF_FFFF_FFFF_FFFF
  const VARIANT_BITS: bv64 := 0x8000_0000_0000_0000

  function Digit(x: bv64): char {
    if x == 0 then '0' else if x == 1 then '1' else if x == 2 then '2' else if x == 3 then '3'
    else if x == 4 then '4' else if x == 5 then '5' else if x == 6 then '6' else if x == 7 then '7'
    else if x == 8 then '8' else if x == 9 then '9' else if x == 10 then 'a' else if x == 11 then 'b'
    else if x == 12 then 'c' else if x == 13 then 'd' else if x == 14 then 'e' else 'f'
  }

  function Value(c: char): bv64 {
    if c == '0' then 0 else if c == '1' then 1 else if c == '2' then 2 else if c == '3' then 3
    else if c == '4' then 4 else if c == '5' then 5 else if c == '6' then 6 else if c == '7' then 7
    else if c == '8' then 8 else if c == '9' then 9 else if c == 'a' then 10 else if c == 'b' then 11
    else if c == 'c' then 12 else if c == 'd' then 13 else if c == 'e' then 14 else 15
  }

  predicate IsHex(c: char) {
    '0' <= c <= '9' || 'a' <= c <= 'f'
  }

  lemma DigitValue(x: bv64)
    ensures IsHex(Digit(x)) && (x < 16 ==> Value(Digit(x)) == x)
  {
  }

  /** The sixteen digits, lower-case letters included. */
  lemma DigitLetters()
    ensures [Digit(0), Digit(1), Digit(2), Digit(3), Digit(4), Digit(5), Digit(6), Digit(7)] == "01234567"
    ensures [Digit(8), Digit(9), Digit(10), Digit(11), Digit(12), Digit(13), Digit(14), Digit(15)] == "89abcdef"
  {
  }

  // ----- std::hex with std::setfill('0') and std::setw -----

  // The digits an output stream prints, of at most n: no leading zero except for zero itself.
  function Significant(x: bv64, n: nat): string {
    if n <= 1 || x >> 4 == 0 then [Digit(x & 0xF)] else Significant(x >> 4, n - 1) + [Digit(x & 0xF)]
  }

  function Zeros(n: nat): string {
    seq(n, _ => '0')
  }

  function Padded(x: bv64, width: nat): string {
    var s := Significant(x, 16);
    if |s| < width then Zeros(width - |s|) + s else s
  }

  // Exactly w digits, leading zeros included.
  function Hex(x: bv64, w: nat): string {
    if w == 0 then "" else Hex(x >> 4, w - 1) + [Digit(x & 0xF)]
  }

  function Unhex(s: string): bv64 {
    if s == "" then 0 else (Unhex(s[..|s| - 1]) << 4) | Value(s[|s| - 1])
  }

  // x has at most w hexadecimal digits.
  predicate Fits(x: bv64, w: nat) {
    if w == 0 then x == 0 else Fits(x >> 4, w - 1)
  }

  lemma {:induction false} HexShape(x: bv64, w: nat)
    ensures |Hex(x, w)| == w && forall c :: c in Hex(x, w) ==> IsHex(c)
  {
    if w > 0 {
      HexShape(x >> 4, w - 1);
      DigitValue(x & 0xF);
    }
  }

  lemma {:induction false} HexOfZero(w: nat)
    ensures Hex(0, w) == Zeros(w)
  {
    if w > 0 {
      HexOfZero(w - 1);
      assert Zeros(w) == Zeros(w - 1) + ['0'];
    }
  }

  lemma OneMoreDigit(zeros: string, s: string, d: string, digits: string)
    requires zeros + s == digits
    ensures zeros + (s + d) == digits + d
  {
    assert zeros + (s + d) == zeros + s + d;
  }

  /** Padding what the stream prints to a width that the value fits gives exactly that many digits. */
  lemma {:induction false} PaddingIsHex(x: bv64, n: nat, w: nat)
    requires 1 <= w <= n && Fits(x, w)
    ensures |Significant(x, n)| <= w && Zeros(w - |Significant(x, n)|) + Significant(x, n) == Hex(x, w)
  {
    var d := [Digit(x & 0xF)];
    if n <= 1 || x >> 4 == 0 {
      if w == 1 {
        assert Hex(x, 1) == Hex(x >> 4, 0) + d;
      } else {
        HexOfZero(w - 1);
      }
    } else {
      assert w > 1;
      PaddingIsHex(x >> 4, n - 1, w - 1);
      var s := Significant(x >> 4, n - 1);
      OneMoreDigit(Zeros(w - 1 - |s|), s, d, Hex(x >> 4, w - 1));
    }
  }

  lemma PaddedIsHex(x: bv64, w: nat)
    requires 1 <= w <= 16 && Fits(x, w)
    ensures Padded(x, w) == Hex(x, w)
  {
    PaddingIsHex(x, 16, w);
    if |Significant(x, 16)| == w {
      assert Zeros(0) + Significant(x, 16) == Significant(x, 16);
    }
  }

  lemma NibbleStep(x: bv64, high: bv64)
    requires high == x >> 4
    ensures (high << 4) | Value(Digit(x & 0xF)) == x
  {
    NibbleSplit(x);
    DigitValue(x & 0xF);
  }

  lemma NibbleSplit(x: bv64)
    ensures ((x >> 4) << 4) | (x & 0xF) == x && x & 0xF < 16
  {
  }

  lemma UnhexSnoc(x: bv64, high: string)
    requires Unhex(high) == x >> 4
    ensures Unhex(high + [Digit(x & 0xF)]) == x
  {
    assert (high + [Digit(x & 0xF)])[..|high|] == high;
    NibbleStep(x, Unhex(high));
  }

  /** Reading zero-padded digits gives the number back. */
  lemma {:induction false} UnhexHex(x: bv64, w: nat)
    requires Fits(x, w)
    ensures Unhex(Hex(x, w)) == x
  {
    if w > 0 {
      UnhexHex(x >> 4, w - 1);
      UnhexSnoc(x, Hex(x >> 4, w - 1));
    }
  }

  lemma FitsFour(x: bv64, w: nat)
    requires Fits(x >> 16, w)
    ensures Fits(x, w + 4)
  {
    assert ((x >> 4) >> 4) >> 4 >> 4 == x >> 16;
    assert Fits(((x >> 4) >> 4) >> 4, w + 1);
    assert Fits((x >> 4) >> 4, w + 2);
    assert Fits(x >> 4, w + 3);
  }

  // ----- the identifier -----

  function MaskVersion(a: bv64): bv64 {
    (a & VERSION_MASK) | VERSION_BITS
  }

  function MaskVariant(b: bv64): bv64 {
    (b & VARIANT_MASK) | VARIANT_BITS
  }

  function Dashed(g: string, h: string, i: string, j: string, k: string): string {
    g + "-" + h + "-" + i + "-" + j + "-" + k
  }

  function Format(a: bv64, b: bv64): string {
    Dashed(Hex((a >> 32) & 0xFFFF_FFFF, 8), Hex((a >> 16) & 0xFFFF, 4), Hex(a & 0xFFFF, 4),
           Hex((b >> 48) & 0xFFFF, 4), Hex(b & 0xFFFF_FFFF_FFFF, 12))
  }

  function UuidText(a: bv64, b: bv64): string {
    Format(MaskVersion(a), MaskVariant(b))
  }

  lemma GroupsFit(a: bv64, b: bv64)
    ensures Fits((a >> 32) & 0xFFFF_FFFF, 8) && Fits((a >> 16) & 0xFFFF, 4) && Fits(a & 0xFFFF, 4)
    ensures Fits((b >> 48) & 0xFFFF, 4) && Fits(b & 0xFFFF_FFFF_FFFF, 12)
  {
    FourDigits(a & 0xFFFF);
    FourDigits((a >> 16) & 0xFFFF);
    FourDigits((b >> 48) & 0xFFFF);
    var wide := (a >> 32) & 0xFFFF_FFFF;
    FourDigits(wide >> 16);
    FitsFour(wide, 4);
    var node := b & 0xFFFF_FFFF_FFFF;
    FourDigits((node >> 16) >> 16);
    FitsFour(node >> 16, 4);
    FitsFour(node, 8);
  }

  lemma FourDigits(x: bv64)
    requires x >> 16 == 0
    ensures Fits(x, 4)
  {
    FitsFour(x, 0);
  }

  /** generate_uuid_v4. */
  method GenerateUuidV4(first: bv64, second: bv64) returns (s: string)
    ensures s == UuidText(first, second)
  {
    var a, b := first, second;
    a := (a & VERSION_MASK) | VERSION_BITS;
    b := (b & VARIANT_MASK) | VARIANT_BITS;
    s := PrintWords(a, b);
  }

  // The chain of << on the string stream.
  method PrintWords(a: bv64, b: bv64) returns (s: string)
    ensures s == Format(a, b)
  {
    GroupsFit(a, b);
    var g := PrintGroup((a >> 32) & 0xFFFF_FFFF, 8);
    var h := PrintGroup((a >> 16) & 0xFFFF, 4);
    var i := PrintGroup(a & 0xFFFF, 4);
    var j := PrintGroup((b >> 48) & 0xFFFF, 4);
    var k := PrintGroup(b & 0xFFFF_FFFF_FFFF, 12);
    s := g + "-" + h + "-" + i + "-" + j + "-" + k;
  }

  // One std::setw and one << on the stream.
  method PrintGroup(x: bv64, w: nat) returns (s: string)
    requires 1 <= w <= 16 && Fits(x, w)
    ensures s == Hex(x, w)
  {
    PaddedIsHex(x, w);
    s := Padded(x, w);
  }

  // Where the five groups stand.
  lemma Groups(a: bv64, b: bv64)
    ensures var s := Format(a, b);
            |s| == 36 && s[8] == s[13] == s[18] == s[23] == '-' &&
            s[..8] == Hex((a >> 32) & 0xFFFF_FFFF, 8) && s[9..13] == Hex((a >> 16) & 0xFFFF, 4) &&
            s[14..18] == Hex(a & 0xFFFF, 4) && s[19..23] == Hex((b >> 48) & 0xFFFF, 4) &&
            s[24..] == Hex(b & 0xFFFF_FFFF_FFFF, 12)
  {
    HexShape((a >> 32) & 0xFFFF_FFFF, 8);
    HexShape((a >> 16) & 0xFFFF, 4);
    HexShape(a & 0xFFFF, 4);
    HexShape((b >> 48) & 0xFFFF, 4);
    HexShape(b & 0xFFFF_FFFF_FFFF, 12);
    DashedParts(Hex((a >> 32) & 0xFFFF_FFFF, 8), Hex((a >> 16) & 0xFFFF, 4), Hex(a & 0xFFFF, 4),
                Hex((b >> 48) & 0xFFFF, 4), Hex(b & 0xFFFF_FFFF_FFFF, 12));
  }

  lemma DashedParts(g: string, h: string, i: string, j: string, k: string)
    requires |g| == 8 && |h| == |i| == |j| == 4 && |k| == 12
    ensures var s := Dashed(g, h, i, j, k);
            |s| == 36 && s[8] == s[13] == s[18] == s[23] == '-' &&
            s[..8] == g && s[9..13] == h && s[14..18] == i && s[19..23] == j && s[24..] == k
  {
  }

  lemma LeadingDigit(x: bv64)
    requires x >> 16 == 0
    ensures |Hex(x, 4)| == 4 && Hex(x, 4)[0] == Digit(x >> 12)
  {
    HexShape(x, 4);
    assert ((x >> 4) >> 4) >> 4 == x >> 12 && (x >> 12) & 0xF == x >> 12;
    assert Hex(((x >> 4) >> 4) >> 4, 1) == [Digit(x >> 12)];
    assert Hex((x >> 4) >> 4, 2)[0] == Digit(x >> 12);
    assert Hex(x >> 4, 3)[0] == Digit(x >> 12);
  }

  /** The text has the form of section 5.4 of RFC 9562: 8-4-4-4-12 hexadecimal digits,
      version digit 4 and variant digit 8, 9, a or b. */
  lemma UuidForm(a: bv64, b: bv64)
    ensures var s := UuidText(a, b);
            |s| == 36 && (forall i :: 0 <= i < 36 ==> if i in {8, 13, 18, 23} then s[i] == '-' else IsHex(s[i])) &&
            s[14] == '4' && s[19] in "89ab"
  {
    Groups(MaskVersion(a), MaskVariant(b));
    HexDigitsAt(UuidText(a, b), MaskVersion(a), MaskVariant(b));
    VersionDigit(UuidText(a, b), a, b);
    VariantDigit(UuidText(a, b), a, b);
  }

  // The leading digit of a group of four, where it stands in the text.
  lemma LeadingDigitAt(s: string, i: nat, x: bv64, digit: bv64)
    requires i + 4 <= |s| && s[i..i + 4] == Hex(x, 4) && x >> 16 == 0 && x >> 12 == digit
    ensures s[i] == Digit(digit)
  {
    LeadingDigit(x);
    assert s[i] == s[i..i + 4][0];
  }

  lemma LowWord(x: bv64)
    ensures (x & 0xFFFF) >> 16 == 0
  {
  }

  lemma VersionDigit(s: string, a: bv64, b: bv64)
    requires s == UuidText(a, b) && |s| == 36
    ensures s[14] == '4'
  {
    Groups(MaskVersion(a), MaskVariant(b));
    LowWord(MaskVersion(a));
    VersionAndVariant(a, b);
    LeadingDigitAt(s, 14, MaskVersion(a) & 0xFFFF, 4);
  }

  lemma VariantDigit(s: string, a: bv64, b: bv64)
    requires s == UuidText(a, b) && |s| == 36
    ensures s[19] in "89ab"
  {
    Groups(MaskVersion(a), MaskVariant(b));
    LowWord(MaskVariant(b) >> 48);
    VersionAndVariant(a, b);
    VariantDigitAt(s, 19, (MaskVariant(b) >> 48) & 0xFFFF);
  }

  lemma VariantDigitAt(s: string, i: nat, x: bv64)
    requires i + 4 <= |s| && s[i..i + 4] == Hex(x, 4) && x >> 16 == 0 && 8 <= x >> 12 <= 11
    ensures s[i] in "89ab"
  {
    LeadingDigitAt(s, i, x, x >> 12);
    VariantDigits(s[i], x >> 12);
  }

  lemma VariantDigits(c: char, x: bv64)
    requires 8 <= x <= 11 && c == Digit(x)
    ensures c in "89ab"
  {
    assert "89ab"[0] == '8' && "89ab"[1] == '9' && "89ab"[2] == 'a' && "89ab"[3] == 'b';
  }

  lemma VersionAndVariant(a: bv64, b: bv64)
    ensures (MaskVersion(a) & 0xFFFF) >> 12 == 4
    ensures 8 <= ((MaskVariant(b) >> 48) & 0xFFFF) >> 12 <= 11
  {
  }

  lemma HexDigitsAt(s: string, a: bv64, b: bv64)
    requires s == Format(a, b)
    ensures |s| == 36 && forall i :: 0 <= i < 36 && i !in {8, 13, 18, 23} ==> IsHex(s[i])
  {
    Groups(a, b);
    HexShape((a >> 32) & 0xFFFF_FFFF, 8);
    HexShape((a >> 16) & 0xFFFF, 4);
    HexShape(a & 0xFFFF, 4);
    HexShape((b >> 48) & 0xFFFF, 4);
    HexShape(b & 0xFFFF_FFFF_FFFF, 12);
    forall i | 0 <= i < 36 && i !in {8, 13, 18, 23} ensures IsHex(s[i]) {
      if i < 8 { assert s[i] == s[..8][i]; }
      else if i < 13 { assert s[i] == s[9..13][i - 9]; }
      else if i < 18 { assert s[i] == s[14..18][i - 14]; }
      else if i < 23 { assert s[i] == s[19..23][i - 19]; }
      else { assert s[i] == s[24..][i - 24]; }
    }
  }

  // Reads the two words back out of the text.
  function Decode(s: string): (bv64, bv64)
    requires |s| == 36
  {
    ((Unhex(s[..8]) << 32) | (Unhex(s[9..13]) << 16) | Unhex(s[14..18]),
     (Unhex(s[19..23]) << 48) | Unhex(s[24..]))
  }

  lemma Recombine(a: bv64, b: bv64)
    ensures (((a >> 32) & 0xFFFF_FFFF) << 32) | (((a >> 16) & 0xFFFF) << 16) | (a & 0xFFFF) == a
    ensures (((b >> 48) & 0xFFFF) << 48) | (b & 0xFFFF_FFFF_FFFF) == b
  {
  }

  lemma GroupsRead(a: bv64, b: bv64)
    ensures Unhex(Hex((a >> 32) & 0xFFFF_FFFF, 8)) == (a >> 32) & 0xFFFF_FFFF
    ensures Unhex(Hex((a >> 16) & 0xFFFF, 4)) == (a >> 16) & 0xFFFF
    ensures Unhex(Hex(a & 0xFFFF, 4)) == a & 0xFFFF
    ensures Unhex(Hex((b >> 48) & 0xFFFF, 4)) == (b >> 48) & 0xFFFF
    ensures Unhex(Hex(b & 0xFFFF_FFFF_FFFF, 12)) == b & 0xFFFF_FFFF_FFFF
  {
    GroupsFit(a, b);
    UnhexHex((a >> 32) & 0xFFFF_FFFF, 8);
    UnhexHex((a >> 16) & 0xFFFF, 4);
    UnhexHex(a & 0xFFFF, 4);
    UnhexHex((b >> 48) & 0xFFFF, 4);
    UnhexHex(b & 0xFFFF_FFFF_FFFF, 12);
  }

  lemma DecodeGroups(s: string, a: bv64, b: bv64)
    requires |s| == 36
    requires s[..8] == Hex((a >> 32) & 0xFFFF_FFFF, 8) && s[9..13] == Hex((a >> 16) & 0xFFFF, 4)
    requires s[14..18] == Hex(a & 0xFFFF, 4) && s[19..23] == Hex((b >> 48) & 0xFFFF, 4)
    requires s[24..] == Hex(b & 0xFFFF_FFFF_FFFF, 12)
    ensures Decode(s) == (a, b)
  {
    GroupsRead(a, b);
    Recombine(a, b);
  }

  /** Decoding returns the masked words. */
  lemma DecodeFormat(a: bv64, b: bv64)
    ensures |Format(a, b)| == 36 && Decode(Format(a, b)) == (a, b)
  {
    Groups(a, b);
    DecodeGroups(Format(a, b), a, b);
  }

  lemma FormatInjective(a: bv64, b: bv64, c: bv64, d: bv64)
    ensures Format(a, b) == Format(c, d) <==> a == c && b == d
  {
    DecodeFormat(a, b);
    DecodeFormat(c, d);
  }

  lemma UnmaskVersion(a: bv64)
    ensures MaskVersion(a) & VERSION_MASK == a & VERSION_MASK
  {
  }

  lemma UnmaskVariant(b: bv64)
    ensures MaskVariant(b) & VARIANT_MASK == b & VARIANT_MASK
  {
  }

  lemma MaskedVersionOf(a: bv64, c: bv64)
    requires a & VERSION_MASK == c & VERSION_MASK
    ensures MaskVersion(a) == MaskVersion(c)
  {
  }

  lemma MaskedVariantOf(b: bv64, d: bv64)
    requires b & VARIANT_MASK == d & VARIANT_MASK
    ensures MaskVariant(b) == MaskVariant(d)
  {
  }

  /** Two identifiers are equal exactly when the 122 bits that the masks leave alone are equal. */
  lemma UuidInjective(a: bv64, b: bv64, c: bv64, d: bv64)
    ensures UuidText(a, b) == UuidText(c, d) <==>
            a & 0xFFFF_FFFF_FFFF_0FFF == c & 0xFFFF_FFFF_FFFF_0FFF &&
            b & 0x3FFF_FFFF_FFFF_FFFF == d & 0x3FFF_FFFF_FFFF_FFFF
  {
    FormatInjective(MaskVersion(a), MaskVariant(b), MaskVersion(c), MaskVariant(d));
    if UuidText(a, b) == UuidText(c, d) {
      UnmaskVersion(a);
      UnmaskVersion(c);
      UnmaskVariant(b);
      UnmaskVariant(d);
    } else if a & VERSION_MASK == c & VERSION_MASK && b & VARIANT_MASK == d & VARIANT_MASK {
      MaskedVersionOf(a, c);
      MaskedVariantOf(b, d);
    }
  }

  /** The five groups are the bits of the two words from the top down: 32, 16 and 16 of the first, 16 and 48 of the
      second, with version and variant set. */
  lemma GroupsInOrder(a: bv64, b: bv64)
    ensures var s := UuidText(a, b);
            var first := (a & 0xFFFF_FFFF_FFFF_0FFF) | 0x4000;
            var second := (b & 0x3FFF_FFFF_FFFF_FFFF) | 0x8000_0000_0000_0000;
            |s| == 36 && s[8] == s[13] == s[18] == s[23] == '-' &&
            Unhex(s[..8]) == first >> 32 && Unhex(s[9..13]) == (first >> 16) & 0xFFFF &&
            Unhex(s[14..18]) == first & 0xFFFF && Unhex(s[19..23]) == second >> 48 &&
            Unhex(s[24..]) == second & 0xFFFF_FFFF_FFFF
  {
    Groups(MaskVersion(a), MaskVariant(b));
    GroupsOf(UuidText(a, b), MaskVersion(a), MaskVariant(b));
  }

  lemma GroupsOf(s: string, first: bv64, second: bv64)
    requires |s| == 36
    requires s[..8] == Hex((first >> 32) & 0xFFFF_FFFF, 8) && s[9..13] == Hex((first >> 16) & 0xFFFF, 4)
    requires s[14..18] == Hex(first & 0xFFFF, 4) && s[19..23] == Hex((second >> 48) & 0xFFFF, 4)
    requires s[24..] == Hex(second & 0xFFFF_FFFF_FFFF, 12)
    ensures Unhex(s[..8]) == first >> 32 && Unhex(s[9..13]) == (first >> 16) & 0xFFFF
    ensures Unhex(s[14..18]) == first & 0xFFFF && Unhex(s[19..23]) == second >> 48
    ensures Unhex(s[24..]) == second & 0xFFFF_FFFF_FFFF
  {
    GroupsRead(first, second);
    TopBits(first, second);
  }

  lemma TopBits(a: bv64, b: bv64)
    ensures (a >> 32) & 0xFFFF_FFFF == a >> 32 && (b >> 48) & 0xFFFF == b >> 48
  {
  }

  /** Read as hexadecimal: every digit has its value, and one more digit shifts by four. */
  lemma UnhexDigit(s: string, c: char)
    ensures Unhex(s + [c]) == (Unhex(s) << 4) | Value(c) && Unhex("") == 0
    ensures [Value('0'), Value('1'), Value('2'), Value('3'), Value('4'), Value('5'), Value('6'), Value('7')] ==
            [0, 1, 2, 3, 4, 5, 6, 7]
    ensures [Value('8'), Value('9'), Value('a'), Value('b'), Value('c'), Value('d'), Value('e'), Value('f')] ==
            [8, 9, 10, 11, 12, 13, 14, 15]
  {
    assert (s + [c])[..|s|] == s;
  }
}
