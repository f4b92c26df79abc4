/** Hexadecimal text as used by the Lamport key material: the HEX_TO_BINARY
    nibble table, the two-character encoding of a random byte, and the
    encoding of a whole private-key leaf as the concatenation of those. */
module Hex {

  type byte = x: int | 0 <= x < 256
  type Bit = b: int | 0 <= b < 2

  const HEX_BASE: nat := 16
  /** Number of selector bits per hex character, `HEX_TO_BINARY['0'].length`. */
  const HEX_BITS: nat := 4
  const STR_DOUBLE_ZERO: string := "00"
  const EXPECTED_LENGTH: nat := |STR_DOUBLE_ZERO|

  predicate IsHexDigit(c: char) {
    '0' <= c <= '9' || 'a' <= c <= 'f'
  }

  /** Lowercase hex text, the only form a digest or a leaf takes. */
  predicate IsHexString(s: string) {
    forall i :: 0 <= i < |s| ==> IsHexDigit(s[i])
  }

  /** The numeric value of a lowercase hex digit. */
  function HexValue(c: char): (v: nat)
    requires IsHexDigit(c)
    ensures v < HEX_BASE
  {
    if c <= '9' then c as int - '0' as int else c as int - 'a' as int + 10
  }

  /** The lowercase hex digit of a value below 16. */
  function HexDigit(v: nat): (c: char)
    requires v < HEX_BASE
    ensures IsHexDigit(c)
  {
    if v < 10 then ('0' as int + v) as char else ('a' as int + v - 10) as char
  }

  lemma HexDigitValue(v: nat)
    requires v < HEX_BASE
    ensures HexValue(HexDigit(v)) == v
  {
  }

  lemma HexValueDigit(c: char)
    requires IsHexDigit(c)
    ensures HexDigit(HexValue(c)) == c
  {
  }

  // ---------------------------------------------------------------------
  // The nibble table

  /** Each lowercase hex digit to its four bits, most significant first. */
  const HEX_TO_BINARY: map<char, seq<Bit>> := map[
    '0' := [0, 0, 0, 0],
    '1' := [0, 0, 0, 1],
    '2' := [0, 0, 1, 0],
    '3' := [0, 0, 1, 1],
    '4' := [0, 1, 0, 0],
    '5' := [0, 1, 0, 1],
    '6' := [0, 1, 1, 0],
    '7' := [0, 1, 1, 1],
    '8' := [1, 0, 0, 0],
    '9' := [1, 0, 0, 1],
    'a' := [1, 0, 1, 0],
    'b' := [1, 0, 1, 1],
    'c' := [1, 1, 0, 0],
    'd' := [1, 1, 0, 1],
    'e' := [1, 1, 1, 0],
    'f' := [1, 1, 1, 1]
  ]

  /** A bit string read as a big-endian binary number. */
  function FromBits(bits: seq<Bit>): nat {
    if bits == [] then 0 else 2 * FromBits(bits[..|bits| - 1]) + bits[|bits| - 1]
  }

  /** Bit `k` (0 = most significant) of a 4-bit value: the reference
      definition the table is checked against. */
  function NibbleBit(v: nat, k: nat): Bit
    requires v < HEX_BASE && k < HEX_BITS
  {
    (v / [8, 4, 2, 1][k]) % 2
  }

  /** The table is defined exactly on the lowercase hex digits. */
  lemma HexTableDomain(c: char)
    ensures c in HEX_TO_BINARY <==> IsHexDigit(c)
  {
  }

  /** The four bits of a value below 16, most significant first. */
  function Nibble(v: nat): seq<Bit>
    requires v < HEX_BASE
  {
    [NibbleBit(v, 0), NibbleBit(v, 1), NibbleBit(v, 2), NibbleBit(v, 3)]
  }

  lemma NibbleAt(v: nat, k: nat)
    requires v < HEX_BASE && k < HEX_BITS
    ensures Nibble(v)[k] == NibbleBit(v, k)
  {
  }

  /** Every entry is the 4-bit big-endian expansion of its digit's value,
      and reading it back as binary gives that value. */
  lemma HexTableEntry(c: char)
    requires IsHexDigit(c)
    ensures c in HEX_TO_BINARY && |HEX_TO_BINARY[c]| == HEX_BITS == |HEX_TO_BINARY['0']|
    ensures HEX_TO_BINARY[c] == Nibble(HexValue(c))
    ensures FromBits(HEX_TO_BINARY[c]) == HexValue(c)
  {
    HexTableBits(c);
    HexTableBitsFrom0('0');
    NibbleValue(HexValue(c));
  }

  /** Each digit has a row of HEX_BITS bits. */
  lemma HexTableRow(c: char)
    requires IsHexDigit(c)
    ensures c in HEX_TO_BINARY && |HEX_TO_BINARY[c]| == HEX_BITS
  {
    HexTableBits(c);
  }

  lemma HexTableBits(c: char)
    requires IsHexDigit(c)
    ensures c in HEX_TO_BINARY && HEX_TO_BINARY[c] == Nibble(HexValue(c))
  {
    if c < '4' {
      HexTableBitsFrom0(c);
    } else if c <= '7' {
      HexTableBitsFrom4(c);
    } else if c <= 'b' {
      HexTableBitsFrom8(c);
    } else {
      HexTableBitsFromC(c);
    }
  }

  // The table checked four digits at a time, one concrete lookup per digit.
  lemma HexTableBitsFrom0(c: char)
    requires '0' <= c <= '3'
    ensures c in HEX_TO_BINARY && HEX_TO_BINARY[c] == Nibble(HexValue(c))
  {
    if c == '0' {
    } else if c == '1' {
    } else if c == '2' {
    } else {
      assert c == '3';
    }
  }

  lemma HexTableBitsFrom4(c: char)
    requires '4' <= c <= '7'
    ensures c in HEX_TO_BINARY && HEX_TO_BINARY[c] == Nibble(HexValue(c))
  {
    if c == '4' {
    } else if c == '5' {
    } else if c == '6' {
    } else {
      assert c == '7';
    }
  }

  lemma HexTableBitsFrom8(c: char)
    requires c in "89ab"
    ensures c in HEX_TO_BINARY && HEX_TO_BINARY[c] == Nibble(HexValue(c))
  {
    if c == '8' {
    } else if c == '9' {
    } else if c == 'a' {
    } else {
      assert c == 'b';
    }
  }

  lemma HexTableBitsFromC(c: char)
    requires 'c' <= c <= 'f'
    ensures c in HEX_TO_BINARY && HEX_TO_BINARY[c] == Nibble(HexValue(c))
  {
    if c == 'c' {
    } else if c == 'd' {
    } else if c == 'e' {
    } else {
      assert c == 'f';
    }
  }

  /** Reading a value's four bits back as binary gives the value. */
  lemma NibbleValue(v: nat)
    requires v < HEX_BASE
    ensures FromBits(Nibble(v)) == v
  {
    FromFourBits(Nibble(v));
  }

  lemma FromFourBits(bits: seq<Bit>)
    requires |bits| == 4
    ensures FromBits(bits) == 8 * (bits[0] as int) + 4 * (bits[1] as int) + 2 * (bits[2] as int) + bits[3] as int
  {
    var b1, b2, b3 := bits[..1], bits[..2], bits[..3];
    assert b1[..0] == [] && b2[..1] == b1 && b3[..2] == b2;
    assert FromBits(b1) == bits[0];
    assert FromBits(b2) == 2 * FromBits(b1) + bits[1];
    assert FromBits(b3) == 2 * FromBits(b2) + bits[2];
  }

  /** Distinct digits have distinct expansions. */
  lemma HexTableInjective(c1: char, c2: char)
    requires IsHexDigit(c1) && IsHexDigit(c2)
    requires HEX_TO_BINARY[c1] == HEX_TO_BINARY[c2]
    ensures c1 == c2
  {
    HexTableEntry(c1);
    HexTableEntry(c2);
    HexValueDigit(c1);
    HexValueDigit(c2);
  }

  // ---------------------------------------------------------------------
  // One random byte as two hex characters

  /** `Number.prototype.toString(HEX_BASE)` on a byte: lowercase, unpadded. */
  function ToBase16(b: byte): (s: string)
    ensures 1 <= |s| <= EXPECTED_LENGTH && IsHexString(s)
    ensures |s| == 1 <==> b < HEX_BASE
    ensures s[0] == '0' <==> b == 0
  {
    if b < HEX_BASE then [HexDigit(b)] else [HexDigit(b / HEX_BASE), HexDigit(b % HEX_BASE)]
  }

  /** `String.prototype.substr(start)` with no length argument: the
      characters from `start` on, none when `start` is past the end. */
  function Substr(s: string, start: nat): (r: string)
    ensures |r| == if start < |s| then |s| - start else 0
  {
    if start < |s| then s[start..] else ""
  }

  /** What `substr(start)` keeps is the characters from `start` on, in order. */
  lemma SubstrChars(s: string, start: nat)
    ensures forall i :: 0 <= i < |Substr(s, start)| ==> Substr(s, start)[i] == s[start + i]
  {
  }

  /** The padding of one converted byte: kept when it already has the
      expected length, otherwise prefixed with `"00".substr(len)`. */
  function PadByte(tmp: string): (r: string)
    ensures |tmp| <= EXPECTED_LENGTH ==> |r| == EXPECTED_LENGTH
    ensures |tmp| >= EXPECTED_LENGTH ==> r == tmp
  {
    if |tmp| == EXPECTED_LENGTH then tmp else Substr(STR_DOUBLE_ZERO, |tmp|) + tmp
  }

  /** Padding only prepends '0's: the converted text is the tail of the
      result, and everything before it is '0'. */
  lemma PadByteZeros(tmp: string)
    ensures PadByte(tmp)[|PadByte(tmp)| - |tmp|..] == tmp
    ensures forall i :: 0 <= i < |PadByte(tmp)| - |tmp| ==> PadByte(tmp)[i] == '0'
  {
  }

  /** A byte as exactly two lowercase hex characters, zero-padded. */
  function ByteHex(b: byte): (r: string)
    ensures |r| == EXPECTED_LENGTH && IsHexString(r)
    ensures r[0] == '0' <==> b < HEX_BASE
  {
    PadByte(ToBase16(b))
  }

  function DecodeByte(s: string): (b: byte)
    requires |s| == EXPECTED_LENGTH && IsHexString(s)
  {
    HexValue(s[0]) * HEX_BASE + HexValue(s[1])
  }

  /** A byte becomes exactly two lowercase hex characters, a leading '0'
      exactly when it is below 16, and decoding them gives the byte back. */
  lemma ByteHexRoundTrip(b: byte)
    ensures |ByteHex(b)| == EXPECTED_LENGTH && IsHexString(ByteHex(b))
    ensures ByteHex(b)[0] == '0' <==> b < HEX_BASE
    ensures DecodeByte(ByteHex(b)) == b
  {
    if b < HEX_BASE {
      HexDigitValue(b);
    } else {
      HexDigitValue(b / HEX_BASE);
      HexDigitValue(b % HEX_BASE);
    }
  }

  /** Every two-character lowercase hex string is the encoding of a byte. */
  lemma DecodeByteRoundTrip(s: string)
    requires |s| == EXPECTED_LENGTH && IsHexString(s)
    ensures ByteHex(DecodeByte(s)) == s
  {
    var b := DecodeByte(s);
    HexValueDigit(s[0]);
    HexValueDigit(s[1]);
    if b < HEX_BASE {
      assert s[0] == '0';
    } else {
      assert b / HEX_BASE == HexValue(s[0]);
      assert b % HEX_BASE == HexValue(s[1]);
    }
  }

  // ---------------------------------------------------------------------
  // A leaf: the hex text of a run of bytes

  /** `parts.join('')`. */
  function Join(parts: seq<string>): (r: string)
    ensures (forall i :: 0 <= i < |parts| ==> IsHexString(parts[i])) ==> IsHexString(r)
    ensures (forall i :: 0 <= i < |parts| ==> |parts[i]| == EXPECTED_LENGTH) ==> |r| == EXPECTED_LENGTH * |parts|
    ensures parts != [] ==> parts[0] <= r
  {
    if parts == [] then "" else Join(parts[..|parts| - 1]) + parts[|parts| - 1]
  }

  function ByteHexes(bs: seq<byte>): seq<string> {
    seq(|bs|, i requires 0 <= i < |bs| => ByteHex(bs[i]))
  }

  /** The hex text of a leaf's bytes, two characters per byte. */
  function EncodeLeaf(bs: seq<byte>): string {
    Join(ByteHexes(bs))
  }

  predicate IsLeafText(s: string) {
    |s| % 2 == 0 && IsHexString(s)
  }

  function DecodeLeaf(s: string): (bs: seq<byte>)
    requires IsLeafText(s)
    ensures |bs| == |s| / 2
  {
    seq(|s| / 2, i requires 0 <= i < |s| / 2 => DecodeByte(s[2 * i .. 2 * i + 2]))
  }

  /** Joining two-character strings places part `i` at characters 2i and 2i+1. */
  lemma {:induction false} JoinPairs(parts: seq<string>)
    requires forall i :: 0 <= i < |parts| ==> |parts[i]| == 2 && IsHexString(parts[i])
    ensures |Join(parts)| == 2 * |parts| && IsHexString(Join(parts))
    ensures forall i :: 0 <= i < |parts| ==> Join(parts)[2 * i .. 2 * i + 2] == parts[i]
  {
    if parts != [] {
      var n := |parts| - 1;
      var init := parts[..n];
      JoinPairs(init);
      var j := Join(parts);
      assert j == Join(init) + parts[n];
      forall i | 0 <= i < |parts|
        ensures j[2 * i .. 2 * i + 2] == parts[i]
      {
        if i < n {
          assert j[2 * i .. 2 * i + 2] == Join(init)[2 * i .. 2 * i + 2];
        } else {
          assert j[2 * i .. 2 * i + 2] == j[2 * n..];
        }
      }
    }
  }

  lemma HalfOfTwice(n: nat)
    ensures (2 * n) % 2 == 0 && (2 * n) / 2 == n
  {
  }

  /** The text of a leaf's bytes holds byte `i`'s two characters at 2i and 2i+1. */
  lemma EncodedPairs(bs: seq<byte>)
    ensures |EncodeLeaf(bs)| == 2 * |bs| && IsHexString(EncodeLeaf(bs))
    ensures forall i :: 0 <= i < |bs| ==> EncodeLeaf(bs)[2 * i .. 2 * i + 2] == ByteHex(bs[i])
  {
    var parts := ByteHexes(bs);
    forall i | 0 <= i < |parts|
      ensures |parts[i]| == 2 && IsHexString(parts[i])
    {
      ByteHexRoundTrip(bs[i]);
    }
    JoinPairs(parts);
    assert EncodeLeaf(bs) == Join(parts);
    forall i | 0 <= i < |bs|
      ensures EncodeLeaf(bs)[2 * i .. 2 * i + 2] == ByteHex(bs[i])
    {
      assert parts[i] == ByteHex(bs[i]);
    }
  }

  /** A leaf's text is twice as long as its bytes, and decodes to them. */
  lemma LeafRoundTrip(bs: seq<byte>)
    ensures IsLeafText(EncodeLeaf(bs)) && |EncodeLeaf(bs)| == 2 * |bs|
    ensures DecodeLeaf(EncodeLeaf(bs)) == bs
  {
    var text := EncodeLeaf(bs);
    EncodedPairs(bs);
    HalfOfTwice(|bs|);
    assert IsLeafText(text);
    forall i | 0 <= i < |bs|
      ensures DecodeLeaf(text)[i] == bs[i]
    {
      ByteHexRoundTrip(bs[i]);
      assert text[2 * i .. 2 * i + 2] == ByteHex(bs[i]);
    }
  }

  /** Decoding leaf text and encoding it again reproduces the text exactly. */
  lemma LeafTextRoundTrip(s: string)
    requires IsLeafText(s)
    ensures EncodeLeaf(DecodeLeaf(s)) == s
  {
    var bs := DecodeLeaf(s);
    var parts := ByteHexes(bs);
    ReencodedPairs(s);
    JoinPairs(parts);
    PairsDetermine(EncodeLeaf(bs), s);
  }

  lemma ReencodedPairs(s: string)
    requires IsLeafText(s)
    ensures forall i :: 0 <= i < |s| / 2 ==>
      ByteHexes(DecodeLeaf(s))[i] == s[2 * i .. 2 * i + 2] && |s[2 * i .. 2 * i + 2]| == 2 && IsHexString(s[2 * i .. 2 * i + 2])
  {
    var bs := DecodeLeaf(s);
    forall i | 0 <= i < |s| / 2
      ensures ByteHexes(bs)[i] == s[2 * i .. 2 * i + 2] && IsHexString(s[2 * i .. 2 * i + 2])
    {
      var pair := s[2 * i .. 2 * i + 2];
      assert IsHexString(pair) by {
        assert forall k :: 0 <= k < 2 ==> pair[k] == s[2 * i + k];
      }
      DecodeByteRoundTrip(pair);
    }
  }

  /** Two texts of the same even length that agree pair by pair are equal. */
  lemma PairsDetermine(e: string, s: string)
    requires |e| == |s| && |s| % 2 == 0
    requires forall i :: 0 <= i < |s| / 2 ==> e[2 * i .. 2 * i + 2] == s[2 * i .. 2 * i + 2]
    ensures e == s
  {
    forall k | 0 <= k < |s|
      ensures e[k] == s[k]
    {
      var i := k / 2;
      assert e[2 * i .. 2 * i + 2][k - 2 * i] == s[2 * i .. 2 * i + 2][k - 2 * i];
    }
  }
}
