/** The Lamport one-time signature scheme: a private key of `depth` rows of
    `width` random leaves, a public key of the leaves' hashes, a signature
    that reveals one leaf per selector bit of the message digest, and the
    verification that re-hashes the revealed leaves.

    The hash primitive is a parameter `H` and the random bytes an input
    sequence; everything else follows the operations step by step. */
module Lamport {
  import opened Hex

  /** The hash primitive: text to its hex digest. */
  type Hash = string -> string

  /** Rows of leaves; each leaf the hex text of `size` random bytes. */
  type PrivateKey = seq<seq<string>>
  /** The same shape as the private key, each leaf replaced by its digest. */
  type PublicKey = seq<seq<string>>
  /** One revealed private leaf per selector bit. */
  type Signature = seq<string>

  const PRIVATE_KEY_WIDTH: nat := 2
  const PRIVATE_KEY_DEPTH: nat := 256
  const PRIVATE_KEY_SIZE_IN_BITS: nat := 256
  const PRIVATE_KEY_SIZE_IN_BYTES: nat := 32
  const PRIVATE_KEY_TOTAL_SIZE_BYTES: nat := 16384
  /** Hex characters in a SHA3-256 digest. */
  const DIGEST_HEX_LENGTH: nat := 64

  // ---------------------------------------------------------------------
  // Private key generation

  /** `arg || fallback` on a numeric argument: a falsy argument (0, or one
      left undefined, which is written 0 here) falls back. */
  function OrDefault(arg: nat, fallback: nat): (r: nat)
    ensures arg != 0 ==> r == arg
    ensures arg == 0 ==> r == fallback
    ensures fallback != 0 ==> r != 0
  {
    if arg == 0 then fallback else arg
  }

  /** The number of random bytes a key of the (defaulted) dimensions takes. */
  function TotalSize(keyWidth: nat, keyDepth: nat, keySize: nat): nat {
    OrDefault(keyWidth, PRIVATE_KEY_WIDTH) * OrDefault(keyDepth, PRIVATE_KEY_DEPTH)
      * OrDefault(keySize, PRIVATE_KEY_SIZE_IN_BYTES)
  }

  /** Called with no arguments, the key takes 2 * 256 * 32 bytes, and one
      row per bit of a SHA3-256 digest. */
  lemma DefaultDimensions()
    ensures OrDefault(0, PRIVATE_KEY_WIDTH) == 2
    ensures OrDefault(0, PRIVATE_KEY_DEPTH) == 256
    ensures OrDefault(0, PRIVATE_KEY_SIZE_IN_BYTES) == 32
    ensures TotalSize(0, 0, 0) == PRIVATE_KEY_TOTAL_SIZE_BYTES
    ensures PRIVATE_KEY_SIZE_IN_BITS == 8 * PRIVATE_KEY_SIZE_IN_BYTES
    ensures PRIVATE_KEY_DEPTH == HEX_BITS * DIGEST_HEX_LENGTH
  {
  }

  /** `n * k` as repeated addition, so that offsets into the random
      bytes are reasoned about without nonlinear arithmetic. */
  function Times(n: nat, k: nat): nat {
    if n == 0 then 0 else Times(n - 1, k) + k
  }

  lemma {:induction false} TimesIsMul(n: nat, k: nat)
    ensures Times(n, k) == n * k
  {
    if n > 0 {
      TimesIsMul(n - 1, k);
    }
  }

  lemma {:induction false} TimesMonotone(a: nat, b: nat, k: nat)
    requires a <= b
    ensures Times(a, k) <= Times(b, k)
  {
    if a < b {
      TimesMonotone(a, b - 1, k);
    }
  }

  /** Where the bytes of leaf (y, x) start: `(y * width + x) * size`. */
  function LeafStart(width: nat, size: nat, y: nat, x: nat): nat {
    Times(Times(y, width) + x, size)
  }

  /** Row-major layout: leaf (y, x) is leaf number `y * width + x`. */
  lemma LeafStartIsRowMajor(width: nat, size: nat, y: nat, x: nat)
    ensures LeafStart(width, size, y, x) == (y * width + x) * size
  {
    TimesIsMul(y, width);
    TimesIsMul(y * width + x, size);
  }

  lemma TotalIsLeafStart(width: nat, depth: nat, size: nat)
    ensures LeafStart(width, size, depth, 0) == width * depth * size
  {
    TimesIsMul(depth, width);
    TimesIsMul(depth * width, size);
    assert depth * width * size == width * depth * size;
  }

  lemma NextLeafStart(width: nat, size: nat, y: nat, x: nat)
    ensures LeafStart(width, size, y, x) + size == LeafStart(width, size, y, x + 1)
    ensures LeafStart(width, size, y, width) == LeafStart(width, size, y + 1, 0)
  {
  }

  /** Leaf (y, x) lies inside the random bytes. */
  lemma LeafBounds(width: nat, depth: nat, size: nat, y: nat, x: nat)
    requires y < depth && x < width
    ensures LeafStart(width, size, y, x) + size <= width * depth * size
  {
    TimesMonotone(y + 1, depth, width);
    TimesMonotone(Times(y, width) + x + 1, Times(depth, width), size);
    TotalIsLeafStart(width, depth, size);
  }

  /** Where rows begin: the first at 0, the one past the last at the end. */
  lemma RowEnds(width: nat, depth: nat, size: nat, y: nat)
    requires y <= depth
    ensures LeafStart(width, size, 0, 0) == 0
    ensures LeafStart(width, size, y, 0) <= width * depth * size
    ensures LeafStart(width, size, depth, 0) == width * depth * size
  {
    TimesMonotone(y, depth, width);
    TimesMonotone(Times(y, width), Times(depth, width), size);
    TotalIsLeafStart(width, depth, size);
  }

  /** The bytes of leaf (y, x): the next `size` bytes in row-major order. */
  function LeafBytes(allBytes: seq<byte>, width: nat, depth: nat, size: nat, y: nat, x: nat): (bs: seq<byte>)
    requires |allBytes| == width * depth * size && y < depth && x < width
    ensures |bs| == size
  {
    LeafBounds(width, depth, size, y, x);
    allBytes[LeafStart(width, size, y, x) .. LeafStart(width, size, y, x) + size]
  }

  /** The private key the random bytes make: leaf (y, x) is the hex text
      of the bytes at leaf index `y * width + x`. */
  function PrivateKeyOf(width: nat, depth: nat, size: nat, allBytes: seq<byte>): PrivateKey
    requires |allBytes| == width * depth * size
  {
    seq(depth, y requires 0 <= y < depth =>
      seq(width, x requires 0 <= x < width =>
        EncodeLeaf(LeafBytes(allBytes, width, depth, size, y, x))))
  }

  /** Cuts the random bytes into `depth` rows of `width` leaves of `size`
      bytes, each byte written as two lowercase hex characters. */
  method CreatePrivateKey(keyWidth: nat, keyDepth: nat, keySize: nat, allBytes: seq<byte>)
    returns (privateKeyPairs: PrivateKey)
    requires |allBytes| == TotalSize(keyWidth, keyDepth, keySize)
    ensures privateKeyPairs == PrivateKeyOf(OrDefault(keyWidth, PRIVATE_KEY_WIDTH),
      OrDefault(keyDepth, PRIVATE_KEY_DEPTH), OrDefault(keySize, PRIVATE_KEY_SIZE_IN_BYTES), allBytes)
  {
    var width := OrDefault(keyWidth, PRIVATE_KEY_WIDTH);
    var depth := OrDefault(keyDepth, PRIVATE_KEY_DEPTH);
    var size := OrDefault(keySize, PRIVATE_KEY_SIZE_IN_BYTES);
    ghost var key := PrivateKeyOf(width, depth, size, allBytes);
    privateKeyPairs := [];
    var offset := 0;
    for y := 0 to depth
      invariant offset == LeafStart(width, size, y, 0)
      invariant privateKeyPairs == key[..y]
    {
      var pair;
      pair, offset := PushRow(allBytes, offset, width, depth, size, y);
      KeyDimensions(width, depth, size, allBytes, y);
      privateKeyPairs := privateKeyPairs + [pair];
    }
    KeyDimensions(width, depth, size, allBytes, 0);
    PrefixWhole(key, depth);
  }

  /** The middle loop of `create_private_key`: builds row `y` of the key,
      one leaf of `size` bytes at a time, from `offset` on. */
  method PushRow(allBytes: seq<byte>, offset: nat, width: nat, ghost depth: nat, size: nat, ghost y: nat)
    returns (pair: seq<string>, next: nat)
    requires |allBytes| == width * depth * size && y < depth
    requires offset == LeafStart(width, size, y, 0)
    ensures pair == PrivateKeyOf(width, depth, size, allBytes)[y]
    ensures next == LeafStart(width, size, y + 1, 0)
  {
    ghost var row := PrivateKeyOf(width, depth, size, allBytes)[y];
    pair := [];
    next := offset;
    for x := 0 to width
      invariant next == LeafStart(width, size, y, x)
      invariant pair == row[..x]
    {
      LeafBounds(width, depth, size, y, x);
      ghost var start := next;
      var bytes;
      bytes, next := PushLeafBytes(allBytes, next, size);
      LeafAt(width, depth, size, allBytes, y, x);
      LeafStep(row, x, pair, allBytes, start, size, bytes);
      pair := pair + [Join(bytes)];
      NextLeafStart(width, size, y, x);
    }
    KeyDimensions(width, depth, size, allBytes, y);
    PrefixWhole(row, width);
    NextLeafStart(width, size, y, width);
  }

  /** The innermost loop of `create_private_key`: reads `size` bytes from
      `offset` on and pushes each as two hex characters, padding a single
      digit with a leading '0'. */
  method PushLeafBytes(allBytes: seq<byte>, offset: nat, size: nat) returns (bytes: seq<string>, next: nat)
    requires offset + size <= |allBytes|
    ensures next == offset + size && |bytes| == size
    ensures forall k :: 0 <= k < size ==> bytes[k] == ByteHex(allBytes[offset + k])
  {
    bytes := [];
    next := offset;
    for z := 0 to size
      invariant next == offset + z
      invariant |bytes| == z
      invariant forall k :: 0 <= k < z ==> bytes[k] == ByteHex(allBytes[offset + k])
    {
      var tmp := ToBase16(allBytes[next]);
      next := next + 1;
      var len := |tmp|;
      bytes := bytes + [if len == EXPECTED_LENGTH then tmp else Substr(STR_DOUBLE_ZERO, len) + tmp];
    }
  }

  lemma KeyDimensions(width: nat, depth: nat, size: nat, allBytes: seq<byte>, y: nat)
    requires |allBytes| == width * depth * size
    ensures |PrivateKeyOf(width, depth, size, allBytes)| == depth
    ensures y < depth ==> |PrivateKeyOf(width, depth, size, allBytes)[y]| == width
  {
  }

  /** Leaf (y, x) of the key is the hex text of the `size` bytes at its start. */
  lemma LeafAt(width: nat, depth: nat, size: nat, allBytes: seq<byte>, y: nat, x: nat)
    requires |allBytes| == width * depth * size && y < depth && x < width
    ensures LeafStart(width, size, y, x) + size <= |allBytes|
    ensures |PrivateKeyOf(width, depth, size, allBytes)| == depth
    ensures |PrivateKeyOf(width, depth, size, allBytes)[y]| == width
    ensures PrivateKeyOf(width, depth, size, allBytes)[y][x]
      == EncodeLeaf(allBytes[LeafStart(width, size, y, x) .. LeafStart(width, size, y, x) + size])
  {
    LeafBounds(width, depth, size, y, x);
  }

  /** The strings pushed for the `size` bytes at `start`, joined, are the
      hex text of those bytes. */
  lemma PushedBytes(allBytes: seq<byte>, start: nat, size: nat, bytes: seq<string>)
    requires start + size <= |allBytes| && |bytes| == size
    requires forall k :: 0 <= k < size ==> bytes[k] == ByteHex(allBytes[start + k])
    ensures Join(bytes) == EncodeLeaf(allBytes[start .. start + size])
  {
    var bs := allBytes[start .. start + size];
    forall k | 0 <= k < size
      ensures bytes[k] == ByteHexes(bs)[k]
    {
      assert bs[k] == allBytes[start + k];
    }
    assert bytes == ByteHexes(bs);
  }

  /** One more leaf of a row: when leaf `x` is the hex text of the `size`
      bytes at `start`, the strings pushed for those bytes, joined, extend
      the first `x` leaves by exactly that leaf. */
  lemma LeafStep(row: seq<string>, x: nat, pair: seq<string>, allBytes: seq<byte>, start: nat, size: nat,
                 bytes: seq<string>)
    requires x < |row| && pair == row[..x]
    requires start + size <= |allBytes| && row[x] == EncodeLeaf(allBytes[start .. start + size])
    requires |bytes| == size
    requires forall k :: 0 <= k < size ==> bytes[k] == ByteHex(allBytes[start + k])
    ensures pair + [Join(bytes)] == row[..x + 1]
  {
    PushedBytes(allBytes, start, size, bytes);
    PrefixSnoc(row, x);
  }

  /** Leaf (y, x) of a generated key is `2 * size` lowercase hex
      characters that decode to its own run of random bytes. */
  lemma PrivateKeyLeaf(width: nat, depth: nat, size: nat, allBytes: seq<byte>, y: nat, x: nat)
    requires |allBytes| == width * depth * size && y < depth && x < width
    ensures |PrivateKeyOf(width, depth, size, allBytes)| == depth
    ensures |PrivateKeyOf(width, depth, size, allBytes)[y]| == width
    ensures IsLeafText(PrivateKeyOf(width, depth, size, allBytes)[y][x])
    ensures |PrivateKeyOf(width, depth, size, allBytes)[y][x]| == 2 * size
    ensures DecodeLeaf(PrivateKeyOf(width, depth, size, allBytes)[y][x]) == LeafBytes(allBytes, width, depth, size, y, x)
  {
    LeafRoundTrip(LeafBytes(allBytes, width, depth, size, y, x));
  }

  /** A generated key has `depth` rows of `width` leaves, each leaf
      `2 * size` lowercase hex characters. */
  lemma PrivateKeyShape(width: nat, depth: nat, size: nat, allBytes: seq<byte>)
    requires |allBytes| == width * depth * size
    ensures |PrivateKeyOf(width, depth, size, allBytes)| == depth
    ensures forall y :: 0 <= y < depth ==> |PrivateKeyOf(width, depth, size, allBytes)[y]| == width
    ensures AllLeafText(PrivateKeyOf(width, depth, size, allBytes))
    ensures forall y, x :: 0 <= y < depth && 0 <= x < width ==>
      |PrivateKeyOf(width, depth, size, allBytes)[y][x]| == 2 * size
  {
    forall y, x | 0 <= y < depth && 0 <= x < width
      ensures IsLeafText(PrivateKeyOf(width, depth, size, allBytes)[y][x])
      ensures |PrivateKeyOf(width, depth, size, allBytes)[y][x]| == 2 * size
    {
      PrivateKeyLeaf(width, depth, size, allBytes, y, x);
    }
  }

  // ---------------------------------------------------------------------
  // Reading the random bytes back out of a key

  predicate AllLeafText(privateKey: PrivateKey) {
    forall y, x :: 0 <= y < |privateKey| && 0 <= x < |privateKey[y]| ==> IsLeafText(privateKey[y][x])
  }

  /** The bytes of a row's leaves, left to right. */
  function RowBytes(row: seq<string>): seq<byte>
    requires forall x :: 0 <= x < |row| ==> IsLeafText(row[x])
  {
    if row == [] then [] else RowBytes(row[..|row| - 1]) + DecodeLeaf(row[|row| - 1])
  }

  /** The bytes of a key's leaves, in row-major order. */
  function KeyBytes(privateKey: PrivateKey): seq<byte>
    requires AllLeafText(privateKey)
  {
    if privateKey == [] then []
    else KeyBytes(privateKey[..|privateKey| - 1]) + RowBytes(privateKey[|privateKey| - 1])
  }

  lemma PrefixWhole<T>(s: seq<T>, n: nat)
    requires n == |s|
    ensures s[..n] == s
  {
  }

  lemma PrefixSnoc<T>(s: seq<T>, n: nat)
    requires n < |s|
    ensures s[..n + 1] == s[..n] + [s[n]]
  {
  }

  lemma SliceSplit<T>(s: seq<T>, a: nat, b: nat, c: nat)
    requires a <= b <= c <= |s|
    ensures s[a .. c] == s[a .. b] + s[b .. c]
  {
  }

  /** Row `y` exists and all its leaves are hex text. */
  predicate RowText(privateKey: PrivateKey, y: nat) {
    y < |privateKey| && forall x :: 0 <= x < |privateKey[y]| ==> IsLeafText(privateKey[y][x])
  }

  lemma RowShape(width: nat, depth: nat, size: nat, allBytes: seq<byte>, y: nat)
    requires |allBytes| == width * depth * size && y < depth
    ensures |PrivateKeyOf(width, depth, size, allBytes)[y]| == width
    ensures RowText(PrivateKeyOf(width, depth, size, allBytes), y)
  {
    forall x | 0 <= x < width
      ensures IsLeafText(PrivateKeyOf(width, depth, size, allBytes)[y][x])
    {
      PrivateKeyLeaf(width, depth, size, allBytes, y, x);
    }
  }

  /** The bytes of the first `n` leaves are those of the first `n - 1`,
      then leaf `n - 1`'s. */
  lemma RowBytesSnoc(row: seq<string>, n: nat)
    requires forall x :: 0 <= x < |row| ==> IsLeafText(row[x])
    requires 0 < n <= |row|
    ensures RowBytes(row[..n]) == RowBytes(row[..n - 1]) + DecodeLeaf(row[n - 1])
  {
    assert row[..n][..n - 1] == row[..n - 1];
  }

  /** Extending a run of decoded leaves by the next leaf extends its byte
      range by that leaf's bytes. */
  lemma BytesStep(row: seq<string>, n: nat, allBytes: seq<byte>, a: nat, b: nat, c: nat)
    requires forall x :: 0 <= x < |row| ==> IsLeafText(row[x])
    requires 0 < n <= |row| && a <= b <= c <= |allBytes|
    requires RowBytes(row[..n - 1]) == allBytes[a .. b]
    requires DecodeLeaf(row[n - 1]) == allBytes[b .. c]
    ensures RowBytes(row[..n]) == allBytes[a .. c]
  {
    RowBytesSnoc(row, n);
    SliceSplit(allBytes, a, b, c);
  }

  /** The first `n` leaves of row `y` hold the bytes from the row's start
      up to the start of leaf `n`. */
  lemma {:induction false} RowPrefixBytes(width: nat, depth: nat, size: nat, allBytes: seq<byte>, y: nat, n: nat)
    requires |allBytes| == width * depth * size && y < depth && n <= width
    ensures RowText(PrivateKeyOf(width, depth, size, allBytes), y)
    ensures LeafStart(width, size, y, 0) <= LeafStart(width, size, y, n) <= |allBytes|
    ensures RowBytes(PrivateKeyOf(width, depth, size, allBytes)[y][..n])
      == allBytes[LeafStart(width, size, y, 0) .. LeafStart(width, size, y, n)]
  {
    RowShape(width, depth, size, allBytes, y);
    var row := PrivateKeyOf(width, depth, size, allBytes)[y];
    if n == 0 {
      RowEnds(width, depth, size, y);
    } else {
      RowPrefixBytes(width, depth, size, allBytes, y, n - 1);
      LeafSpan(width, depth, size, allBytes, y, n - 1);
      var a, b, c := LeafStart(width, size, y, 0), LeafStart(width, size, y, n - 1), LeafStart(width, size, y, n);
      BytesStep(row, n, allBytes, a, b, c);
    }
  }

  /** Leaf (y, x) decodes to the bytes from its start to the next leaf's. */
  lemma LeafSpan(width: nat, depth: nat, size: nat, allBytes: seq<byte>, y: nat, x: nat)
    requires |allBytes| == width * depth * size && y < depth && x < width
    ensures |PrivateKeyOf(width, depth, size, allBytes)| == depth
    ensures |PrivateKeyOf(width, depth, size, allBytes)[y]| == width
    ensures LeafStart(width, size, y, x) <= LeafStart(width, size, y, x + 1) <= |allBytes|
    ensures IsLeafText(PrivateKeyOf(width, depth, size, allBytes)[y][x])
    ensures DecodeLeaf(PrivateKeyOf(width, depth, size, allBytes)[y][x])
      == allBytes[LeafStart(width, size, y, x) .. LeafStart(width, size, y, x + 1)]
  {
    PrivateKeyLeaf(width, depth, size, allBytes, y, x);
    NextLeafStart(width, size, y, x);
    LeafBounds(width, depth, size, y, x);
  }

  /** The bytes of the first `m` rows are those of the first `m - 1` rows,
      then row `m - 1`'s. */
  lemma KeyBytesSnoc(key: PrivateKey, m: nat)
    requires AllLeafText(key) && 0 < m <= |key|
    ensures AllLeafText(key[..m]) && AllLeafText(key[..m - 1])
    ensures KeyBytes(key[..m]) == KeyBytes(key[..m - 1]) + RowBytes(key[m - 1])
  {
    assert key[..m][..m - 1] == key[..m - 1];
  }

  /** The first `m` rows hold the bytes up to the start of row `m`. */
  lemma {:induction false} KeyPrefixBytes(width: nat, depth: nat, size: nat, allBytes: seq<byte>, m: nat)
    requires |allBytes| == width * depth * size && m <= depth
    ensures AllLeafText(PrivateKeyOf(width, depth, size, allBytes))
    ensures LeafStart(width, size, m, 0) <= |allBytes|
    ensures KeyBytes(PrivateKeyOf(width, depth, size, allBytes)[..m]) == allBytes[.. LeafStart(width, size, m, 0)]
  {
    PrivateKeyShape(width, depth, size, allBytes);
    var key := PrivateKeyOf(width, depth, size, allBytes);
    if m == 0 {
      RowEnds(width, depth, size, 0);
    } else {
      KeyPrefixBytes(width, depth, size, allBytes, m - 1);
      RowPrefixBytes(width, depth, size, allBytes, m - 1, width);
      NextLeafStart(width, size, m - 1, 0);
      KeyBytesSnoc(key, m);
      assert key[m - 1][..width] == key[m - 1];
      var b, c := LeafStart(width, size, m - 1, 0), LeafStart(width, size, m, 0);
      SliceSplit(allBytes, 0, b, c);
    }
  }

  /** Row-major consumption: the leaves of a generated key, decoded and
      concatenated in order, are exactly the random bytes it was made from. */
  lemma KeyBytesRoundTrip(width: nat, depth: nat, size: nat, allBytes: seq<byte>)
    requires |allBytes| == width * depth * size
    ensures AllLeafText(PrivateKeyOf(width, depth, size, allBytes))
    ensures KeyBytes(PrivateKeyOf(width, depth, size, allBytes)) == allBytes
  {
    KeyPrefixBytes(width, depth, size, allBytes, depth);
    RowEnds(width, depth, size, depth);
    assert PrivateKeyOf(width, depth, size, allBytes)[..depth] == PrivateKeyOf(width, depth, size, allBytes);
  }

  // ---------------------------------------------------------------------
  // Public key derivation

  /** What deriving a public key needs: a first row to take the width
      from, and no row shorter than it. */
  predicate HasWidth(privateKey: PrivateKey) {
    |privateKey| > 0 && forall y :: 0 <= y < |privateKey| ==> |privateKey[0]| <= |privateKey[y]|
  }

  function PublicKeyOf(H: Hash, privateKey: PrivateKey): PublicKey
    requires HasWidth(privateKey)
  {
    seq(|privateKey|, y requires 0 <= y < |privateKey| =>
      seq(|privateKey[0]|, x requires 0 <= x < |privateKey[0]| => H(privateKey[y][x])))
  }

  /** Hashes every leaf of the first `width` columns in place of the leaf. */
  method CreatePublicKey(H: Hash, privateKey: PrivateKey) returns (publicKey: PublicKey)
    requires HasWidth(privateKey)
    ensures publicKey == PublicKeyOf(H, privateKey)
  {
    var depth := |privateKey|;
    var width := |privateKey[0]|;
    publicKey := [];
    for y := 0 to depth
      invariant |publicKey| == y
      invariant forall j :: 0 <= j < y ==> |publicKey[j]| == width
      invariant forall j, i :: 0 <= j < y && 0 <= i < width ==> publicKey[j][i] == H(privateKey[j][i])
    {
      var keys: seq<string> := [];
      for x := 0 to width
        invariant |keys| == x
        invariant forall i :: 0 <= i < x ==> keys[i] == H(privateKey[y][i])
      {
        keys := keys + [H(privateKey[y][x])];
      }
      publicKey := publicKey + [keys];
    }
    ghost var pub := PublicKeyOf(H, privateKey);
    forall j | 0 <= j < depth
      ensures publicKey[j] == pub[j]
    {
      assert |pub[j]| == width;
    }
  }

  /** The public key has the private key's depth and first-row width, and
      its entry (y, x) is the digest of private leaf (y, x); for a generated
      key that is the digest of the leaf's hex text. */
  lemma PublicKeyEntries(H: Hash, width: nat, depth: nat, size: nat, allBytes: seq<byte>)
    requires |allBytes| == width * depth * size && depth > 0
    ensures HasWidth(PrivateKeyOf(width, depth, size, allBytes))
    ensures
      var pub := PublicKeyOf(H, PrivateKeyOf(width, depth, size, allBytes));
      |pub| == depth &&
      (forall y :: 0 <= y < depth ==> |pub[y]| == width) &&
      forall y, x :: 0 <= y < depth && 0 <= x < width ==>
        pub[y][x] == H(EncodeLeaf(LeafBytes(allBytes, width, depth, size, y, x)))
  {
    PrivateKeyShape(width, depth, size, allBytes);
  }

  // ---------------------------------------------------------------------
  // Selector bits

  /** The digest's hex characters expanded through HEX_TO_BINARY and
      concatenated in digest order. */
  function SelectorBits(digest: string): (bits: seq<Bit>)
    requires IsHexString(digest)
    ensures |bits| == HEX_BITS * |digest|
  {
    if digest == [] then []
    else
      HexTableRow(digest[|digest| - 1]);
      SelectorBits(digest[..|digest| - 1]) + HEX_TO_BINARY[digest[|digest| - 1]]
  }

  /** Bit `HEX_BITS * z + x` is entry `x` of digest character `z`'s row of the table. */
  lemma {:induction false} SelectorBitAt(digest: string, z: nat, x: nat)
    requires IsHexString(digest) && z < |digest| && x < HEX_BITS
    ensures SelectorBits(digest)[HEX_BITS * z + x] == HEX_TO_BINARY[digest[z]][x]
  {
    var n := |digest| - 1;
    HexTableRow(digest[n]);
    if z < n {
      SelectorBitAt(digest[..n], z, x);
    }
  }

  /** Index `i` below `HEX_BITS * n` is bit `i mod 4` of character `i div 4`. */
  lemma SplitIndex(i: nat, n: nat)
    requires i < HEX_BITS * n
    ensures i == HEX_BITS * (i / HEX_BITS) + i % HEX_BITS
    ensures i / HEX_BITS < n && i % HEX_BITS < HEX_BITS
  {
  }

  /** The selector bits of digest character `z` are its table row. */
  lemma SelectorBitsAt(digest: string, z: nat)
    requires IsHexString(digest) && z < |digest|
    ensures digest[z] in HEX_TO_BINARY
    ensures SelectorBits(digest)[HEX_BITS * z .. HEX_BITS * z + HEX_BITS] == HEX_TO_BINARY[digest[z]]
  {
    HexTableRow(digest[z]);
    var bits := SelectorBits(digest);
    var row := bits[HEX_BITS * z .. HEX_BITS * z + HEX_BITS];
    var entry := HEX_TO_BINARY[digest[z]];
    forall x | 0 <= x < HEX_BITS
      ensures row[x] == entry[x]
    {
      SelectorBitAt(digest, z, x);
      assert row[x] == bits[HEX_BITS * z + x];
    }
    assert |row| == |entry|;
  }

  /** Bit `HEX_BITS * z + x` is bit `x`, most significant first, of the value of digest character `z`. */
  lemma SelectorNibbleAt(digest: string, z: nat, x: nat)
    requires IsHexString(digest) && z < |digest| && x < HEX_BITS
    ensures SelectorBits(digest)[HEX_BITS * z + x] == NibbleBit(HexValue(digest[z]), x)
  {
    SelectorBitAt(digest, z, x);
    HexTableBits(digest[z]);
    NibbleAt(HexValue(digest[z]), x);
  }

  /** Bit `i` is bit `i mod 4`, most significant first, of the value of hex
      character `i div 4`. */
  lemma SelectorBitsNibbles(digest: string)
    requires IsHexString(digest)
    ensures forall i :: 0 <= i < HEX_BITS * |digest| ==>
      SelectorBits(digest)[i] == NibbleBit(HexValue(digest[i / HEX_BITS]), i % HEX_BITS)
  {
    forall i | 0 <= i < HEX_BITS * |digest|
      ensures SelectorBits(digest)[i] == NibbleBit(HexValue(digest[i / HEX_BITS]), i % HEX_BITS)
    {
      var z, x := i / HEX_BITS, i % HEX_BITS;
      SplitIndex(i, |digest|);
      SelectorNibbleAt(digest, z, x);
    }
  }

  /** Different digests select different bits. */
  lemma SelectorBitsInjective(d1: string, d2: string)
    requires IsHexString(d1) && IsHexString(d2)
    requires SelectorBits(d1) == SelectorBits(d2)
    ensures d1 == d2
  {
    forall z | 0 <= z < |d1|
      ensures d1[z] == d2[z]
    {
      HexTableEntry(d1[z]);
      HexTableEntry(d2[z]);
      forall k | 0 <= k < HEX_BITS
        ensures HEX_TO_BINARY[d1[z]][k] == HEX_TO_BINARY[d2[z]][k]
      {
        SelectorBitAt(d1, z, k);
        SelectorBitAt(d2, z, k);
      }
      HexTableInjective(d1[z], d2[z]);
    }
  }

  // ---------------------------------------------------------------------
  // Signing

  /** Every selector bit picks a leaf that exists in its row. */
  predicate Selectable(key: seq<seq<string>>, bits: seq<Bit>) {
    |bits| <= |key| && forall i :: 0 <= i < |bits| ==> bits[i] < |key[i]|
  }

  function SignatureOf(H: Hash, message: string, privateKey: PrivateKey): Signature
    requires IsHexString(H(message))
    requires Selectable(privateKey, SelectorBits(H(message)))
  {
    var bits := SelectorBits(H(message));
    seq(|bits|, i requires 0 <= i < |bits| => privateKey[i][bits[i]])
  }

  /** Reveals, for each selector bit of the message digest, the leaf of
      its row that the bit picks. */
  method SignMessage(H: Hash, message: string, privateKey: PrivateKey) returns (result: Signature)
    requires IsHexString(H(message))
    requires Selectable(privateKey, SelectorBits(H(message)))
    ensures result == SignatureOf(H, message, privateKey)
  {
    var hash := H(message);
    ghost var bits := SelectorBits(hash);
    var len := |hash|;
    result := [];
    for z := 0 to len
      invariant |result| == z * HEX_BITS
      invariant forall i :: 0 <= i < |result| ==> result[i] == privateKey[i][bits[i]]
    {
      var y := z * HEX_BITS;
      var hex := hash[z];
      HexTableRow(hex);
      var bin := HEX_TO_BINARY[hex];
      for x := 0 to HEX_BITS
        invariant |result| == y + x
        invariant forall i :: 0 <= i < |result| ==> result[i] == privateKey[i][bits[i]]
      {
        var bit := bin[x];
        SelectorBitAt(hash, z, x);
        result := result + [privateKey[y + x][bit]];
      }
    }
  }

  /** A signature has one leaf per selector bit, 256 for a SHA3-256
      digest, and leaf `i` is the one that bit `i mod 4` (most significant
      first) of digest character `i div 4` picks from row `i`. */
  lemma SignatureLeaves(H: Hash, message: string, privateKey: PrivateKey)
    requires IsHexString(H(message))
    requires Selectable(privateKey, SelectorBits(H(message)))
    ensures |SignatureOf(H, message, privateKey)| == HEX_BITS * |H(message)|
    ensures |H(message)| == DIGEST_HEX_LENGTH ==> |SignatureOf(H, message, privateKey)| == PRIVATE_KEY_DEPTH
    ensures forall i :: 0 <= i < |SignatureOf(H, message, privateKey)| ==>
      var bit := SelectorBits(H(message))[i];
      bit == NibbleBit(HexValue(H(message)[i / HEX_BITS]), i % HEX_BITS) &&
      SignatureOf(H, message, privateKey)[i] == privateKey[i][bit]
  {
    SelectorBitsNibbles(H(message));
  }

  // ---------------------------------------------------------------------
  // Verification

  /** Row `i` checks out: the digest of the revealed leaf equals the public
      entry the bit selects. An entry past the end of its row is
      `undefined`, which equals no digest. */
  predicate LeafMatches(H: Hash, leaf: string, row: seq<string>, bit: Bit) {
    bit < |row| && row[bit] == H(leaf)
  }

  /** What verifying needs: the comparison never reaches a missing public
      row. When the length check passes and the public key has fewer rows
      than the signature has leaves, some leaf before the missing rows
      fails to match, so the loop stops before reading past the key. */
  predicate CanCompare(H: Hash, message: string, signature: Signature, publicKey: PublicKey)
    requires IsHexString(H(message))
  {
    |signature| == HEX_BITS * |H(message)| ==> RowsSuffice(H, signature, publicKey, SelectorBits(H(message)))
  }

  /** A public key shorter than the signature has a mismatch among its rows. */
  predicate RowsSuffice(H: Hash, signature: Signature, publicKey: PublicKey, bits: seq<Bit>)
    requires |signature| == |bits|
  {
    |publicKey| < |signature| ==>
      exists k :: 0 <= k < |publicKey| && !LeafMatches(H, signature[k], publicKey[k], bits[k])
  }

  /** The first `n` revealed leaves all have a public row and match. */
  predicate MatchesBefore(H: Hash, signature: Signature, publicKey: PublicKey, bits: seq<Bit>, n: nat)
    requires n <= |signature| && n <= |bits|
  {
    forall i :: 0 <= i < n ==> i < |publicKey| && LeafMatches(H, signature[i], publicKey[i], bits[i])
  }

  /** Leaf `k` is the first one that does not match. */
  predicate FirstMismatch(H: Hash, signature: Signature, publicKey: PublicKey, bits: seq<Bit>, k: nat)
    requires k < |signature| && k < |bits|
  {
    k < |publicKey| && !LeafMatches(H, signature[k], publicKey[k], bits[k]) &&
    MatchesBefore(H, signature, publicKey, bits, k)
  }

  /** The loop never reads past the public key: while every earlier leaf
      matched, the next leaf has a public row. */
  lemma RowReached(H: Hash, signature: Signature, publicKey: PublicKey, bits: seq<Bit>, n: nat)
    requires |signature| == |bits| && RowsSuffice(H, signature, publicKey, bits)
    requires n < |signature| && MatchesBefore(H, signature, publicKey, bits, n)
    ensures n < |publicKey|
  {
    if |publicKey| < |signature| {
      var k :| 0 <= k < |publicKey| && !LeafMatches(H, signature[k], publicKey[k], bits[k]);
      assert n <= k;
    }
  }

  lemma MatchesExtend(H: Hash, signature: Signature, publicKey: PublicKey, bits: seq<Bit>, n: nat)
    requires n < |signature| && n < |publicKey| && n < |bits|
    requires MatchesBefore(H, signature, publicKey, bits, n)
    requires LeafMatches(H, signature[n], publicKey[n], bits[n])
    ensures MatchesBefore(H, signature, publicKey, bits, n + 1)
  {
  }

  lemma MismatchFirst(H: Hash, signature: Signature, publicKey: PublicKey, bits: seq<Bit>, n: nat)
    requires n < |signature| && n < |publicKey| && n < |bits|
    requires MatchesBefore(H, signature, publicKey, bits, n)
    requires !LeafMatches(H, signature[n], publicKey[n], bits[n])
    ensures FirstMismatch(H, signature, publicKey, bits, n)
  {
  }

  /** A signature with a mismatched leaf is not accepted. */
  lemma MismatchRejects(H: Hash, signature: Signature, publicKey: PublicKey, bits: seq<Bit>, k: nat)
    requires k < |signature| == |bits|
    requires FirstMismatch(H, signature, publicKey, bits, k)
    ensures !MatchesBefore(H, signature, publicKey, bits, |signature|)
  {
  }

  /** The code's length test, `hash.length === signature.length / 4` on
      floating-point numbers, holds exactly when the signature has four
      leaves per digest character. */
  function LengthMatches(hashLength: nat, signatureLength: nat): (r: bool)
    ensures r <==> signatureLength == HEX_BITS * hashLength
  {
    hashLength as real == signatureLength as real / HEX_BITS as real
  }

  /** A signature verifies when it has one leaf per selector bit and every
      leaf matches its selected public entry. */
  predicate Verifies(H: Hash, message: string, signature: Signature, publicKey: PublicKey)
    requires IsHexString(H(message))
  {
    var bits := SelectorBits(H(message));
    |signature| == |bits| && MatchesBefore(H, signature, publicKey, bits, |signature|)
  }

  /** A public key with fewer rows than the signature has leaves is
      rejected: the comparison fails before it reaches a missing row. */
  lemma ShortKeyRejected(H: Hash, message: string, signature: Signature, publicKey: PublicKey)
    requires IsHexString(H(message)) && CanCompare(H, message, signature, publicKey)
    requires |publicKey| < |signature|
    ensures !Verifies(H, message, signature, publicKey)
  {
    var bits := SelectorBits(H(message));
    if |signature| == |bits| {
      var k :| 0 <= k < |publicKey| && !LeafMatches(H, signature[k], publicKey[k], bits[k]);
      assert !MatchesBefore(H, signature, publicKey, bits, |signature|);
    }
  }

  /** The inner loop of the verification: compares the four leaves that
      start at leaf `y`, whose selector bits are `bin`, and stops at the
      first mismatch. `checked` counts the leaves hashed. */
  method CompareCharacter(H: Hash, signature: Signature, publicKey: PublicKey, ghost bits: seq<Bit>,
                          y: nat, bin: seq<Bit>)
    returns (ok: bool, ghost checked: nat)
    requires |signature| == |bits| && RowsSuffice(H, signature, publicKey, bits)
    requires y + HEX_BITS <= |signature|
    requires bits[y .. y + HEX_BITS] == bin
    requires MatchesBefore(H, signature, publicKey, bits, y)
    ensures ok ==> checked == HEX_BITS && MatchesBefore(H, signature, publicKey, bits, y + HEX_BITS)
    ensures !ok ==> 0 < checked <= HEX_BITS && FirstMismatch(H, signature, publicKey, bits, y + checked - 1)
  {
    ok := true;
    checked := 0;
    var x := 0;
    while x < HEX_BITS
      invariant 0 <= x <= HEX_BITS && checked == x
      invariant MatchesBefore(H, signature, publicKey, bits, y + x)
    {
      var bit := bin[x];
      assert bit == bits[y + x];
      var sig := signature[y + x];
      var digest := H(sig);
      RowReached(H, signature, publicKey, bits, y + x);
      checked := checked + 1;
      var pubRow := publicKey[y + x];
      if !(bit < |pubRow| && pubRow[bit] == digest) {
        MismatchFirst(H, signature, publicKey, bits, y + x);
        ok := false;
        return;
      }
      MatchesExtend(H, signature, publicKey, bits, y + x);
      x := x + 1;
    }
  }

  /** The leaves of digest character `idx` end where those of character
      `idx + 1` start. */
  lemma NextCharacter(idx: nat)
    ensures idx * HEX_BITS == HEX_BITS * idx && idx * HEX_BITS + HEX_BITS == HEX_BITS * (idx + 1)
  {
  }

  /** Checks the signature's length, then compares row by row and stops at
      the first mismatch. `checked` counts the revealed leaves hashed. */
  method VerifySignature(H: Hash, message: string, signature: Signature, publicKey: PublicKey)
    returns (result: bool, ghost checked: nat)
    requires IsHexString(H(message))
    requires CanCompare(H, message, signature, publicKey)
    ensures result == Verifies(H, message, signature, publicKey)
    ensures |signature| != HEX_BITS * |H(message)| ==> !result && checked == 0
    ensures result ==> checked == |signature|
    ensures !result && |signature| == HEX_BITS * |H(message)| ==>
      0 < checked <= |signature| &&
      FirstMismatch(H, signature, publicKey, SelectorBits(H(message)), checked - 1)
  {
    var hash := H(message);
    ghost var bits := SelectorBits(hash);
    ghost var lengthOk := |signature| == HEX_BITS * |hash|;
    var hashLength := |hash|;
    var signatureLength := |signature|;
    result := LengthMatches(hashLength, signatureLength);
    checked := 0;
    var idx := -1;
    while result && idx + 1 < hashLength
      invariant -1 <= idx < hashLength
      invariant !lengthOk ==> !result && checked == 0
      invariant lengthOk && result ==>
        checked == HEX_BITS * (idx + 1) && MatchesBefore(H, signature, publicKey, bits, checked)
      invariant lengthOk && !result ==>
        0 < checked <= |signature| && FirstMismatch(H, signature, publicKey, bits, checked - 1)
      decreases hashLength - idx
    {
      idx := idx + 1;
      var y := idx * HEX_BITS;
      NextCharacter(idx);
      var hex := hash[idx];
      HexTableRow(hex);
      var bin := HEX_TO_BINARY[hex];
      SelectorBitsAt(hash, idx);
      var ok, count := CompareCharacter(H, signature, publicKey, bits, y, bin);
      checked := checked + count;
      result := ok;
    }
    if !result && lengthOk {
      MismatchRejects(H, signature, publicKey, bits, checked - 1);
    }
  }

  // ---------------------------------------------------------------------
  // Completeness

  /** Signing with a key that has a first row of at least two leaves, no
      shorter row and a row per selector bit, then verifying against the
      public key derived from that key, always succeeds. */
  lemma Completeness(H: Hash, message: string, privateKey: PrivateKey)
    requires IsHexString(H(message))
    requires HasWidth(privateKey) && 2 <= |privateKey[0]| && HEX_BITS * |H(message)| <= |privateKey|
    ensures Selectable(privateKey, SelectorBits(H(message)))
    ensures CanCompare(H, message, SignatureOf(H, message, privateKey), PublicKeyOf(H, privateKey))
    ensures Verifies(H, message, SignatureOf(H, message, privateKey), PublicKeyOf(H, privateKey))
  {
    var bits := SelectorBits(H(message));
    assert Selectable(privateKey, bits) by {
      forall i | 0 <= i < |bits| ensures bits[i] < |privateKey[i]| {
        assert bits[i] < 2 <= |privateKey[0]| <= |privateKey[i]|;
      }
    }
    var sig := SignatureOf(H, message, privateKey);
    var pub := PublicKeyOf(H, privateKey);
    forall i | 0 <= i < |sig|
      ensures LeafMatches(H, sig[i], pub[i], bits[i])
    {
      assert bits[i] < |privateKey[0]|;
      assert pub[i][bits[i]] == H(privateKey[i][bits[i]]);
    }
  }

  /** When no revealed leaf collides under the hash with the private leaf
      its bit selects, the only signature that verifies against a key's
      public key is the one signing with that key gives. */
  lemma OnlySignatureVerifies(H: Hash, message: string, privateKey: PrivateKey, signature: Signature)
    requires IsHexString(H(message))
    requires HasWidth(privateKey) && 2 <= |privateKey[0]| && HEX_BITS * |H(message)| <= |privateKey|
    requires forall i :: 0 <= i < |signature| && i < |SelectorBits(H(message))| ==>
      H(signature[i]) == H(privateKey[i][SelectorBits(H(message))[i]]) ==>
        signature[i] == privateKey[i][SelectorBits(H(message))[i]]
    requires Verifies(H, message, signature, PublicKeyOf(H, privateKey))
    ensures Selectable(privateKey, SelectorBits(H(message)))
    ensures signature == SignatureOf(H, message, privateKey)
  {
    Completeness(H, message, privateKey);
    var bits := SelectorBits(H(message));
    var sig := SignatureOf(H, message, privateKey);
    var pub := PublicKeyOf(H, privateKey);
    forall i | 0 <= i < |signature|
      ensures signature[i] == sig[i]
    {
      assert H(signature[i]) == pub[i][bits[i]] == H(privateKey[i][bits[i]]);
    }
  }

  /** The round trip that the library's tests run, for any message: a key
      from the default dimensions, its public key, a signature and its
      verification, with a SHA3-256 digest of 64 hex characters. */
  method SignAndVerify(H: Hash, allBytes: seq<byte>, message: string) returns (verified: bool)
    requires |allBytes| == PRIVATE_KEY_TOTAL_SIZE_BYTES
    requires IsHexString(H(message)) && |H(message)| == DIGEST_HEX_LENGTH
    ensures verified
  {
    var privateKey := CreatePrivateKey(0, 0, 0, allBytes);
    PrivateKeyShape(PRIVATE_KEY_WIDTH, PRIVATE_KEY_DEPTH, PRIVATE_KEY_SIZE_IN_BYTES, allBytes);
    var publicKey := CreatePublicKey(H, privateKey);
    Completeness(H, message, privateKey);
    var signedMsg := SignMessage(H, message, privateKey);
    ghost var checked;
    verified, checked := VerifySignature(H, message, signedMsg, publicKey);
  }
}
