# Lamport one-time signatures, modelled in Dafny

This project models `src/lamport.js`, a JavaScript implementation of
Lamport one-time signatures. It has four operations.

- `create_private_key` cuts a buffer of random bytes, in row-major order,
  into `depth` rows of `width` leaves of `size` bytes. Each byte is written
  as two lowercase hex characters.
- `create_public_key` takes the width from the first row's length. It hashes
  the first `width` leaves of every row with SHA3-256, applied to the
  leaf's text.
- `sign_message` expands the message digest into selector bits through the
  `HEX_TO_BINARY` table. For each row it reveals the leaf that the row's bit
  picks.
- `verify_signature` checks the signature's length. It then re-hashes each
  revealed leaf and compares it with the public entry the bit selects,
  stopping at the first mismatch.

The project has two modules.

- `Hex` (`hex.dfy`) holds the nibble table, the two-character encoding of a
  byte, and the hex text of a leaf.
- `Lamport` (`lamport.dfy`) holds the four operations. Each is an imperative
  method with the source's own loops, proved equal to a pure specification
  function (`PrivateKeyOf`, `PublicKeyOf`, `SignatureOf`, `Verifies`). The
  inner loops of `create_private_key` and `verify_signature` are methods of
  their own (`PushRow`, `PushLeafBytes`, `CompareCharacter`), each with its
  own contract.
  Lemmas about those functions state the scheme's properties, ending with
  completeness: verifying the signature that a key makes against that key's
  public key always succeeds.

The hash primitive is a parameter `H: string -> string`. The random bytes
are an input sequence. A digest is assumed to be lowercase hex, which is
what the code's table lookup needs.

Where the code and its design description differ, the model follows the
code.

- The public key hashes each leaf's hex text (`private_key[y][x]`, a
  string), not the leaf's decoded bytes.
- No error is raised for malformed keys or unexpected digest lengths.
- The length check in `verify_signature` compares the signature with four
  entries per digest character, not with the key's depth.

## Model

| member | source | states |
|---|---|---|
| Hex.HexDigitValue | src/lamport.js:27-44 | the hex digit of a value below 16 has that value |
| Hex.HexValueDigit | src/lamport.js:27-44 | a lowercase hex digit is the digit of its own value |
| Hex.HexTableDomain | src/lamport.js:27-44 | the table is defined exactly on the sixteen lowercase hex digits |
| Hex.HexTableEntry | src/lamport.js:27-45 | each digit's entry has `HEX_BITS` = `HEX_TO_BINARY['0'].length` = 4 bits. The entry is the digit value's big-endian bit expansion, and reading it back as binary gives the value |
| Hex.NibbleValue | src/lamport.js:27-44 | the four big-endian bits of a value below 16, read as binary, give the value back |
| Hex.HexTableInjective | src/lamport.js:27-44 | distinct digits have distinct table entries |
| Hex.ToBase16 | src/lamport.js:74 | `toString(16)` on a byte gives one or two lowercase hex characters |
| Hex.Substr | src/lamport.js:79 | `substr(start)` keeps `length - start` characters, or none when `start` is past the end |
| Hex.SubstrChars | src/lamport.js:79 | character `i` of `substr(start)` is character `start + i` of the string |
| Hex.PadByte | src/lamport.js:76-80 | a converted byte of at most two characters is padded to exactly two. One of two or more characters is kept unchanged |
| Hex.PadByteZeros | src/lamport.js:76-80 | padding only adds '0' characters in front and keeps the converted text as the suffix |
| Hex.ByteHex | src/lamport.js:74-80 | a byte's padded text is two lowercase hex characters. It starts with '0' exactly when the byte is below 16 |
| Hex.ByteHexRoundTrip | src/lamport.js:74-80 | a padded byte is exactly two lowercase hex characters. It starts with '0' exactly when the byte is below 16, and decoding the pair gives the byte back |
| Hex.DecodeByteRoundTrip | src/lamport.js:74-80 | every two-character lowercase hex string is the padded encoding of some byte |
| Hex.Join | src/lamport.js:82 | `join('')` of hex parts is hex. Two-character parts give twice as many characters as parts, and the first part is a prefix of the result |
| Hex.JoinPairs | src/lamport.js:82 | joining two-character strings places part `i` at characters `2i` and `2i+1` |
| Hex.DecodeLeaf | src/lamport.js:72-82 | leaf text of length `2n` decodes to `n` bytes |
| Hex.EncodedPairs | src/lamport.js:72-82 | the text of a leaf's bytes holds byte `i`'s two characters at positions `2i` and `2i+1` |
| Hex.LeafRoundTrip | src/lamport.js:72-82 | the text of a leaf's bytes is twice as long as the bytes, is hex, and decodes to those bytes |
| Hex.LeafTextRoundTrip | src/lamport.js:72-82 | decoding leaf text and encoding it again reproduces the text |
| Lamport.OrDefault | src/lamport.js:59-61 | `arg || fallback` on a natural number: a non-zero argument is kept, and 0 (falsy) gives the fallback. A non-zero fallback never gives 0 |
| Lamport.DefaultDimensions | src/lamport.js:18-22 | `OrDefault(0, …)` gives width 2, depth 256 and size 32, which take 16384 bytes. The size is 256 bits, and depth 256 is four bits per character of a 64-character digest |
| Lamport.LeafStartIsRowMajor | src/lamport.js:62-74 | leaf (y, x) starts at byte `(y * width + x) * size` |
| Lamport.LeafBytes | src/lamport.js:73-74 | each leaf consumes exactly `size` bytes |
| Lamport.CreatePrivateKey | src/lamport.js:57-87 | the outer loop, with the `||` defaults and the shared `offset`, builds exactly `PrivateKeyOf` of the defaulted dimensions |
| Lamport.PushRow | src/lamport.js:70-83 | the middle loop, started at row `y`'s first byte, builds row `y` of `PrivateKeyOf` and leaves `offset` at the next row's first byte |
| Lamport.PushLeafBytes | src/lamport.js:72-81 | the inner loop pushes `size` strings, the padded text of each byte from `offset` on, and advances `offset` by `size` |
| Lamport.LeafStep | src/lamport.js:72-82 | the bytes pushed for one leaf, joined, are that leaf of `PrivateKeyOf` |
| Lamport.PrivateKeyLeaf | src/lamport.js:69-85 | a generated key has `depth` rows of `width` leaves. Leaf (y, x) is `2 * size` hex characters and decodes to its own run of random bytes |
| Lamport.PrivateKeyShape | src/lamport.js:69-85 | every row of a generated key has `width` leaves, and every leaf is hex text of `2 * size` characters |
| Lamport.RowPrefixBytes | src/lamport.js:71-83 | the first `n` leaves of a row, decoded and joined, are the bytes from the row's start to leaf `n`'s start |
| Lamport.KeyPrefixBytes | src/lamport.js:69-85 | the first `m` rows, decoded, are the bytes up to row `m`'s start |
| Lamport.KeyBytesRoundTrip | src/lamport.js:62-86 | decoding every leaf in row-major order gives back the whole random buffer. No byte is skipped, repeated or left over |
| Lamport.CreatePublicKey | src/lamport.js:88-107 | the loops build `PublicKeyOf`. The depth is the key's length, the width is the first row's length, and entry (y, x) is `H` of private leaf (y, x) |
| Lamport.PublicKeyEntries | src/lamport.js:88-106 | for a generated key, the public key is `depth` by `width`, and entry (y, x) is the digest of leaf (y, x)'s hex text |
| Lamport.SelectorBits | src/lamport.js:117-122 | a digest expands to four selector bits per hex character |
| Lamport.SelectorBitAt | src/lamport.js:118-122 | selector bit `4z + x` is entry `x` of the table row of digest character `z` |
| Lamport.SelectorBitsAt | src/lamport.js:118-122 | the four selector bits of digest character `z` are that character's table row |
| Lamport.SelectorBitsNibbles | src/lamport.js:118-122 | selector bit `i` is bit `i mod 4`, most significant first, of the value of digest character `i div 4` |
| Lamport.SelectorBitsInjective | src/lamport.js:117-122 | different digests give different selector bits |
| Lamport.SignMessage | src/lamport.js:108-129 | the nested loops build `SignatureOf`: entry `i` is the leaf of row `i` that selector bit `i` picks |
| Lamport.SignatureLeaves | src/lamport.js:110-128 | a signature has `4 * |H(message)|` leaves, 256 for a 64-character digest. Leaf `i` is `privateKey[i][b]`, where `b` is bit `i mod 4`, most significant first, of digest character `i div 4` |
| Lamport.LengthMatches | src/lamport.js:137 | the test `hash_length === signature_length / HEX_BITS`, on real numbers, holds exactly when the signature has four leaves per digest character |
| Lamport.CompareCharacter | src/lamport.js:145-154 | the inner loop hashes the four leaves of one digest character in order. It returns true with all four matched, or false at the first mismatch, after every earlier leaf matched |
| Lamport.ShortKeyRejected | src/lamport.js:141-156 | a public key with fewer rows than the signature has leaves never verifies |
| Lamport.VerifySignature | src/lamport.js:130-157 | the result is `Verifies`. A wrong length is rejected before any leaf is hashed. A success hashes every leaf. A failure stops at the first mismatched leaf, after every earlier leaf matched |
| Lamport.Completeness | test.js:27-42 | for any hash and message, a key with a first row of at least two leaves, no shorter row and one row per selector bit has a signature that verifies against the key's public key |
| Lamport.OnlySignatureVerifies | src/lamport.js:141-156 | if no revealed leaf has the same digest as the private leaf its bit selects, unless it is that leaf, then the only signature that verifies against the key's public key is the one signing with that key gives |
| Lamport.SignAndVerify | test.js:27-42 | creating a key with default dimensions, deriving its public key, signing and verifying returns true for any message with a 64-character digest |

## Left out

- The random source (`utils.random.bytes` over libsodium, src/utils.js:6-10) is foreign code. The model takes the bytes as an input sequence of the right length.
- The SHA3-256 primitive (`keccak-p-js`) is foreign code. The model takes it as an arbitrary function `H` whose digest of the message is lowercase hex. It proves no cryptographic property that rests on the hash being one-way.
- The unused constants `PRIVATE_KEY_NUM_INT32` and `PRIVATE_KEY_NUM_INT64`, and the note on 64-bit integers, are not modelled. Nothing uses them.
- One-time use is not modelled, because the code does not enforce it. Keys are immutable values, so signing cannot change the key.
- The test runner's timing calls in test.js are not modelled.
- Lamport.CreatePrivateKey: the dimensions are natural numbers, and an absent argument is written 0. Other falsy values such as `NaN` or `''` fall back the same way in JavaScript. Negative, fractional or non-numeric dimensions, and the exception a negative buffer size raises, are not modelled.
- Lamport.CreatePublicKey: requires a non-empty key with no row shorter than the first (`HasWidth`). On an empty key the code throws a TypeError, and for a missing leaf it hashes `undefined`; neither is modelled.
- Lamport.SignMessage: requires every selected leaf to exist (`Selectable`). With a key that is too short, the code pushes `undefined` into the signature or throws a TypeError; neither is modelled.
- Lamport.VerifySignature: requires that the comparison never reaches a missing public row (`CanCompare`). This holds when the length check fails, when the public key has a row for every leaf, or when an earlier leaf mismatches, so the code returns false first. Reaching a missing row makes the code throw a TypeError, which is not modelled. A row too short for the selected bit is modelled: it reads `undefined` and counts as a mismatch.
- Lamport.LengthMatches: divides exact reals, not 64-bit floats. The two agree for every array length JavaScript allows.
- Lamport.PushRow: the depth and the row index are ghost parameters. The code's middle loop does not read them; they only state which row is built.
- Lamport.VerifySignature: `checked`, the number of leaves hashed before returning, is a ghost output. It exists only to state the early exit.
- Lamport.SelectorBits: requires the digest to be lowercase hex. For any other character the table lookup is `undefined`, and the code would throw a TypeError.
