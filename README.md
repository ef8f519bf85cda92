# LightCrypt (LCA-128) in Dafny

This project models LightCrypt, a small 128-bit substitution-permutation
block cipher, and proves properties of the model. The model covers:

- the 4-bit S-box and the loop that builds its inverse table;
- the key schedule, which derives eleven round keys from a 16-byte master key
  by a 13-bit rotation and a round constant;
- the nibble substitution layer, the byte-wise rotation layer and their
  inverses;
- the ten-round block encryption and decryption;
- padding and block-by-block (ECB) encryption of messages, and the
  decryption that strips the padding again;
- the upper-case hexadecimal helper.

## Representation

The code computes with the block as a big-endian 128-bit Python integer. The
model keeps that integer as its 16 big-endian bytes (`State.State`, a
`seq<bv8>` of length 16). On this representation `int.from_bytes(b, 'big')`
and `to_bytes(16, 'big')` are the identity. Byte p of the integer
(`(s >> 8p) & 0xFF`) is `ByteAt(s, p) == s[15 - p]`. Nibble i
(`(s >> 4i) & 0xF`) is the low or high half of byte i / 2.

Module `Word` relates the byte form to the 128-bit integer itself
(`FromWord`, `ToWord`, both inverse). It proves that the byte-level rotation
and round constant of the key schedule compute exactly the integer
expressions of `_expand_key`. It also proves that the code's byte and nibble
extraction on the integer, `(w >> (8 * p)) & 0xFF` and
`(w >> (4 * i)) & 0xF`, gives `ByteAt` and `Nibble` of the image
(`Word.ByteOfWord`, `Word.NibbleOfWord`).

## Structure

| module | contents |
|---|---|
| `State` | the state type, byte and nibble access, or-ing a byte or a nibble into place, xor, the 13-bit rotation and the round constant on bytes |
| `Word` | the bridge between a state and a `bv128` |
| `SBox` | `SBOX`, `INV_SBOX`, the loop that builds the inverse table |
| `Layers` | substitution and permutation layers (pure specification) |
| `KeySchedule` | the round-key recurrence and its integer form |
| `Rounds` | rounds, block encryption and decryption, block length errors |
| `Messages` | padding, block mapping, message encryption and decryption, Python's slice `s[:stop]` |
| `Hex` | `bytes_to_hex` and its reverse reading |
| `Errors` | the exceptions of the code as `Error`, and `Result` |
| `Cipher` | class `LightCrypt`, whose methods perform the code's loops step by step and are proved equal to the functions above |

Exceptions are modelled as `Result` values:

- `ValueError("Key must be 16 bytes")` is `InvalidKeyLength`;
- `ValueError("Block must be 16 bytes")` is `InvalidBlockLength`;
- `ValueError("Invalid ciphertext length")` is `InvalidCiphertextLength`;
- the `IndexError` of `result[-1]` on an empty result is `IndexOutOfRange`.

An empty ciphertext has length 0, a multiple of 16, so it passes the length
check. It then fails at `result[-1]`. The model follows the code here: the
empty ciphertext is not refused as a malformed length.

The padding is not checked on decryption. The last byte k is trusted, and
`result[:-k]` follows Python's slice rules. For k = 0 (`-0 == 0`), or for k
at least the length of the result, the outcome is empty. Otherwise the last
k bytes are dropped. `Messages.DecryptMessageCases` states all three cases.

## Model

| member | source | states |
|---|---|---|
| SBox.SBoxIsPermutation | src/lightcrypt.py:15-16 | two nibbles have the same SBOX entry iff they are equal, and every nibble is the SBOX entry of some nibble |
| SBox.InvSBoxIsPermutation | src/lightcrypt.py:19-21 | two nibbles have the same INV_SBOX entry iff they are equal, and every nibble is the INV_SBOX entry of some nibble |
| SBox.InvSBoxOfSBox | src/lightcrypt.py:19-21 | INV_SBOX[SBOX[x]] == x for every nibble x |
| SBox.SBoxOfInvSBox | src/lightcrypt.py:19-21 | SBOX[INV_SBOX[y]] == y for every nibble y |
| SBox.InvertTable | src/lightcrypt.py:19-21 | the loop storing i at position table[i] yields, for an injective 16-entry table, a 16-entry table with inv[table[x]] == x for all x |
| SBox.BuildInvSBox | src/lightcrypt.py:18-21 | the loop run on SBOX computes exactly the table INV_SBOX |
| Cipher.LightCrypt.Create | src/lightcrypt.py:23-28 | the constructor succeeds iff the key has 16 bytes; otherwise it fails with InvalidKeyLength; on success the new object holds the key and the schedule of that key |
| Cipher.LightCrypt.constructor | src/lightcrypt.py:23-28 | a 16-byte key is stored and the round keys are its schedule |
| Cipher.LightCrypt.ExpandKey | src/lightcrypt.py:30-44 | the loop that appends ten rotated keys with round constants returns exactly Schedule(key) |
| KeySchedule.ScheduleShape | src/lightcrypt.py:34-42 | the schedule has 11 keys; key 0 is the master key; key i is key i-1 rotated left by 13 bits with i xor-ed into the top byte |
| KeySchedule.ScheduleSnoc | src/lightcrypt.py:39-42 | appending the next computed key to the first i+1 keys of the schedule gives the first i+2 keys |
| KeySchedule.ScheduleIsWordRecurrence | src/lightcrypt.py:39-42 | read as 128-bit integers, round key i equals round key i-1 shifted left 13 or-ed with it shifted right 115, masked to 128 bits, xor-ed with i shifted left 120 |
| KeySchedule.WordStepOnBytes | src/lightcrypt.py:40-41 | on the bytes of any 128-bit integer, the code's integer step is RotateLeft13 followed by the round constant |
| Word.RotateLeft13OfWord | src/lightcrypt.py:40 | the masked 128-bit rotation by 13 bits of an integer has the bytes RotateLeft13 computes from its bytes |
| Word.AddRoundConstantOfWord | src/lightcrypt.py:41 | `w ^ (c << 120)` changes only the most significant byte, xor-ing it with c |
| Word.FromWordOfToWord | src/lightcrypt.py:33 | converting 16 bytes to the integer and back gives the bytes back |
| Word.ToWordOfFromWord | src/lightcrypt.py:101 | converting a 128-bit integer to 16 bytes and back gives the integer back |
| Word.FromWordInjective | src/lightcrypt.py:101 | two integers have the same 16 bytes iff they are equal |
| Word.ByteOfWord | src/lightcrypt.py:67 | for every p < 16, `(w >> (p * 8)) & 0xFF` on the integer is byte p of its 16-byte image |
| Word.NibbleInByte | src/lightcrypt.py:50 | on a 128-bit integer, nibble i `(w >> (4 * i)) & 0xF` is the high half (i odd) or low half (i even) of byte i / 2 |
| Word.NibbleOfWord | src/lightcrypt.py:50 | for every i < 32, `(w >> (4 * i)) & 0xF` on the integer is nibble i of its 16-byte image |
| Layers.NibbleOfSubstitute | src/lightcrypt.py:46-60 | nibble i of the substituted state is SBOX (or INV_SBOX) applied to nibble i of the input, for each of the 32 nibbles |
| Layers.NibbleOfSubstituteWith | src/lightcrypt.py:49-51 | substitution with any 16-entry table looks up each nibble on its own |
| Layers.InvSubstituteOfSubstitute | src/lightcrypt.py:46-60 | the inverse substitution undoes the substitution |
| Layers.SubstituteOfInvSubstitute | src/lightcrypt.py:46-60 | the substitution undoes the inverse substitution |
| Cipher.LightCrypt.SubstituteNibbles | src/lightcrypt.py:48-51 | the 32-step loop that or-s each looked-up nibble into a zero result computes SubstituteWith(table, state) |
| Cipher.LightCrypt.SubstituteBytes | src/lightcrypt.py:46-52 | `_substitute_bytes` computes the substitution layer |
| Cipher.LightCrypt.InvSubstituteBytes | src/lightcrypt.py:54-60 | `_inv_substitute_bytes` computes the inverse substitution layer |
| Layers.Shift | src/lightcrypt.py:68 | the rotation amount `(p * 3) % 8` is below 8 |
| Layers.RotateByteInverse | src/lightcrypt.py:69-79 | the left and the right byte rotation by the same amount undo each other, in both orders |
| Layers.RotateByteIsRotation | src/lightcrypt.py:69 | b shifted left n or-ed with b shifted right 8-n, masked to a byte, is the rotation of b left by n bits, and the mirror expression is the rotation right |
| Layers.ByteOfPermute | src/lightcrypt.py:62-81 | byte p of the permuted state is byte p of the input rotated by Shift(p); no bit leaves its byte |
| Layers.PermuteFixedBytes | src/lightcrypt.py:66-70 | the rotation amount is 0 exactly for bytes 0 and 8, which pass through unchanged |
| Layers.InvPermuteOfPermute | src/lightcrypt.py:62-81 | the inverse permutation undoes the permutation |
| Layers.PermuteOfInvPermute | src/lightcrypt.py:62-81 | the permutation undoes the inverse permutation |
| Cipher.LightCrypt.PermuteBits | src/lightcrypt.py:62-71 | the 16-step loop computes the permutation layer |
| Cipher.LightCrypt.InvPermuteBits | src/lightcrypt.py:73-81 | the 16-step loop computes the inverse permutation layer |
| Rounds.DecryptRoundOfEncryptRound | src/lightcrypt.py:95-114 | one decryption round undoes one encryption round under the same key |
| Rounds.EncryptRoundOfDecryptRound | src/lightcrypt.py:95-114 | one encryption round undoes one decryption round under the same key |
| Rounds.DecryptDownToOfEncryptState | src/lightcrypt.py:95-114 | undoing rounds 10 down to r+1 of a ciphertext gives the encryption state after round r |
| Rounds.DecryptStateOfEncryptState | src/lightcrypt.py:83-119 | block decryption undoes block encryption under the same round keys |
| Rounds.EncryptUpToOfDecryptState | src/lightcrypt.py:95-114 | running rounds 1 to r over a decrypted block gives the decryption state before round r+1 is undone |
| Rounds.EncryptStateOfDecryptState | src/lightcrypt.py:83-119 | block encryption undoes block decryption: the block cipher is a bijection |
| Rounds.EncryptStateInjective | src/lightcrypt.py:83-101 | two blocks encrypt to the same block iff they are equal |
| Rounds.BlockContract | src/lightcrypt.py:85-86 | both block operations succeed iff the block has 16 bytes, fail with InvalidBlockLength otherwise, and return 16 bytes |
| Rounds.BlockRoundTrip | src/lightcrypt.py:83-119 | decrypt_block(encrypt_block(b)) == b and encrypt_block(decrypt_block(b)) == b for every 16-byte block |
| Cipher.LightCrypt.EncryptBlock | src/lightcrypt.py:83-101 | the method refuses a non-16-byte block and otherwise runs key addition and rounds 1..10 to the value Rounds.EncryptBlock specifies |
| Cipher.LightCrypt.DecryptBlock | src/lightcrypt.py:103-119 | the method refuses a non-16-byte block and otherwise undoes rounds 10..1 and key 0 to the value Rounds.DecryptBlock specifies |
| Messages.PadLength | src/lightcrypt.py:124-126 | the pad length is `16 - len % 16`, between 1 and 16, and makes the length a multiple of 16 |
| Messages.PadShape | src/lightcrypt.py:124-127 | the padded message starts with the message, has pad-length bytes more, a multiple of 16 in all, and every added byte equals the pad length |
| Messages.MapBlocksAt | src/lightcrypt.py:131-133 | block j of the block-wise output is the block function applied to block j of the input |
| Messages.MapBlocksSnoc | src/lightcrypt.py:131-133 | processing one more block appends that block's image to the output so far |
| Messages.MapBlocksInverse | src/lightcrypt.py:130-146 | mapping a block function and then its left inverse over whole blocks gives the input back |
| Messages.DecryptorOfEncryptor | src/lightcrypt.py:83-119 | the decryption function is a left inverse of the encryption function |
| Messages.EncryptMessageShape | src/lightcrypt.py:121-135 | `len(encrypt(m)) == len(m) + (16 - len(m) % 16)`: a multiple of 16, 1 to 16 bytes longer than m; block j is the block encryption of block j of the padded message |
| Cipher.LightCrypt.Encrypt | src/lightcrypt.py:121-135 | the method (pad length, unreachable `pad_len == 0` branch, padding, block loop) returns EncryptMessage |
| Cipher.LightCrypt.EncryptBlocks | src/lightcrypt.py:130-133 | the block loop of `encrypt` returns every padded block encrypted, in order |
| Messages.PythonPrefix | src/lightcrypt.py:150 | Python's `s[:stop]` is a prefix of s |
| Messages.PythonPrefixOfNegative | src/lightcrypt.py:150 | `s[:-k]` drops the last k bytes when 1 <= k < len(s), and is empty when k == 0 or k >= len(s) |
| Messages.StripPaddingOfPad | src/lightcrypt.py:149-150 | removing the padding from a padded message gives the message back |
| Messages.DecryptMessageCases | src/lightcrypt.py:137-150 | a length that is not a multiple of 16 fails with InvalidCiphertextLength before any decryption; the empty ciphertext fails with IndexOutOfRange; otherwise the result is the block-wise decryption truncated by its unchecked last byte |
| Cipher.LightCrypt.Decrypt | src/lightcrypt.py:137-150 | the method (length check, block loop, last-byte read, slice) returns DecryptMessage |
| Cipher.LightCrypt.DecryptBlocks | src/lightcrypt.py:143-146 | the block loop of `decrypt` returns every block decrypted, in order |
| Messages.DecryptMessageOfEncryptMessage | test/test_lightcrypt.py:5-14 | decrypting the encryption of any message gives the message back |
| Messages.EncryptMessageInjective | test/test_lightcrypt.py:17-28 | two messages have the same ciphertext iff they are equal |
| Messages.EmptyMessage | test/test_lightcrypt.py:47-56 | the empty message encrypts to exactly 16 bytes and decrypts to the empty message |
| Hex.HexDigit | src/lightcrypt.py:159 | every nibble becomes an upper-case hexadecimal digit |
| Hex.DigitValueOfHexDigit | src/lightcrypt.py:159 | reading the digit of a nibble gives the nibble back |
| Hex.HexDigitOfDigitValue | src/lightcrypt.py:159 | the digit of the value of a digit character is that character |
| Hex.BytesToHex | src/lightcrypt.py:157-159 | the text has two upper-case hexadecimal digits per byte |
| Hex.HexToBytesOfBytesToHex | src/lightcrypt.py:157-159 | the hexadecimal text reads back, high nibble first, as exactly the bytes it came from |

## Left out

- `generate_key` is not modelled: it draws from `os.urandom`, which is randomness.
- The `__main__` demonstration and its printing are not modelled: they are I/O.
- `encrypt.py`, `decrypt.py`, `src/demo.py` and the benchmark scripts are not modelled: they are I/O and timing front-ends around the core.
- The `test_wrong_key` expectation is not modelled: a different key giving a different plaintext is a statistical property of the cipher, not a contract of the code.
- Cipher.LightCrypt.ExpandKey: it takes a 16-byte `State`. The code accepts any byte string, but only ever calls `_expand_key` after the 16-byte check.
- Xor: the round-key addition `state ^= key` is modelled as bytewise xor of the two big-endian byte images. No lemma relates it to xor of the 128-bit integers, except for the round constant (Word.AddRoundConstantOfWord): the general statement, over two unconstrained 128-bit values, is beyond what the solver proves within its resource limit here.
- Hex.HexToBytes: it is the reverse reading used as the partner of `bytes_to_hex`. It accepts only upper-case digits, and the code has no such function.
- Hex.DigitValue: it is the model-only digit reader used by Hex.HexToBytes, the round-trip partner of `bytes_to_hex`. The code reads no hexadecimal digits.
- Python integers are unbounded. All of the code's integers stay below 2^128 because of the explicit mask in `_expand_key` and the `& 0xFF` in the permutation, so fixed-width bit-vectors lose nothing.
- Several instances share the class constants `SBOX` and `INV_SBOX`. They are module constants here, and the class-body loop is the method SBox.BuildInvSBox, proved to produce INV_SBOX.
