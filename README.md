# Cryptopals XOR toolkit in Dafny

A model of the byte-level core of a Rust workspace of Cryptopals solutions:

- the hexadecimal validator and the nibble-packing hex decoder shared by all
  crates (`crypto_utilities`);
- the duplicate validator of `hex_to_base64_1`;
- the XOR of two hex strings and the lowercase hex encoder (`fixed_xor_2`);
- single-byte XOR decryption with its UTF-8 check, the character counter and
  the brute-force key search (`single_xor_cipher_3`);
- repeating-key XOR (`repeating_key_xor_5`);
- the Hamming distance with Kernighan's bit-clearing loop
  (`break_repeating_key_xor_6`).

Hex is Base16 (section 8 of RFC 4648) with the crate's two deviations kept: an
odd-length input is accepted and its last digit becomes the high half of a
final byte, and the encoder always writes lowercase.

Rust strings are `seq<char>` (a Dafny `char` is a Unicode scalar value, as a
Rust `char` is). Their byte view, `str::bytes`/`as_bytes`, and
`str::from_utf8` are `Utf8.Encode` and `Utf8.Decode`, written after the
byte-sequence syntax of section 4 of RFC 3629. So `str::len` is the UTF-8
byte length, as in Rust. Bytes are the integers 0 to 255. `^`, `&`, the bit
count, `>> 4`, `& 0xf` and `<< 4` are written out over integers in module
`Bits` and in the hex code.

The chi-squared score of the key search works on `f32` percentages. Here it
is an arbitrary function `score: seq<char> -> real` that is passed in. The
reference table read from `sample-text.txt` is that function, and a file that
cannot be read is `None`.

Files:
- `common.dfy`: `byte`, `Option`, `Result`.
- `bits.dfy`: XOR, AND and the bit count.
- `utf8.dfy`: UTF-8 encoding and decoding.
- `crypto_utilities.dfy`, `hex_to_base64.dfy`, `fixed_xor.dfy`,
  `single_xor_cipher.dfy`, `repeating_key_xor.dfy`,
  `break_repeating_key_xor.dfy`: one module per crate.

Loops in the source are methods with loop invariants, each proved equal to a
function (`HexToBinaryBuffer` to `DecodeHex`, `BufferToHexString` to
`EncodeHex`, `GetHammingDistance` to `Hamming`, and so on). The properties are
the contracts of those functions and lemmas about them.

## Model

| member | source | states |
|---|---|---|
| `CryptoUtilities.IsValidHex` | crypto_utilities/src/lib.rs:4-12 | true exactly when every character is an ASCII hex digit (`0-9`, `a-f`, `A-F`); the empty string is valid |
| `CryptoUtilities.ValidHexVectors` | crypto_utilities/src/lib.rs:65-98 | the all-digit test string is valid; appending `` ` ``, `@`, `/`, `:`, `G` or `g` makes it invalid |
| `CryptoUtilities.ToDigit` | crypto_utilities/src/lib.rs:29-37 | `to_digit(16)` yields a value exactly for hex digits: `0-9` give 0 to 9, and `a-f` and `A-F` both give 10 to 15 |
| `CryptoUtilities.ToDigitIgnoresCase` | crypto_utilities/src/lib.rs:29-37 | lowering a letter does not change what `to_digit(16)` makes of it |
| `CryptoUtilities.Pack` | crypto_utilities/src/lib.rs:39-50 | the packed byte has `hi` as its high nibble and `lo` as its low nibble |
| `CryptoUtilities.HexIsAscii` | crypto_utilities/src/lib.rs:54 | a hex string is as long in UTF-8 bytes (`str::len`) as in characters |
| `CryptoUtilities.DecodeHexValid` | crypto_utilities/src/lib.rs:15-59 | a valid hex string decodes to ceil(n/2) bytes; byte k has digit 2k as its high nibble and digit 2k+1 as its low nibble, or 0 past an odd end |
| `CryptoUtilities.DecodeHexFirstError` | crypto_utilities/src/lib.rs:28-37 | decoding fails naming the first character that is not a hex digit |
| `CryptoUtilities.DecodeHexIgnoresCase` | crypto_utilities/src/lib.rs:28-37 | the lowercase of a string decodes to the same bytes, or fails on the lowercase of the same character |
| `CryptoUtilities.DecodeHex` | crypto_utilities/src/lib.rs:15-59 | decoding fails exactly when `is_valid_hex` is false, and then names a character of the input that is not a hex digit; otherwise it gives ceil(n/2) bytes |
| `CryptoUtilities.DecodeHexVectors` | crypto_utilities/src/lib.rs:100-122 | `""` gives `[]`, `"4cd2"` gives `[76, 210]`, `"8f61c"` gives `[143, 97, 192]`, `"invalid_hex"` fails on `'i'` |
| `CryptoUtilities.HexToBinaryBuffer` | crypto_utilities/src/lib.rs:15-59 | the loop returns exactly the decoding, including the error for the first bad character and the pending half byte of an odd-length input |
| `CryptoUtilities.OpenByte` | crypto_utilities/src/lib.rs:40-41 | a digit at an even position, shifted into the high nibble, keeps the loop state: the previous pairs, and the digit pending |
| `CryptoUtilities.CloseByte` | crypto_utilities/src/lib.rs:42-50 | a digit at an odd position, ORed into the low nibble, completes the pending byte, which is pushed; the result stays a byte |
| `CryptoUtilities.DecodeHexOfPairs` | crypto_utilities/src/lib.rs:39-56 | the full pairs gathered by the loop, plus the pending half byte for an odd length, make up the decoding |
| `HexToBase64.IsValidHex` | hex_to_base64_1/src/lib.rs:6-14 | accepts exactly the strings the `crypto_utilities` validator accepts |
| `FixedXor.XorBuffers` | fixed_xor_2/src/lib.rs:32-36 | the zipped XOR is as long as the shorter buffer, and byte i is `buf1[i] ^ buf2[i]` |
| `FixedXor.XorBuffersComm` | fixed_xor_2/src/lib.rs:32-36 | the zipped XOR does not depend on the order of the buffers |
| `FixedXor.XorBuffersCancel` | fixed_xor_2/src/lib.rs:32-36 | XOR with the same buffer twice gives back the first buffer |
| `FixedXor.HexXor` | fixed_xor_2/src/lib.rs:9-39 | invalid hex gives the invalid-characters error; valid strings of different lengths give the length error; the decoder's error is never returned; otherwise the result has ceil(n/2) bytes, each the XOR of the decoded bytes |
| `FixedXor.HexXorComm` | fixed_xor_2/src/lib.rs:9-39 | for two valid hex strings of the same length, swapping them gives the same bytes |
| `FixedXor.HexXorVectors` | fixed_xor_2/src/lib.rs:63-83 | the three invalid pairs and `"67c72"`/`"8361cd"` fail; `""`/`""` gives `[]` |
| `FixedXor.HexadecimalXor` | fixed_xor_2/src/lib.rs:9-39 | the method with its `zip` loop returns exactly `HexXor` |
| `FixedXor.FromDigit` | fixed_xor_2/src/lib.rs:49-52 | `from_digit(n, 16)` is `None` exactly from 16 on; otherwise it is a lowercase hex digit whose value is `n` |
| `FixedXor.HexChar` | fixed_xor_2/src/lib.rs:46-50 | the digit written for a nibble is a lowercase hex digit whose value is the nibble |
| `FixedXor.EncodeHex` | fixed_xor_2/src/lib.rs:42-57 | the encoding has two characters per byte, and character i is the digit of nibble i, high nibble first |
| `FixedXor.EncodeHexIsLowerHex` | fixed_xor_2/src/lib.rs:45-53 | every character of the encoding is `0-9` or `a-f` |
| `FixedXor.DecodeEncodeHex` | fixed_xor_2/src/lib.rs:103-115 | decoding the encoding of any buffer gives the buffer back |
| `FixedXor.EncodeDecodeHex` | fixed_xor_2/src/lib.rs:103-115 | encoding the decoding of a lowercase hex string gives the string back, with a `0` appended after an odd length |
| `FixedXor.EncodeDecodeAnyCase` | fixed_xor_2/src/lib.rs:42-57 | a hex string of either case decodes, and its re-encoding is its lowercase, with a `0` appended after an odd length |
| `FixedXor.EncodeHexVectors` | fixed_xor_2/src/lib.rs:103-115 | `"1234567890abcdef"`, `"fedcba0987654321"` and `"000030fedcba"` survive the round trip through bytes |
| `FixedXor.BufferToHexString` | fixed_xor_2/src/lib.rs:42-57 | the nested loop returns `Ok` of the encoding; the `from_digit` error is never returned |
| `SingleXorCipher.XorWithKey` | single_xor_cipher_3/src/lib.rs:78-81 | the output is as long as the message, and byte i is `msg[i] ^ key` |
| `SingleXorCipher.XorWithKeyTwice` | single_xor_cipher_3/src/lib.rs:78-81 | XOR with the same key twice gives back the message |
| `SingleXorCipher.ApplyXorCipher` | single_xor_cipher_3/src/lib.rs:76-88 | decryption succeeds exactly when the XORed bytes are well-formed UTF-8, and then the string's bytes are the XORed bytes |
| `SingleXorCipher.ApplyXorCipherInvolution` | single_xor_cipher_3/src/lib.rs:76-88 | XORing the decrypted string's bytes with the key again gives back the encrypted bytes |
| `SingleXorCipher.ApplyXorCipherRecovers` | single_xor_cipher_3/src/lib.rs:76-88 | any string encrypted under a key is recovered by decrypting with that key |
| `SingleXorCipher.ApplyXorCipherEmpty` | single_xor_cipher_3/src/lib.rs:191-196 | the empty message decrypts to `""` under every key |
| `SingleXorCipher.ApplyXorCipherValidVector` | single_xor_cipher_3/src/lib.rs:208-220 | `"asdf"` under key 24 decrypts to `"yk\|~"` |
| `SingleXorCipher.ApplyXorCipherInvalidVectors` | single_xor_cipher_3/src/lib.rs:198-206 | `[255, 1]` under 24 and `[0, 41, 143, 9, 9]` under 12 are not UTF-8 after the XOR |
| `SingleXorCipher.GetCharacterFrequencies` | single_xor_cipher_3/src/lib.rs:104-112 | the counting loop returns the table of occurrence counts |
| `SingleXorCipher.Frequencies` | single_xor_cipher_3/src/lib.rs:104-112 | a character has an entry exactly when it occurs; its entry is its number of positions in the text, between 1 and the text length |
| `SingleXorCipher.FrequenciesAppend` | single_xor_cipher_3/src/lib.rs:108-110 | one more character adds 1 to its entry, or enters it with 1 when it is new |
| `SingleXorCipher.FrequenciesTotal` | single_xor_cipher_3/src/lib.rs:108-110 | the counts sum to the number of characters |
| `SingleXorCipher.FrequenciesVectors` | single_xor_cipher_3/src/lib.rs:222-237 | `""` gives the empty table; `"aaaabbcc"` gives a: 4, b: 2, c: 2 |
| `SingleXorCipher.BestCandidateNone` | single_xor_cipher_3/src/lib.rs:41-62 | the search holds nothing exactly when no key tried so far decrypts to UTF-8 |
| `SingleXorCipher.BestCandidate` | single_xor_cipher_3/src/lib.rs:41-62 | the held key was tried, the held message is that key's decryption, and the held score is that message's score |
| `SingleXorCipher.BestCandidateMinimal` | single_xor_cipher_3/src/lib.rs:49-61 | the held score is at most the score of every tried key whose decryption is UTF-8 |
| `SingleXorCipher.BestCandidateFirst` | single_xor_cipher_3/src/lib.rs:57-61 | every earlier key with a UTF-8 decryption scores strictly higher: the first minimum wins |
| `SingleXorCipher.SearchStep` | single_xor_cipher_3/src/lib.rs:44-61 | one more key leaves the candidate alone when its decryption is not UTF-8 or does not score strictly lower, and otherwise replaces it with that key, message and score |
| `SingleXorCipher.SingleXorCipherCrack` | single_xor_cipher_3/src/lib.rs:19-71 | non-hex input fails before the search; an unreadable reference fails; otherwise the result is the search's candidate over keys 0 to 254, or the no-valid-key error |
| `SingleXorCipher.CrackResult` | single_xor_cipher_3/src/lib.rs:41-70 | the returned key is never 255; the message is `apply_xor_cipher(key, bytes)`; its score is minimal over the tried keys and strictly below every earlier key |
| `SingleXorCipher.CrackFails` | single_xor_cipher_3/src/lib.rs:41-67 | the crack finds no candidate exactly when no key below 255 gives UTF-8 |
| `SingleXorCipher.Key255NeverTried` | single_xor_cipher_3/src/lib.rs:42 | "A" under key 255 is decrypted only by key 255, yet the search over `0..255` returns another message |
| `SingleXorCipher.CrackAllKeysResult` | single_xor_cipher_3/src/lib.rs:41-62 | over all 256 keys the candidate's score is minimal among every byte value, and "A" under key 255 is found with key 255 |
| `RepeatingKeyXor.CycleXor` | repeating_key_xor_5/src/lib.rs:8-12 | the output is as long as the message |
| `RepeatingKeyXor.CycleXorAt` | repeating_key_xor_5/src/lib.rs:8-11 | output byte i is `msg[i] ^ key[i mod len(key)]` |
| `RepeatingKeyXor.CycleXorTwice` | repeating_key_xor_5/src/lib.rs:8-11 | XOR with the same cycling key twice gives back the message |
| `RepeatingKeyXor.CycleXorSingleByte` | repeating_key_xor_5/src/lib.rs:8-11 | a one-byte cycling key is single-byte XOR with that byte |
| `RepeatingKeyXor.MultiKeyXorEncode` | repeating_key_xor_5/src/lib.rs:7-13 | the output is as long as the message in bytes; for a non-empty key, byte i is message byte i XOR key byte i mod the key's byte length, which is not 0 |
| `RepeatingKeyXor.MultiKeyXorEncodeEmpty` | repeating_key_xor_5/src/lib.rs:7-13 | the empty message encodes to no bytes under every key, the empty key included |
| `RepeatingKeyXor.MultiKeyXorEncodeInvolution` | repeating_key_xor_5/src/lib.rs:7-13 | XORing the output with the cycling key gives back the message's bytes; when the output is a string, encoding that string with the key gives the message's bytes |
| `RepeatingKeyXor.MultiKeyXorEncodeSingleByte` | repeating_key_xor_5/src/lib.rs:7-13 | with a one-byte key the output is the byte map of `apply_xor_cipher` with that byte |
| `BreakRepeatingKeyXor.GetHammingDistance` | break_repeating_key_xor_6/src/lib.rs:6-29 | an error exactly when the byte lengths differ; otherwise the sum over byte pairs of the bits set in their XOR |
| `BreakRepeatingKeyXor.HammingSymmetric` | break_repeating_key_xor_6/src/lib.rs:17-26 | the distance does not depend on the order of the strings |
| `BreakRepeatingKeyXor.HammingZeroIffEqual` | break_repeating_key_xor_6/src/lib.rs:17-26 | the distance is 0 exactly between equal byte strings |
| `BreakRepeatingKeyXor.Hamming` | break_repeating_key_xor_6/src/lib.rs:17-26 | the distance is at most 8 times the byte length |
| `BreakRepeatingKeyXor.HammingTriangle` | break_repeating_key_xor_6/src/lib.rs:17-26 | the distance obeys the triangle inequality |
| `BreakRepeatingKeyXor.HammingEmptyVector` | break_repeating_key_xor_6/src/lib.rs:41-46 | the distance between `""` and `""` is 0 |
| `BreakRepeatingKeyXor.HammingAppend` | break_repeating_key_xor_6/src/lib.rs:17-26 | one more pair of bytes adds the bits set in their XOR |
| `BreakRepeatingKeyXor.HammingVector` | break_repeating_key_xor_6/src/lib.rs:35-39 | "this is a test" and "wokka wokka!!!" have the same byte length and differ in 37 bits |
| `BreakRepeatingKeyXor.HammingUnevenVector` | break_repeating_key_xor_6/src/lib.rs:48-52 | "this is a test for uneven strings" and "wokka wokka!!!" differ in byte length, so the distance is an error |
| `Bits.ClearLowestBit` | break_repeating_key_xor_6/src/lib.rs:22-25 | for nonzero `x`, `x & (x - 1)` is smaller than `x` and has one bit fewer, so the inner loop ends and adds exactly the bit count |
| `Bits.XorCancel` | single_xor_cipher_3/src/lib.rs:80 | `(a ^ k) ^ k == a` |
| `Bits.XorComm` | fixed_xor_2/src/lib.rs:35 | `a ^ b == b ^ a` |
| `Bits.XorBound` | fixed_xor_2/src/lib.rs:35 | the XOR of two numbers below 2^n is below 2^n, so the XOR of two bytes is a byte |
| `Bits.PopCountBound` | break_repeating_key_xor_6/src/lib.rs:19-25 | a number below 2^n has at most n bits set, so a byte has at most 8 |
| `Bits.XorTriangle` | break_repeating_key_xor_6/src/lib.rs:19-25 | the bit count of `a ^ c` is at most that of `a ^ b` plus that of `b ^ c` |
| `Utf8.Decode` | single_xor_cipher_3/src/lib.rs:84-87 | `from_utf8` succeeds exactly on well-formed UTF-8, and a decoded string's bytes are exactly the bytes it was decoded from |
| `Utf8.DecodeOfEncode` | single_xor_cipher_3/src/lib.rs:84-87 | the bytes of any string decode back to that string |
| `Utf8.EncodeIsWellFormed` | single_xor_cipher_3/src/lib.rs:84-87 | the bytes of any string are well-formed UTF-8 |
| `Utf8.Encode` | break_repeating_key_xor_6/src/lib.rs:8 | a string has between one and four bytes per character, so it has no bytes exactly when it is empty; this is what lets `hex.is_empty()` (crypto_utilities/src/lib.rs:18) stand for the byte test, and why an empty message never reaches the key's `unwrap` (repeating_key_xor_5/src/lib.rs:8-11) |
| `Utf8.EncodeAscii` | break_repeating_key_xor_6/src/lib.rs:17 | an ASCII string's bytes are its character codes, one per character |
| `Utf8.AsciiBytes` | break_repeating_key_xor_6/src/lib.rs:17 | a string whose characters are ASCII has as bytes exactly their codes |

## Findings

| source | as written | input that shows it | evidently intended | confidence | as-written member | corrected member |
|---|---|---|---|---|---|---|
| single_xor_cipher_3/src/lib.rs:42 | `for key in 0..255` tries keys 0 to 254 | the byte `0xBE` ("A" under key 255) with a score that ranks "A" first: the search returns another key and message | `0..=255`: every byte value is tried, as the crate documentation at line 3 says | medium, not executed | `SingleXorCipher.Key255NeverTried` | `SingleXorCipher.CrackAllKeysResult` |

The method `SingleXorCipherCrack` keeps the range as written (`KeysTried` is 255). The corrected search is `BestCandidate` over `AllKeys` (256), and `CrackAllKeysResult` states what it guarantees.

## Left out

- `get_character_percentages`, `get_chi_squared` and `get_file_character_percentages` (single_xor_cipher_3/src/lib.rs:92-174): these are `f32` arithmetic and file reading. The score is an arbitrary function parameter, and the reference file is an `Option` of it.
- `SingleXorCipherCrack`: scores are reals, which are totally ordered, so `new_chi < smallest_chi` always decides. In the source they are `f32`. A reference file under 100 characters makes `total_chars / 100` an integer 0 (single_xor_cipher_3/src/lib.rs:147), so its percentages are infinite. Lines 160-161 then divide infinity by infinity, and the score is NaN. Every comparison at line 57 is then false, and the first key whose decryption is UTF-8 wins. This NaN behaviour is not modelled.
- `ApplyXorCipher`: the error is a bare `InvalidUtf8`. `Utf8Error`'s `valid_up_to` and `error_len` are dropped, because the crack discards the error (single_xor_cipher_3/src/lib.rs:46).
- The score itself is never computed, so the crack's test vector (key 88, "Cooking MC's like a pound of bacon") is not stated.
- `GetCharacterFrequencies`: counts are unbounded, not `u32`. Wrap-around after 2^32 occurrences is not modelled.
- `GetHammingDistance`: the result is unbounded, not `i32`.
- `String` errors are datatypes naming the case, not formatted messages.
- `u8` arithmetic in `hex_to_binary_buffer` (`val as u8`, `hex_mask << 4`) is written over integers; it cannot overflow there, because digits are below 16.
- `MultiKeyXorEncode`: an empty key with a non-empty message panics at `unwrap` in the source. The model requires a non-empty key or an empty message instead of modelling the panic.
- Known vectors whose proof would evaluate long XOR chains on literal data:
  - `hexadecimal_xor_normal` (fixed_xor_2/src/lib.rs:86-100);
  - the `"hello i am daniel"` vector (single_xor_cipher_3/src/lib.rs:212);
  - the "ICE" vector (repeating_key_xor_5/src/lib.rs:19-31), including its `from_utf8` check.
  The general lemmas about each of these operations are proved.
- `detect_single_char_xor_4` and `aes_128_ecb_7` are not part of this model. The first is file reading around the crack. The second calls OpenSSL.
- Key-length estimation and multi-byte key recovery are not part of this model; `break_repeating_key_xor_6` holds only the Hamming distance.
