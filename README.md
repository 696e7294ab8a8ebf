# ARK3 and ARK3CFB in Dafny

This project models the cryptographic core of CryptoARK3, a small Java program that encrypts
files with ARK3 in cipher feedback mode:

- GF(2^8) multiplication by shift-and-add, reduced by x^8 + x^4 + x^3 + x^2 + 1 (`GF28`);
- the ARK3 block cipher (`ARK3`), a 27-round key-alternating substitution-permutation network
  with eight affine S-boxes, a fixed byte permutation, a pairwise mix step and a key
  schedule that rotates a 128-bit state right by 29 bits;
- the byte-at-a-time CFB stream cipher built on it (`ARK3CFB`), which is full-block CFB with a
  64-bit segment as in section 6.3 of NIST SP 800-38A;
- the key/IV text check `isValidKeyAndIv` that both command-line programs carry.

Java `int`, `byte` and `long` are modelled as `bv32`, `bv8` and `bv64`. The byte-to-int sign
extension and the `(byte)` cast are explicit (`JavaBytes.SignExtend`, `JavaBytes.LowByte`).

Module layout:

| file | module | contents |
|---|---|---|
| galois_field.dfy | GaloisField | GF(2^8) on `Element(bits: bv8)`: addition, multiplication by x, Horner product, field laws, polynomial product |
| gf28.dfy | GF28 | the Java multiplication loop as a method, its specification `Mul` on `bv32`, and its laws |
| java_bytes.dfy | JavaBytes | sign extension, byte cast, big-endian packing of 8 bytes into a `long`, `System.arraycopy` |
| java_character.dfy | JavaCharacter | `Character.digit` for ASCII digits and letters |
| ark3_spec.dfy | Ark3Spec | S-boxes, permutation, mix and the substitution-permutation layer as functions |
| ark3_schedule.dfy | Ark3Schedule | key schedule and 27-round encryption as functions |
| ark3.dfy | Ark3 | class `ARK3` with its `subKeys` array; each method is proved against the functions |
| ark3_cfb_spec.dfy | Ark3CfbSpec | the CFB state machine as functions of `(keystream, k)`, for any block function |
| ark3_cfb.dfy | Ark3Cfb | class `ARK3CFB` (encryptor, keystream array, `k`) proved against those functions |
| encrypt_args.dfy | EncryptArgs | `Encrypt.isValidKeyAndIv` |
| decrypt_args.dfy | DecryptArgs, ArgsAgree | `Decrypt.isValidKeyAndIv` and the agreement of the two copies |

The external `edu.rit.util.Packing` class is not part of this model. Its `packLongBigEndian` and
`unpackLongBigEndian` are defined here as big-endian conversions (`JavaBytes.Pack`,
`JavaBytes.Unpack`), with round-trip lemmas.

## Model

| member | source | states |
|---|---|---|
| GF28.GaloisFieldMultiplication | src/GF28.java:14-27 | the loop over the mask 0x80..0x01 computes `Mul(a, b)`, the eight-pass shift, reduce and add of the specification |
| GF28.ShiftAndAdd | src/GF28.java:18-24 | one loop pass: shift the accumulator, XOR 0x11D if bit 8 is set, XOR `a` if the tested bit of `b` is set |
| GF28.PartialIsHorner | src/GF28.java:17-25 | for `a` < 256, after n passes the accumulator is the field Horner product of the first n bits of `b` |
| GF28.MulInField | src/GF28.java:7-8 | for `a` < 256, `Mul(a, b)` is the GF(2^8) product of the low bytes of `a` and `b` |
| GF28.MulIsPolyProduct | src/GF28.java:7-8 | for `a` < 256, `Mul(a, b)` is the polynomial product of the two bytes reduced mod x^8 + x^4 + x^3 + x^2 + 1 |
| GF28.MulBound | src/GF28.java:15-26 | for `a` < 256 the result is below 256, for every `b` |
| GF28.MulLowByte | src/GF28.java:17-24 | only the low 8 bits of `b` matter: `Mul(a, b) == Mul(a, b & 0xFF)` |
| GF28.MulZeroRight | src/GF28.java:16-25 | `Mul(a, 0) == 0` |
| GF28.MulZeroLeft | src/GF28.java:16-25 | `Mul(0, b) == 0` |
| GF28.MulOneLeft | src/GF28.java:17-25 | `Mul(1, b) == b & 0xFF` |
| GF28.MulOneRight | src/GF28.java:17-25 | `Mul(a, 1) == a`, for every `a` |
| GF28.MulByTwo | src/GF28.java:17-25 | `Mul(2, b)` is the low byte of `b` shifted left and XORed with 0x11D when bit 7 was set |
| GF28.MulCommutative | src/GF28.java:7-8 | `Mul(a, b) == Mul(b, a)` for bytes |
| GF28.MulAssociative | src/GF28.java:7-8 | `Mul(Mul(a, b), c) == Mul(a, Mul(b, c))` for bytes `a`, `b` |
| GF28.MulLinearLeft | src/GF28.java:17-25 | `Mul(a ^ a', b) == Mul(a, b) ^ Mul(a', b)` for bytes `a`, `a'` (weaker than the all-int law; see Left out) |
| GF28.MulLinearRight | src/GF28.java:17-25 | `Mul(a, b ^ c) == Mul(a, b) ^ Mul(a, c)` for a byte `a` (weaker than the all-int law; see Left out) |
| GaloisField.TimesCommutative | src/GF28.java:7-8 | the field product is commutative |
| GaloisField.TimesAssociative | src/GF28.java:7-8 | the field product is associative |
| GaloisField.TimesDistributive | src/GF28.java:7-8 | the field product distributes over XOR |
| GaloisField.TimesIsPolyProduct | src/GF28.java:7-8 | the Horner product equals the schoolbook polynomial product reduced mod 0x11D |
| JavaBytes.SignExtend | src/ARK3.java:107 | a byte widened to an int keeps its low 8 bits, and the int is below 256 exactly when the byte is non-negative |
| JavaBytes.PackUnpack | src/ARK3.java:103 | packing the 8 unpacked bytes of a long gives the long back |
| JavaBytes.UnpackPack | src/ARK3.java:125 | unpacking the packed long of 8 bytes gives the bytes back |
| JavaBytes.UnpackLongBigEndian | src/ARK3.java:55-56 | writes the 8 big-endian bytes of `v` at `dstPos` and leaves every other element unchanged |
| JavaBytes.ArrayCopy | src/ARK3CFB.java:33 | copies `src[srcPos..srcPos+length)` to `dst[dstPos..)` and leaves every other element unchanged |
| Ark3Spec.SBoxInField | src/ARK3.java:136-142 | for S-box i in 1..8 and a sign-extended byte, the result is below 256 and is `(0xC0 ^ i) * a + 0x63` in the field |
| Ark3Spec.MultiplierInvertible | src/ARK3.java:130 | each multiplier `0xC0 ^ i` for i in 1..8 has a field inverse |
| Ark3Spec.SBoxInjective | src/ARK3.java:136-142 | each S-box i in 1..8 is injective on the 256 byte values |
| Ark3Spec.SubstituteInjective | src/ARK3.java:106-108 | the S-box layer is injective on 8-byte states |
| Ark3Spec.PermutationIsBijection | src/ARK3.java:110-117 | the index map [5,0,3,6,1,4,7,2] and its stated inverse undo each other, so each S-box output is used exactly once |
| Ark3Spec.PermuteIsPermutation | src/ARK3.java:110-117 | output byte j is input byte `[5,0,3,6,1,4,7,2][j]`, and every input byte reappears at its inverse position |
| Ark3Spec.PermuteInjective | src/ARK3.java:110-117 | the permutation is injective |
| Ark3Spec.MixInField | src/ARK3.java:151-162 | mix maps `(a, b)` to the bytes `2a + b` and `a + 3b` in the field |
| Ark3Spec.MixInjective | src/ARK3.java:151-162 | mix is injective on byte pairs |
| Ark3Spec.MixPairsInjective | src/ARK3.java:119-123 | the mix layer is injective on 8-byte states |
| Ark3Spec.SubstitutionPermutationInjective | src/ARK3.java:101-126 | the substitution-permutation layer is injective on longs |
| Ark3Schedule.ShiftedIsRotation | src/ARK3.java:44-48 | the four logical shifts and ORs on keyUpper and keyLower turn keyUpper‖keyLower into its 128-bit right rotation by 29 bits |
| Ark3Schedule.RoundsIgnoreSlotZero | src/ARK3.java:71-75 | the rounds never read `subKeys[0]` |
| Ark3Schedule.EncryptBlockIgnoresSlotZero | src/ARK3.java:69-77 | block encryption does not depend on `subKeys[0]` |
| Ark3Schedule.RoundsInjective | src/ARK3.java:71-75 | n rounds of subkey addition and SP are injective on blocks |
| Ark3Schedule.EncryptBlockInjective | src/ARK3.java:69-77 | for fixed subkeys, encryption is injective, so distinct blocks give distinct ciphertexts |
| Ark3.ARK3.constructor | src/ARK3.java:11 | a fresh array of 28 zero subkeys |
| Ark3.ARK3.BlockSize | src/ARK3.java:19-21 | the block size is the byte length of an unpacked long |
| Ark3.ARK3.KeySize | src/ARK3.java:29-31 | a key of at least this length is long enough for the schedule, whose initial state is its first 16 bytes |
| Ark3.ARK3.SubstituteBytes | src/ARK3.java:105-108 | the S-box loop fills a fresh array with the S-box layer of the state |
| Ark3.ARK3.PermuteBytes | src/ARK3.java:110-117 | the eight assignments store the permutation of the S-box output |
| Ark3.ARK3.MixPair | src/ARK3.java:120-122 | one mix call rewrites bytes i and i+1 with the mix of the pair and leaves the others unchanged |
| Ark3.ARK3.MixBytes | src/ARK3.java:119-123 | the mix loop replaces the state by its mix layer |
| Ark3.ARK3.SubstitutionPermutation | src/ARK3.java:101-126 | the method returns the substitution-permutation function of its input |
| Ark3.ARK3.RotateKeyState | src/ARK3.java:42-48 | packs the first 16 key bytes and returns the upper and lower longs of the state rotated right by 29 |
| Ark3.ARK3.StoreKeyState | src/ARK3.java:54-58 | a fresh array of the key's length holding the subkey, the rotated lower long and byte 15 XORed with the round |
| Ark3.ARK3.ScheduleRound | src/ARK3.java:42-59 | one loop pass stores subkey `round` of the schedule, changes no other subkey and returns key state `round` |
| Ark3.ARK3.SetKey | src/ARK3.java:39-61 | `subKeys[r]` is subkey r of the key for r = 1..27, `subKeys[0]` is unchanged, and the caller's key array is not modified |
| Ark3.ARK3.EncryptRounds | src/ARK3.java:70-75 | the loop computes the 27-round fold `data := SP(data ^ subKeys[r])` |
| Ark3.ARK3.Encrypt | src/ARK3.java:69-77 | `text[0..8)` becomes the big-endian bytes of the encrypted block, bytes past index 7 and the subkeys are unchanged |
| Ark3.ARK3.Decrypt | src/ARK3.java:89-91 | leaves `text` and all state unchanged |
| Ark3CfbSpec.Refill | src/ARK3CFB.java:47-51 | the register is block-encrypted and k reset to 0 when k == 8, otherwise the state is unchanged |
| Ark3CfbSpec.RegeneratesIffExhausted | src/ARK3CFB.java:47-51 | the state changes before the byte is processed if and only if k == 8 |
| Ark3CfbSpec.EncryptStep | src/ARK3CFB.java:46-56 | after `encrypt` the state is valid and 1 <= k <= 8 |
| Ark3CfbSpec.DecryptStep | src/ARK3CFB.java:66-76 | after `decrypt` the state is valid and 1 <= k <= 8 |
| Ark3CfbSpec.EncryptStepFeedback | src/ARK3CFB.java:52-54 | the result's low byte is the input's low byte XOR the register byte; that result byte is fed back at k, k advances, no other byte changes |
| Ark3CfbSpec.DecryptStepFeedback | src/ARK3CFB.java:72-74 | the result's low byte is the input's low byte XOR the register byte; the input's low byte is fed back at k, k advances, no other byte changes |
| Ark3CfbSpec.EncryptResultMayExceedByte | src/ARK3CFB.java:52 | a register byte 0x80 and input 0 give 0xFFFFFF80: the result is not confined to 0..255 |
| Ark3CfbSpec.DecryptResultMayExceedByte | src/ARK3CFB.java:72 | on decrypt too, a register byte 0x80 and input 0 give 0xFFFFFF80 |
| Ark3CfbSpec.StepRoundTrip | src/ARK3CFB.java:46-76 | decrypting the full result of `encrypt` from the same state gives back the input and the same next state |
| Ark3CfbSpec.StepRoundTripLowByte | src/ARK3CFB.java:46-76 | decrypting the result's low byte gives back the input's low byte and the same next state |
| Ark3CfbSpec.StreamRoundTrip | src/ARK3CFB.java:46-76 | for every length, decrypting the low bytes of the encryptions from the same state returns the plaintext mod 256, and encryptor and decryptor end in the same state |
| Ark3CfbSpec.EncryptStreamIndex | src/ARK3CFB.java:47-54 | after n >= 1 encrypt calls, k == (k0 + n - 1) % 8 + 1 |
| Ark3CfbSpec.DecryptStreamIndex | src/ARK3CFB.java:67-74 | after n >= 1 decrypt calls, k == (k0 + n - 1) % 8 + 1 |
| Ark3CfbSpec.RegenerationCount | src/ARK3CFB.java:47-51 | n calls from index k perform (k + n - 1) / 8 block encryptions, which is ceil(n / 8) right after `setKey` and 0 for n = 0 |
| Ark3CfbSpec.EncryptExhaustedIsRegenerations | src/ARK3CFB.java:47-51 | the number of encrypt calls that find k == 8 equals that count |
| Ark3CfbSpec.DecryptExhaustedIsRegenerations | src/ARK3CFB.java:67-71 | the number of decrypt calls that find k == 8 equals that count |
| Ark3CfbSpec.EncryptStreamAppend | src/ARK3CFB.java:46-56 | encrypting a + b is encrypting a, then b from the state a leaves |
| Ark3CfbSpec.BlockFromExhausted | src/ARK3CFB.java:47-54 | 8 bytes from a fresh register give the plaintext XOR the encrypted register, and that ciphertext block becomes the next register |
| Ark3CfbSpec.StreamIsCfb64 | src/ARK3CFB.java:46-56 | after 8m bytes from the IV, the outputs' low bytes are CFB-64 encryption of the plaintext and the register holds the last ciphertext block |
| Ark3Cfb.ARK3CFB.constructor | src/ARK3CFB.java:9-11 | a fresh ARK3 whose 28 subkeys are all zero (src/ARK3.java:11), an all-zero 8-byte register and k == 0 |
| Ark3Cfb.ARK3CFB.KeySize | src/ARK3CFB.java:21-23 | the key size covers the 16 cipher key bytes and an 8-byte IV |
| Ark3Cfb.ARK3CFB.SetKey | src/ARK3CFB.java:31-37 | keys ARK3 with `key[0..16)`, copies exactly `key[16..24)` into the register and sets k == 8 |
| Ark3Cfb.ARK3CFB.Regenerate | src/ARK3CFB.java:47-51 | the register and k become `Refill` of the old state under the current subkeys |
| Ark3Cfb.ARK3CFB.Encrypt | src/ARK3CFB.java:46-56 | the result and the new `(keystream, k)` are those of `EncryptStep` |
| Ark3Cfb.ARK3CFB.Decrypt | src/ARK3CFB.java:66-76 | the result and the new `(keystream, k)` are those of `DecryptStep` |
| JavaCharacter.HexDigitIff | src/Encrypt.java:88-95 | `Character.digit(c, 16)` is not -1 exactly for 0-9, a-f and A-F |
| JavaCharacter.HexDigitValue | src/Encrypt.java:88-95 | the value of a hex digit character |
| EncryptArgs.NoBadDigit | src/Encrypt.java:87-96 | the for-each scan finds no bad digit exactly when every character is a hex digit |
| EncryptArgs.IsValidKeyAndIv | src/Encrypt.java:83-97 | true exactly when the key has 32 characters, the IV 16, and every character of both is a hex digit |
| DecryptArgs.NoBadDigit | src/Decrypt.java:88-97 | the for-each scan finds no bad digit exactly when every character is a hex digit |
| DecryptArgs.IsValidKeyAndIv | src/Decrypt.java:84-98 | true exactly when the key has 32 characters, the IV 16, and every character of both is a hex digit |
| ArgsAgree.ValidatorsAgree | src/Decrypt.java:84-98 | the two copies of the validator agree on all inputs |

## Left out

- `main` in `Encrypt` and `Decrypt`: argument counting, file streams, the read/encrypt/write loop, error output and `System.exit` are I/O.
- `edu.rit.util.Packing` and `edu.rit.util.Hex` are not part of this model. Packing is replaced by the big-endian `JavaBytes.Pack` and `JavaBytes.Unpack`; `Hex.toByteArray` is not modelled.
- `JavaCharacter.Digit`: only the ASCII digits and letters. Java's `Character.digit` also accepts other Unicode digits and fullwidth letters, so the validator model rejects some strings Java accepts.
- The `BlockCipher` and `StreamCipher` interfaces are not shown; only the concrete classes are modelled.
- ARK3 has no inverse block cipher (`decrypt` does nothing), so none is modelled. CFB decryption does not need one.
- Cryptographic strength and diffusion are statistical and not stated.
- Ark3.ARK3.SetKey: requires a key of at least 16 bytes; Java throws `ArrayIndexOutOfBoundsException` for a shorter one, and that exception is not modelled.
- Ark3.ARK3.Encrypt: requires at least 8 bytes of text, for the same reason.
- Ark3Cfb.ARK3CFB.SetKey: requires at least 24 key bytes; Java's `arraycopy` throws for a shorter key.
- JavaBytes.ArrayCopy: requires distinct arrays, which is how `setKey` calls it; overlapping copies are not modelled.
- GF28.MulCommutative and GF28.MulAssociative: stated for byte multiplicands only. The Java loop XORs the whole `int` `a` into the result and reduces only on bit 8, so for larger `a` these two laws can fail (`Mul(0x100, 1)` is 0x100 while `Mul(1, 0x100)` is 0).
- GF28.MulLinearLeft: proved for byte multiplicands only. Left linearity also holds for every `int` `a` and `a'`, because each pass XORs `a` in and the shift-and-reduce step is XOR-linear. The all-int law is not proved in this model.
- GF28.MulLinearRight: proved for a byte multiplicand `a` only. The law holds for every `int` `a`, because the same `a` is XORed in on exactly the passes where the tested bit of `b ^ c` is set, and the shift-and-reduce step is XOR-linear. The all-int law is not proved in this model. Every caller passes a byte as `a`: `0xC0 ^ i` for i in 1..8 in the S-box (src/ARK3.java:140) and the constants 2 and 3 in the mix (src/ARK3.java:157-158).
- Ark3Cfb.ARK3CFB.Encrypt and Ark3Cfb.ARK3CFB.Decrypt before `setKey`: not left out. `Valid()` already holds in the constructor's state (zero register, k == 0, all-zero subkeys), so both contracts apply to such calls. No further lemma describes the keystream of an unkeyed cipher.
- The ARK3CFB `decrypt` comment promises a result in 0..255. The code returns the XOR of the whole input with a sign-extended register byte. The model follows the code (`Ark3CfbSpec.DecryptResultMayExceedByte`).
- The ARK3CFB `setKey` comment says `key[16] - key[32]` is the IV. The code copies only `key[16..24)`, and the model follows the code.
- Thread safety and object sharing between encryptor and decryptor instances are not modelled.
