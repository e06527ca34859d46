# Banana OS: verified model of its cryptography and its process layer

A Dafny model of the hard parts of Banana OS and proofs about it: the multi-precision and finite-field code
in `crypto/`, and the Unix process layer, the command ring and the ELF loader in `kernel/app.c`.

Every loop over limbs, words or bytes is a method over arrays, proved against a short mathematical definition;
integer widths are explicit (`u8`, `u32`, `u64`, `i64` are subsets of `int`, so an overflow is a proof
failure, and wrap-around is written out). The kernel is a class whose methods are the system calls; an
invariant over the process table, the descriptor tables, the open descriptions and the terminals is kept by
each of them and therefore by every run.

What an operation is proved equal to is itself tied to its standard, in numbers and field offsets: the modules
ending in `Laws`, with `AesInverse` and `ElfTags`, state the curve laws, the bits, the constants and the layouts
that the mathematical definitions have.

Run `dafny verify dfyconfig.toml` in this directory.

Where to start:

- `Rsa.SignatureOpens`, `LadderLaws.ResultFollows` with `X25519.X25519`, `P256.MultipleIsTimes` with `P256.Ecdh` and
  `P256Laws.ChordLaw`, `Ed25519Scalar.SignScalar`
- `Ghash.MultiplyByH`, `Poly1305.Poly.Finish`, `Aes.DecipherUndoes`, `AesInverse.SboxIs`,
  `KeyWrap.AcceptsExactlyWraps`
- `Gcm.SealThenOpen`, `ChaCha.SealThenOpen`, `Ccmp.SealThenOpen`, `Sha256.Context.Final`,
  `Sha256Laws.RoundIs`, `Hmac.Pbkdf2`
- `SystemCalls.Kernel.FinishEnd`, `SystemCalls.Kernel.Tiocsctty`, `SystemCalls.Kernel.SpawnTtyFinish`, `Runs.Run`
- `CommandRing.Command`, `Elf.LoadElf`, `ElfImage.RunAddressOnly`, `ElfValues.RunAddressMoves`,
  `ElfTags.TagsMean`

| files | what they model |
|---|---|
| `Arith`, `NumberTheory`, `Radix`, `Bits`, `Places`, `Machine` | congruences, Fermat and the RSA exponent law, positional numbers, bitwise operations, binary places, machine integers |
| `Words`, `Montgomery`, `RsaArithmetic`, `RsaBytes`, `Rsa` | `crypto/rsa.c` |
| `Limbs16`, `Field25519`, `X25519`, `MontgomeryLaws`, `LadderLaws`, `Ed25519Field`, `Ed25519Scalar` | `crypto/x25519.c`, the field and scalar code of `crypto/ed25519.c` |
| `P256Curve`, `P256`, `P256Laws` | `crypto/p256.c` |
| `AesBox`, `AesField`, `Aes`, `AesInverse`, `AesLaws`, `Ghash`, `Gcm`, `Poly1305`, `ChaCha`, `ChaChaLaws`, `Streams` | `crypto/aead.c`, `crypto/chacha20.c` |
| `KeyWrap`, `Ccmp` | the inverse cipher, key unwrap and CCMP of `crypto/wifi_crypto.c` |
| `Sha256`, `Sha256Laws`, `Hmac` | `crypto/sha256.c` |
| `MacLaws`, `ModeLaws` | the message authentication codes and modes of `crypto/aead.c`, `crypto/sha256.c` and `crypto/wifi_crypto.c` as their standards write them |
| `Processes`, `Terminals`, `Descriptors`, `SystemCalls`, `KernelLaws`, `Runs` | processes, sessions, terminals and descriptors in `kernel/app.c` |
| `CommandRing`, `Elf`, `ElfImage`, `ElfValues`, `ElfTags`, `ElfLaws` | the command output ring and the ELF loader in `kernel/app.c` |

Findings about the code:

- A forced TIOCSCTTY takes a terminal from a session whose processes keep it as their controlling terminal, so
  the terminal no longer names their session; `app_spawn_tty` does the same on a terminal that names a session by
  the time it takes it, which is after `prepare` has read the program's file and perhaps slept: that it was free at
  the call is not enough. `Tiocsctty` and `SpawnTtyFinish` say exactly when the laws survive;
  `Runs.ForcedFromBoot`, `Runs.StartedTwice` and `Runs.TakenMeanwhile` reach states from boot where they do not.
- `prepare` marks a program's slot used only after its file was read, and reading may sleep
  (`kernel/fs.c:319`). A start or fork in between takes the same slot: no process has the number drawn first, the
  first program's task runs in the other's slot, and what the other had at descriptors 0 to 2 is leaked. A start
  is right exactly when at its end the slot is free and still as a start cleared it (`SpawnFinish`), in the table: no
  `used` mark and an empty name. `Runs.SlotGivenTwice` shows the failure from boot, `Runs.SecondStartFails` that
  another start's clearing the slot alone does no harm.
- `discard` closes all descriptors of the slot it is given, also when that is another process's by then
  (`SpawnFail`).
- `proc_finish` looks its parent up before `teardown`, which sleeps while threads of the process are live. When the
  parent ends meanwhile the process is kept for a parent it no longer has and its slot is never freed: `FinishEnd`
  says exactly when that happens, `Runs.KeptForNobody` shows it from boot.
- A system call that holds more than four descriptions and is abandoned leaks exactly those beyond the fourth
  (`AbandonedCall`). No call in `kernel/app.c` holds that many today, so this input is not reachable yet.
- `gcm_tag` writes bit lengths modulo 2^32, which is the standard's length block exactly for lengths below 2^29
  bytes (`LengthsStandard`).
- A session leader's open of a terminal takes it as controlling terminal even when the open then fails with
  EMFILE (`PtsOpen`); the laws still hold.

## Model

| member | source | states |
|---|---|---|
| `Words.Cmp` | crypto/rsa.c:23-26 | 1, 0 or -1 exactly as the two multi-word numbers order |
| `Words.SubInPlace` | crypto/rsa.c:28-36 | the difference modulo 2^(32n) with the borrow out; words above n untouched |
| `Montgomery.NegInverse` | crypto/rsa.c:46-48 | five Newton steps give -m^-1 mod 2^32 for every odd low word |
| `Montgomery.SquaredRadix` | crypto/rsa.c:49-62 | 64n doublings with one conditional subtraction each give R^2 mod m, at any word count |
| `Montgomery.MulAddRow` | crypto/rsa.c:71-79 | one operand row: t + a*y exactly, over n+2 words, no column overflows 64 bits |
| `Montgomery.ReduceRow` | crypto/rsa.c:80-90 | the one multiple of m that makes the sum divisible by 2^32 is added and the sum shifted down exactly |
| `Montgomery.SubtractIfAbove` | crypto/rsa.c:92 | one subtraction of m when the value with its top word reaches m, for every value below m + 2^(32n) |
| `Montgomery.Cios` | crypto/rsa.c:66-94 | for any n and odd m: r*R is congruent to a*b mod m, and r < m whenever a <= m |
| `Montgomery.Mont.constructor` | crypto/rsa.c:43-63 | mont_setup: the negated inverse and R^2 belong to the modulus |
| `Montgomery.Mont.MontMul` | crypto/rsa.c:66-94 | Cios with the stored modulus; r may be a or b |
| `Montgomery.Mont.SquareAndMultiply` | crypto/rsa.c:106-111 | skipping leading zero bits, then squaring and multiplying, leaves b^e in the Montgomery domain |
| `Montgomery.Mont.ModExp` | crypto/rsa.c:97-113 | b^e mod m for every b < 2m and every exponent length |
| `RsaArithmetic.MulFull` | crypto/rsa.c:188-199 | the double-length product is exact |
| `RsaArithmetic.ModSmallWord` | crypto/rsa.c:116-120 | the residue of a multi-word number by a 32-bit modulus |
| `RsaArithmetic.InvSmall` | crypto/rsa.c:202-211 | extended Euclid with signed cofactors returns the inverse below m for every coprime a, and no cofactor leaves its range |
| `RsaArithmetic.Scale` | crypto/rsa.c:235-242 | one word times a number, with the carry word |
| `RsaArithmetic.AddSmall` | crypto/rsa.c:243-244 | a small number added with the carry run out |
| `RsaArithmetic.DivideInPlace` | crypto/rsa.c:245-250 | schoolbook division by a word: quotient and remainder |
| `Rsa.Sieved` | crypto/rsa.c:176-178 | a candidate is passed over exactly when it is 1 mod e or has one of the listed primes as a factor |
| `Rsa.PrimeWalk` | crypto/rsa.c:169-185 | what the walk by two returns still has its top two bits and low bit set, is not 1 mod e, is no multiple of a listed prime, and passed the primality test |
| `Rsa.PrivateExponent` | crypto/rsa.c:231-252 | for phi not divisible by e the division is exact, d fits, and e*d = 1 + j*phi |
| `Rsa.RsaKey.Generate` | crypto/rsa.c:213-256 | for distinct primes with their top two bits set, neither 1 mod e, key generation always returns 0 with e = 65537, n = p*q and e*d = 1 + j*(p-1)(q-1) |
| `RsaBytes.FromBe` | crypto/rsa.c:258-263 | big-endian bytes become the number OS2IP gives (section 4.2 of RFC 8017) |
| `RsaBytes.ToBe` | crypto/rsa.c:265-270 | words become exactly I2OSP of their value (section 4.1 of RFC 8017) |
| `Rsa.Emsa` | crypto/rsa.c:276-282 | the EMSA-PKCS1-v1_5 block byte by byte: 00 01, FF up to a 00, then the algorithm and the digest, 256 in all |
| `Rsa.PadBlock` | crypto/rsa.c:276-282 | the writes piece by piece, the digest placed from the end, give that block |
| `Rsa.SignPkcs1` | crypto/rsa.c:273-289 | the signature's 256 bytes spell the padded block's number raised to d mod n |
| `Rsa.Public` | crypto/rsa.c:302-310 | the public operation's 256 bytes spell the block's number raised to 65537 mod n |
| `Rsa.SignatureOpens` | crypto/rsa.c:273-310 | round trip: for every generated key and every message that fits, the public operation on the signature gives the padded block back |
| `NumberTheory.RsaExponentLaw` | crypto/rsa.c:302-310 | x^(1 + j(p-1)(q-1)) is x mod pq for distinct primes, from Fermat and coprimality, with nothing assumed |
| `Field25519.Car` | crypto/x25519.c:16-23 | one carry pass keeps the residue and leaves the limbs the next pass needs, within 64 bits |
| `Field25519.Sel` | crypto/x25519.c:26-33 | the masked swap exchanges the two elements or leaves both, by the bit |
| `Field25519.Fmul` | crypto/x25519.c:66-75 | the 31-column product folded and carried twice is the product mod 2^255-19, limbs back in the fixed band, every intermediate a valid int64 |
| `Field25519.Inv` | crypto/x25519.c:79-87 | the chain of squarings computes the power p-2 |
| `Field25519.InvExponentIsPMinus2` | crypto/x25519.c:79-87 | 254 squarings with multiplications skipped at 2 and 4 make the exponent 2^255-21 |
| `Field25519.SubtractP` | crypto/x25519.c:41-51 | the borrow chain and conditional swap subtract p exactly when the element is at least p |
| `Field25519.Pack` | crypto/x25519.c:35-56 | canonical: the bytes spell the one residue below 2^255-19, whatever carried representation went in |
| `Field25519.Unpack` | crypto/x25519.c:58-61 | the limbs spell the bytes with the top bit cleared |
| `X25519.LoopsAgree` | crypto/x25519.c:101-125 | swapping before and after each step equals the deferred swap of section 5 of RFC 7748, for every scalar |
| `X25519.Iterate` | crypto/x25519.c:102-124 | one limb-level ladder iteration refines one field-level step, for either bit |
| `X25519.X25519` | crypto/x25519.c:89-129 | the output bytes spell the RFC 7748 ladder result for every scalar and point, which is x2 * z2^(p-2) of the ladder's pair for the clamped scalar's number |
| `X25519.ClampedNumber` | crypto/x25519.c:92-94 | clamping leaves the number k mod 2^254, less its low three bits, plus 2^254 |
| `X25519.ByNumber` | crypto/x25519.c:101-127 | walking the scalar's bits from the top gives the pair that halving the number gives: 2n doubles the pair's first and adds, 2n + 1 adds and doubles its second |
| `MontgomeryLaws.TangentLaw` | crypto/x25519.c:102-124 | a step doubles by the tangent of v^2 = u^3 + 486662u^2 + u: x2 and z2 are the slope's numerator squared less (486662 + 2u) 4v^2, and 4v^2, times z^4 |
| `MontgomeryLaws.ChordLaw` | crypto/x25519.c:102-124 | and adds by the chord, where the difference of the two points has coordinate x1: the sum's coordinate times (u - y)^2 is (v - t)^2 - (486662 + u + y)(u - y)^2 |
| `MontgomeryLaws.InfinityLaw` | crypto/x25519.c:98-124 | infinity doubles to itself, and added to the point with coordinate x1 it gives that point |
| `LadderLaws.PairFollows` | crypto/x25519.c:101-125 | along any run of points the tangent and chord laws lead through, the ladder's pair for n stands for points n and n + 1, neither at infinity (p prime) |
| `LadderLaws.ResultFollows` | crypto/x25519.c:89-129 | so the result is the coordinate of the point at the clamped scalar's number |
| `Ed25519Field.Verify32` | crypto/ed25519.c:253-257 | the borrow of the collected differences gives 0 for equal strings and -1 for others |
| `Ed25519Field.Neq25519` | crypto/ed25519.c:259-264 | 0 exactly when the residues are equal, else -1 |
| `Ed25519Field.Pow2523` | crypto/ed25519.c:271-279 | the loop computes the power (p-5)/8 |
| `Ed25519Scalar.FoldRow` | crypto/ed25519.c:171-180 | one fold takes 16*x[i]*2^(8(i-32))*L away exactly and keeps every limb in its range |
| `Ed25519Scalar.ModL` | crypto/ed25519.c:168-192 | the one representative in [0, L) of any 64 limbs in the callers' range |
| `Ed25519Scalar.Reduce` | crypto/ed25519.c:194-199 | 64 bytes reduced mod L |
| `Ed25519Scalar.SCanonical` | crypto/ed25519.c:312-320 | 1 exactly for byte strings below L |
| `Ed25519Scalar.SignScalar` | crypto/ed25519.c:242-246 | S is (r + h*a) mod 2^252 + 27742317777372353535851937790883648493, and every S written passes the canonical check |
| `P256.FeAdd` | crypto/p256.c:33-37 | the sum, less p when it reaches p; result and operands may be the same array |
| `P256.FeSub` | crypto/p256.c:38-42 | the difference, plus p when it is negative; result and operands may be the same array |
| `P256.FeMul` | crypto/p256.c:45-59 | the eight-word instance of the Montgomery product, with the constants of P-256 |
| `P256.SquaredRadixValue` | crypto/p256.c:20-21 | the constant R2 is 2^512 mod p |
| `P256.ToMont` | crypto/p256.c:62 | entering the Montgomery domain |
| `P256.FromMont` | crypto/p256.c:63 | leaving it gives the residue |
| `P256.Same` | crypto/p256.c:65 | reduced elements have equal words exactly when they stand for the same residue |
| `P256.FeInv` | crypto/p256.c:68-78 | the power p-2 |
| `NumberTheory.FermatInverse` | crypto/p256.c:68-78 | which is the inverse of every nonzero residue when p is prime |
| `P256Curve.DoublingKeeps` | crypto/p256.c:118-140 | over the integers: the doubled point's distance from the curve is 64 y^6 times the input's |
| `P256Curve.AdditionExact` | crypto/p256.c:142-169 | over the integers: the sum's distance from the curve is a combination of the two inputs' |
| `P256Curve.AdditionStays` | crypto/p256.c:142-169 | hence the sum of two points of the curve is on it |
| `P256.JacDouble` | crypto/p256.c:118-140 | the tangent formulas on limbs, infinity kept; the result may be the operand |
| `P256.JacAdd` | crypto/p256.c:142-169 | the chord formulas with all special cases decided as residues decide them; the result may be an operand |
| `P256.MultipleGood` | crypto/p256.c:172-181 | every point double-and-add reaches from a point of the curve is on the curve or at infinity |
| `P256.MultipleIsTimes` | crypto/p256.c:172-181 | the bits taken from the last byte's lowest up are the multiple by the scalar's number: 0 gives infinity, 2n doubles, 2n + 1 doubles and adds |
| `P256.ScalarMult` | crypto/p256.c:172-181 | scalar_mult computes the multiple by the number the scalar's bytes spell, most significant first |
| `P256Laws.TangentLaw` | crypto/p256.c:118-140 | in affine form doubling is the tangent's: x3 = l^2 - 2x, y3 = l(x - x3) - y with 2y l = 3x^2 - 3; infinity exactly where 2y is 0 |
| `P256Laws.ChordLaw` | crypto/p256.c:142-169 | and adding the chord's: x3 = l^2 - x - u, y3 = l(x - x3) - y with (u - x) l = v - y |
| `P256Laws.AddCases` | crypto/p256.c:142-155 | infinity is neutral, a point and itself are doubled, a point and its opposite give infinity |
| `P256Laws.TimesLaws` | crypto/p256.c:172-181 | the laws of the multiple by a number, 1 giving the point itself |
| `P256Laws.AffineLaw` | crypto/p256.c:184-195 | the affine coordinates times z^2 and z^3 are the Jacobian ones, for a prime p |
| `P256.TakeAffine` | crypto/p256.c:198-207 | on_curve accepts exactly the affine points with y^2 = x^3 - 3x + b |
| `P256.JacAffine` | crypto/p256.c:184-195 | x z^-2 and y z^-3, reduced, as big-endian bytes |
| `P256.AffineOnCurve` | crypto/p256.c:184-195 | with p prime the affine form of a point of the curve satisfies the affine equation |
| `P256.Ecdh` | crypto/p256.c:219-235 | 0 exactly when the peer's encoding is a reduced point of the curve and its multiple by the key's number is not at infinity; then the affine x of that multiple, which with p prime belongs to a point of the curve |
| `P256.BaseOnCurve` | crypto/p256.c:100-114 | the base point is reduced and on the curve |
| `P256.Init` | crypto/p256.c:100-114 | the tables give the base point and the constant in the Montgomery domain |
| `P256.Public` | crypto/p256.c:211-217 | the uncompressed affine form of the base point's multiple by the key's number, on the curve for p prime |
| `P256.KeyOne` | crypto/p256.c:211-217 | the key 1 gives the base point of section 3.2.1.3 of NIST SP 800-186 |
| `P256.SharedOnCurve` | crypto/p256.c:228-233 | for every scalar the shared point in affine form is on the curve the peer's point is on |
| `AesBox.InvSboxUndoes` | crypto/wifi_crypto.c:116-133 | INV_SBOX undoes SBOX on all 256 bytes |
| `AesBox.SboxUndoes` | crypto/wifi_crypto.c:116-133 | and SBOX undoes INV_SBOX |
| `AesInverse.SboxIs` | crypto/aead.c:29-46 | for all 256 bytes SBOX is the affine image of section 5.1.1 of FIPS 197, bit by bit, of the inverse in the field, or of 0 |
| `AesInverse.XtBits` | crypto/aead.c:53 | xtime bit by bit: up by one, the bit that falls off back in at 0, 1, 3 and 4 |
| `AesInverse.ProductByBits` | crypto/wifi_crypto.c:111-115 | the product by 0, by 2b and by 2b + 1 |
| `AesField.XtLinear` | crypto/aead.c:53 | xtime is additive |
| `AesField.Mul` | crypto/wifi_crypto.c:111-115 | the eight-step loop is the field product |
| `AesField.InvMixUndoes` | crypto/wifi_crypto.c:142-149 | the inverse mix undoes MixColumns on every column |
| `AesField.MixUndoes` | crypto/wifi_crypto.c:142-149 | and MixColumns undoes it |
| `Aes.BuildTables` | crypto/aead.c:56-66 | each T-table entry is one substituted byte's share of a mixed column |
| `Aes.Expand` | crypto/aead.c:68-82 | the key schedule of section 5.2 of FIPS 197, its round constants being the powers of x |
| `Aes.Encrypt` | crypto/aead.c:84-105 | the T-table rounds are the cipher of section 5.1 of FIPS 197 |
| `AesLaws.MixRows` | crypto/aead.c:90-93 | MixColumns is the matrix of section 5.1.3 of FIPS 197: twice a byte, three times the next, and the other two |
| `AesLaws.RoundByte` | crypto/aead.c:88-95 | which four bytes of a state and which key byte make a byte of the next |
| `AesLaws.LastByte` | crypto/aead.c:96-103 | which byte of the state and which key byte make a byte of the result |
| `AesLaws.RoundsAre` | crypto/aead.c:84-105 | nine such rounds and the last |
| `AesLaws.KeyByte` | crypto/wifi_crypto.c:134-136 | byte i of key word c, the most significant first, goes to byte 4c + i of the state |
| `AesLaws.ScheduleStart` | crypto/aead.c:71 | the first four words of the schedule are the key's |
| `AesLaws.ScheduleWord` | crypto/aead.c:72-81 | each later word is the one four before with the last one, every fourth time turned by a byte, substituted and with its round constant |
| `Aes.Decrypt` | crypto/wifi_crypto.c:137-152 | the byte-wise loops are the inverse cipher |
| `Aes.DecipherUndoes` | crypto/wifi_crypto.c:137-152 | decryption undoes encryption for every key schedule and block |
| `Aes.CipherUndoes` | crypto/wifi_crypto.c:137-152 | and encryption undoes decryption |
| `KeyWrap.StepsUndone` | crypto/wifi_crypto.c:158-164 | any number of unwrap steps undoes as many wrap steps of section 2.2.1 of RFC 3394 |
| `KeyWrap.KeyUnwrap` | crypto/wifi_crypto.c:153-169 | the blocks when the integrity value is right; -1 and a wiped output exactly when it is wrong; -1 and an untouched output for a length not taken |
| `KeyWrap.AcceptsExactlyWraps` | crypto/wifi_crypto.c:153-169 | unwrap accepts an input with payload P exactly when the input is the wrap of P |
| `ModeLaws.WrapStepIs` | crypto/wifi_crypto.c:158-164 | step t = nj + r + 1 of the wrap the unwrap undoes, on register r: what becomes of A and of every register byte |
| `ModeLaws.WrapIs` | crypto/wifi_crypto.c:157-165 | six rounds from A = a6a6a6a6a6a6a6a6 |
| `Ghash.SerialNibble` | crypto/aead.c:143-160 | four bits of the serial product are one table entry and one shift by four |
| `Ghash.FallenFour` | crypto/aead.c:111-114 | LAST4 holds what four bits falling off add back, for all sixteen |
| `Ghash.BuildTable` | crypto/aead.c:120-139 | every 4-bit index holds its multiple of H |
| `Ghash.MultiplyByH` | crypto/aead.c:143-166 | the table multiply is the bit-serial product of section 6.3 of NIST SP 800-38D, for every H and block |
| `Ghash.GhashUpdate` | crypto/aead.c:168-176 | GHASH continued over data of any length |
| `Ghash.FoldPadded` | crypto/aead.c:168-176 | a short last block counts as its zero padding |
| `Ghash.FoldSplit` | crypto/aead.c:168-176 | whole blocks and what follows hash one after the other |
| `MacLaws.ProductRuns` | crypto/aead.c:143-166 | the product is what the 128 steps of section 6.3 of NIST SP 800-38D end in, with R = 11100001 and 120 zeros |
| `MacLaws.FoldTakes` | crypto/aead.c:168-176 | GHASH takes a block in by adding it and multiplying by H |
| `Gcm.Init` | crypto/aead.c:116-140 | the context holds the key schedule and the table of the encrypted zero block |
| `Gcm.Ctr` | crypto/aead.c:178-190 | the keystream from counter 2, the counter never wrapping |
| `Gcm.CountersDiffer` | crypto/aead.c:178-190 | within a message no counter block repeats and none is the one that masks the tag |
| `Gcm.Tag` | crypto/aead.c:192-207 | the tag of section 7.1 over the padded data and the length block |
| `Gcm.LengthsStandard` | crypto/aead.c:197-199 | the length block is the standard's exactly when both lengths are below 2^29 bytes |
| `Gcm.Seal` | crypto/aead.c:209-213 | ciphertext and its tag |
| `Gcm.Open` | crypto/aead.c:215-222 | 0 and the plaintext exactly for the right tag; otherwise -1 and the buffer untouched |
| `Gcm.SealThenOpen` | crypto/aead.c:209-222 | open after seal returns 0 and the plaintext |
| `ModeLaws.GcmStream` | crypto/aead.c:178-190 | block j of the keystream is the cipher of the nonce and the 32-bit number j + 2 |
| `ModeLaws.GcmTag` | crypto/aead.c:192-207 | the tag is GHASH, under the cipher of zeros, of the padded data, the padded ciphertext and the lengths, added to the cipher of the nonce and 1 |
| `ModeLaws.Filled` | crypto/aead.c:168-176 | the padding is the fewest zeros up to a whole number of blocks |
| `Streams.CtMemcmp` | crypto/aead.c:6-12 | 0 exactly for equal contents |
| `Poly1305.ClampIsMask` | crypto/aead.c:232-241 | the five masks are the clamp of section 2.5.1 of RFC 8439 |
| `Poly1305.CarryColumns` | crypto/aead.c:255-270 | the carried columns keep the product mod 2^130-5 and leave an accumulator, no intermediate overflowing |
| `Poly1305.ReadBlock` | crypto/aead.c:249-253 | the masked and or-ed words are the block's five limbs, which spell it with its high bit |
| `Poly1305.Poly.PolyBlock` | crypto/aead.c:244-271 | h becomes (h + block) * r mod 2^130-5 |
| `Poly1305.Poly.Update` | crypto/aead.c:276-297 | for every split the state stands for everything fed so far |
| `Poly1305.Poly.Finish` | crypto/aead.c:299-346 | the tag of section 2.5 of RFC 8439 for everything fed |
| `Poly1305.Reduce` | crypto/aead.c:316-330 | the masked selection is the residue below 2^130-5 |
| `Poly1305.Mac` | crypto/aead.c:348-353 | one-shot form |
| `MacLaws.AccTakes` | crypto/aead.c:244-271 | a block adds its little-endian number and 2^128, times r, modulo 2^130 - 5 |
| `MacLaws.AccEnds` | crypto/aead.c:299-306 | a short last block has its one bit just above it |
| `MacLaws.TagFrom` | crypto/aead.c:232-346 | from zero, under the first half of the key and the mask 0ffffffc0ffffffc0ffffffc0fffffff, with the second half added modulo 2^128 |
| `ChaCha.Block` | crypto/chacha20.c:15-42 | the block function of section 2.3 of RFC 8439 |
| `ChaChaLaws.QuarterIs` | crypto/chacha20.c:5-9 | the quarter round's four sums and its four exclusive ors turned left by 16, 12, 8 and 7 |
| `ChaChaLaws.RoundsByLines` | crypto/chacha20.c:25-34 | two rounds are the columns' quarter rounds on the state and the diagonals' on what that gave, in any order |
| `ChaChaLaws.RoundsRepeat` | crypto/chacha20.c:25-34 | the double round repeated |
| `ChaChaLaws.BlockIs` | crypto/chacha20.c:15-42 | ten double rounds, the first state added, each word's bytes least significant first |
| `ChaChaLaws.ConstantIs` | crypto/chacha20.c:18 | the first four words spell "expand 32-byte k" |
| `ChaChaLaws.InitialIs` | crypto/chacha20.c:19-23 | the others hold the key, the counter and the nonce |
| `ChaChaLaws.KeystreamIs` | crypto/chacha20.c:44-54 | byte 64j + k of the keystream is byte k of the block for the j-th counter on |
| `ChaCha.XorStream` | crypto/chacha20.c:44-54 | the keystream from a counter, added in place to a buffer of any length |
| `ChaCha.CountersDiffer` | crypto/chacha20.c:44-54 | below 2^32 bytes block counters never meet each other or the counter of the tag key |
| `ChaCha.Tag` | crypto/aead.c:357-374 | Poly1305 under block 0's key over the padded parts and their lengths (section 2.8 of RFC 8439) |
| `ChaCha.Seal` | crypto/aead.c:376-381 | ciphertext and its tag |
| `ChaCha.Open` | crypto/aead.c:383-391 | 0 and the plaintext exactly for the right tag; otherwise -1 and the buffer untouched |
| `ChaCha.SealThenOpen` | crypto/aead.c:376-391 | open after seal returns 0 and the plaintext |
| `ModeLaws.ChaChaTag` | crypto/aead.c:357-374 | the tag is Poly1305's, under the first half of block 0, over the padded data, the padded ciphertext and two 64-bit little-endian lengths |
| `Ccmp.Prepare` | crypto/wifi_crypto.c:170-182 | which headers and packet numbers are taken, and the nonce and authenticated header they give |
| `Ccmp.NoncesDiffer` | crypto/wifi_crypto.c:170-182 | different packet numbers give different nonces |
| `Ccmp.Mac` | crypto/wifi_crypto.c:183-196 | CBC-MAC over the first block, the header and the payload (section 2.2 of RFC 3610) |
| `Ccmp.Ctr` | crypto/wifi_crypto.c:197-209 | the keystream from counter 1 and the mask for counter 0 |
| `Ccmp.CountersDiffer` | crypto/wifi_crypto.c:197-209 | counter blocks differ from each other, from the mask's and from the CBC-MAC's first block |
| `Ccmp.Seal` | crypto/wifi_crypto.c:210-219 | sealed exactly when the header is taken and the payload is at most 2304 bytes |
| `Ccmp.Open` | crypto/wifi_crypto.c:220-231 | 0 and the payload exactly for the right integrity value; otherwise -1 and the payload wiped |
| `Ccmp.SealThenOpen` | crypto/wifi_crypto.c:210-231 | open after seal returns 0 and the payload, on every header taken |
| `ModeLaws.TakenIs` | crypto/wifi_crypto.c:171-173 | which headers are taken, by the fields of the frame control bytes |
| `ModeLaws.NonceIs` | crypto/wifi_crypto.c:174-176 | the nonce: priority, transmitter address, packet number |
| `ModeLaws.AadIs` | crypto/wifi_crypto.c:177-180 | the header as authenticated, byte by byte |
| `ModeLaws.BlocksAre` | crypto/wifi_crypto.c:189-198 | the first block of the CBC-MAC and the counter blocks, field by field |
| `ModeLaws.CbcTakes` | crypto/wifi_crypto.c:183-194 | CBC-MAC takes a block in by adding it and encrypting |
| `ModeLaws.CcmpStream` | crypto/wifi_crypto.c:197-207 | block j of the keystream is the cipher of the counter block for j + 1 |
| `ModeLaws.MicIs` | crypto/wifi_crypto.c:214-216 | the integrity value is the first half of the CBC-MAC added to the cipher of the counter block for 0 |
| `Sha256.Ror` | crypto/sha256.c:18 | the shifts and the or are the rotation |
| `Sha256.CompressBlock` | crypto/sha256.c:20-39 | the compression function of section 6.2.2 of FIPS 180-4 |
| `Sha256Laws.ChooseBit` | crypto/sha256.c:32 | bit i of Ch is f's where e has a one and g's where it has a zero |
| `Sha256Laws.MajorityBit` | crypto/sha256.c:33 | bit i of Maj is the majority of the three |
| `Sha256Laws.BigSigma0Bit` | crypto/sha256.c:33 | bit i is the sum of bits i + 2, i + 13 and i + 22 modulo 32 |
| `Sha256Laws.BigSigma1Bit` | crypto/sha256.c:32 | bit i is the sum of bits i + 6, i + 11 and i + 25 modulo 32 |
| `Sha256Laws.Sigma0Bit` | crypto/sha256.c:26 | bit i is the sum of bits i + 7 and i + 18 modulo 32, and of bit i + 3 where there is one |
| `Sha256Laws.Sigma1Bit` | crypto/sha256.c:27 | bit i is the sum of bits i + 17 and i + 19 modulo 32, and of bit i + 10 where there is one |
| `Sha256Laws.ConstantIsCubeRoot` | crypto/sha256.c:7-16 | K[i] is the first 32 bits of the fractional part of the cube root of the i-th prime |
| `Sha256Laws.InitialIsSquareRoot` | crypto/sha256.c:42-45 | the initial value is the same of the square roots of the first eight |
| `Sha256Laws.ScheduleStarts` | crypto/sha256.c:22-24 | the first sixteen schedule words are the block's, most significant byte first |
| `Sha256Laws.ScheduleGoesOn` | crypto/sha256.c:25-29 | the others are the sum of four modulo 2^32 |
| `Sha256Laws.RoundIs` | crypto/sha256.c:31-36 | a round moves six words on by one; the other two are sums of five and seven terms and d modulo 2^32 |
| `Sha256Laws.CompressIs` | crypto/sha256.c:30-38 | 64 rounds from the chaining value, added to it word by word |
| `Sha256.Context.Update` | crypto/sha256.c:51-74 | for every split the context stands for everything fed so far |
| `Sha256.Context.Final` | crypto/sha256.c:76-91 | the digest is the chain over the message padded as in section 5.1.1 of FIPS 180-4 |
| `Sha256Laws.PaddedIs` | crypto/sha256.c:76-84 | the padded message position by position, the zeros the fewest that fill a block |
| `Sha256Laws.ChainIs` | crypto/sha256.c:61-69 | blocks are compressed one after the other |
| `Sha256Laws.DigestIs` | crypto/sha256.c:85-90 | the digest's bytes are the last chaining value's, most significant first |
| `Sha256.Sha256Of` | crypto/sha256.c:93-98 | one-shot form |
| `Hmac.HmacContext.constructor` | crypto/sha256.c:102-115 | both hashes keyed with the masked block key |
| `Hmac.HmacContext.Final` | crypto/sha256.c:121-126 | HMAC of everything fed (section 2 of RFC 2104) |
| `Hmac.HmacSha256` | crypto/sha256.c:128-134 | one-shot form |
| `MacLaws.HmacPads` | crypto/sha256.c:102-126 | the key filled up with zeros, or its digest when it is longer than a block, under the pads 0x36 and 0x5c |
| `Hmac.HkdfExpand` | crypto/sha256.c:149-167 | the first bytes of T(1) T(2) ... (section 2.3 of RFC 5869) |
| `MacLaws.OutputsJoin` | crypto/sha256.c:149-167 | T(n) is HMAC of T(n - 1), the information and the byte n, joined in order |
| `Hmac.Pbkdf2` | crypto/sha256.c:172-189 | copying the keyed state every iteration gives what fresh HMACs give: the first block of section 5.2 of RFC 8018 |
| `MacLaws.IterationsAdd` | crypto/sha256.c:172-189 | U_1 is HMAC of the salt and 1, U_n of U_(n-1), and the sum is byte by byte |
| `Processes.GroupSet` | kernel/app.c:3713-3728 | moving into one's own group or one of the session keeps every group in one session |
| `Processes.SessionSet` | kernel/app.c:3730-3738 | so does starting a session |
| `Processes.ChildMade` | kernel/app.c:3482-3496 | so does a fork, and the parent named is alive |
| `Processes.ProcessEnds` | kernel/app.c:3366-3379 | so does an exit, once the children are nobody's |
| `Processes.StatusKept` | kernel/app.c:3363-3377 | a status kept for a parent is accounted for |
| `Processes.StatusLeaves` | kernel/app.c:3687-3694 | and leaves its slot by exactly one wait or by being dropped |
| `Terminals.CttySetRebalances` | kernel/app.c:3775-3781 | taking one hold and letting one go leaves every terminal's count equal to its processes, freeing what nobody needs |
| `Terminals.TakeNamed` | kernel/app.c:3918-3922 | a leader taking a free terminal keeps every controlled process in the session its terminal names |
| `Terminals.ClearedNamed` | kernel/app.c:3352-3360 | so does a session losing its terminal |
| `Descriptors.Entered` | kernel/app.c:728-747 | changing one table entry keeps every description's count equal to the places that refer to it |
| `Descriptors.HungUp` | kernel/app.c:3786-3805 | a hangup leaves counts and names in order |
| `SystemCalls.Kernel.constructor` | kernel/app.c:192 | the empty table satisfies every law |
| `SystemCalls.Kernel.CttySet` | kernel/app.c:3775-3781 | one process's terminal changes; counts follow; unneeded terminals go |
| `SystemCalls.Kernel.Dispatch` | kernel/app.c:3786-3805 | after a hangup nobody is controlled by the terminal |
| `SystemCalls.Kernel.Put` | kernel/kfile.c:78-108 | one reference fewer; the last one frees, and the last master hangs its terminal up; every law kept |
| `SystemCalls.Kernel.FdInstall` | kernel/app.c:728-737 | the lowest free descriptor from min on, or EMFILE with the reference let go and the table unchanged |
| `SystemCalls.Kernel.FdClose` | kernel/app.c:740-747 | the entry goes and its reference with it, or EBADF and nothing changes |
| `SystemCalls.Kernel.Dup` | kernel/app.c:970-983 | dup and dup2: exactly one entry changes, to the same description; errors leave the table alone |
| `SystemCalls.Kernel.Pipe` | kernel/app.c:951-966 | the two lowest free descriptors, or none: on EMFILE tables and descriptions are as before, and fewer than two were free |
| `SystemCalls.Kernel.PtsOpen` | kernel/app.c:3913-3924 | a slave descriptor, and the terminal for a leader that has none |
| `SystemCalls.Kernel.OpenMaster` | kernel/app.c:3940-3947 | a terminal with its master descriptor, or nothing |
| `SystemCalls.Kernel.Hold` | kernel/app.c:699-704 | a reference taken, and noted while the task's list has room |
| `SystemCalls.Kernel.Unhold` | kernel/app.c:706-717 | the reference leaves the list if it is there, and is let go |
| `SystemCalls.Kernel.HeldDrop` | kernel/app.c:719-723 | an abandoned call lets go of all it had noted |
| `SystemCalls.Kernel.AbandonedCall` | kernel/app.c:699-723 | it leaks exactly what it held beyond the fourth reference, so nothing if and only if it held at most four |
| `SystemCalls.Kernel.ForkBegin` | kernel/app.c:3426-3441 | a free slot only, under a new number; EAGAIN exactly when there is none |
| `SystemCalls.Kernel.ForkAbort` | kernel/app.c:3468-3476 | the slot is free again |
| `SystemCalls.Kernel.ForkFinish` | kernel/app.c:3477-3496 | the child has its parent's group, session, terminal and descriptors |
| `SystemCalls.Kernel.Exec` | kernel/app.c:3646 | exactly the descriptors marked close-on-exec are closed |
| `SystemCalls.Kernel.FinishBegin` | kernel/app.c:3349-3371 | the terminal left, the children nobody's or dropped, the parent's slot found exactly when a live parent does not ignore the end |
| `SystemCalls.Kernel.FinishEnd` | kernel/app.c:3372-3379 | on any later state: what becomes of the slot, and that the laws survive if and only if no child came meanwhile and a process that is kept still has a parent |
| `SystemCalls.Kernel.Finish` | kernel/app.c:3349-3380 | kept as a zombie exactly when a live parent does not ignore it; children orphaned or dropped; no descriptor left; after a leader no process of its session has a terminal |
| `SystemCalls.Kernel.StatusDecoded` | kernel/app.c:3363 | what a parent decodes: the low seven bits are the signal; after an exit, and for a signal below 128 only then, they are zero and the second byte is the code |
| `KernelLaws.Awaiting` | kernel/app.c:3366-3374 | when a status is kept, by the fields of the parent's slot |
| `KernelLaws.Orphans` | kernel/app.c:3367-3372 | what an exit does to a child that lives, to one that has ended, and to nobody else |
| `SystemCalls.Kernel.Wait` | kernel/app.c:3665-3703 | ECHILD exactly with no child selected; a status only for an ended one, the one kept for it and never returned before |
| `KernelLaws.Selected` | kernel/app.c:3673-3675 | which children the first argument selects: any, one by number, a group's, the caller's group's |
| `SystemCalls.Kernel.Setpgid` | kernel/app.c:3713-3728 | one process of the caller's session changes group, or nothing changes |
| `SystemCalls.Kernel.Setsid` | kernel/app.c:3730-3738 | refused exactly when a live group has the caller's number |
| `SystemCalls.Kernel.SigAction` | kernel/app.c:2148-2156 | which signals and dispositions are refused; a parent's ignoring SIGCHLD changes and no law breaks |
| `SystemCalls.Kernel.Tiocsctty` | kernel/app.c:4073-4080 | when it succeeds and what it changes; the laws are kept if and only if it is not a forced call of a leader without a terminal on one that names a session |
| `SystemCalls.Kernel.Tiocnotty` | kernel/app.c:4081-4093 | a process gives its terminal up, a leader for its whole session |
| `SystemCalls.Kernel.Tiocspgrp` | kernel/app.c:4099-4111 | only a live group of the terminal's session becomes the foreground |
| `SystemCalls.Kernel.SpawnBegin` | kernel/app.c:4854-4862 | the lowest free slot is cleared and numbered and stays free for others; -1 exactly when there is none |
| `SystemCalls.Kernel.SpawnFinish` | kernel/app.c:4868-4915 | a process begins in a slot nobody had, under a number no process had, with nothing lost and all laws kept, if and only if the slot is free and still as a start cleared it |
| `SystemCalls.Kernel.SpawnFail` | kernel/app.c:4870-4874 | descriptors are as before exactly when the slot had none; else what is lost |
| `SystemCalls.Kernel.Spawn` | kernel/app.c:4948-4960 | a process of its own group and session with one console description at three descriptors |
| `SystemCalls.Kernel.SpawnTtyFinish` | kernel/app.c:5042-5057 | on any state where the start resumes: a leader begins on the terminal with all laws kept if and only if its slot is still as a start cleared it and the terminal then names no session |
| `SystemCalls.Kernel.SpawnTty` | kernel/app.c:5035-5058 | with nothing in between, the laws are kept if and only if the terminal names no session |
| `SystemCalls.Kernel.CloseConsole` | kernel/app.c:5074-5076 | the kernel's last master hangs the terminal up |
| `Runs.Step` | kernel/app.c:3282-3740 | one step of any kind keeps every law |
| `Runs.Run` | kernel/app.c:3282-4115 | after every run from boot all laws hold, no reference is in flight and no number was returned by two waits |
| `Runs.ForcedFromBoot` | kernel/app.c:4073-4080 | from boot to a forced TIOCSCTTY that leaves a process controlled by a terminal naming another session |
| `Runs.StartedTwice` | kernel/app.c:5035-5058 | from boot to the same by two programs started on one terminal |
| `Runs.SlotGivenTwice` | kernel/app.c:4854-4913 | from boot to a slot given to two programs, one of them nowhere and three references lost |
| `Runs.TakenMeanwhile` | kernel/app.c:5035-5058 | from boot to the same although the terminal was free when the start on it began and the slot stayed its own |
| `Runs.SecondStartFails` | kernel/app.c:4854-4913 | from boot: two starts clear one slot, the second fails, the first is right |
| `Runs.KeptForNobody` | kernel/app.c:3365-3377 | from boot to an ended process that is kept and has no parent |
| `Runs.DescriptorsConserved` | kernel/app.c:691-757 | a description's count is its table entries and held references; none that nobody refers to is left |
| `Runs.TerminalsHeld` | kernel/app.c:3775-3805 | a controlled process is in the session its terminal names, whose leader is alive and controlled by it; holds count such processes |
| `Runs.StatusInOnePlace` | kernel/app.c:3363-3380 | a status ever kept was returned by a wait, dropped with its parent, or still waits, and only one of these |
| `KernelLaws.ProcessesKnown` | kernel/app.c:3282-3740 | the numbering and parent laws that all runs keep, by the fields of the slots |
| `KernelLaws.GroupsKnown` | kernel/app.c:3713-3738 | the group and session laws, likewise |
| `KernelLaws.ControlKnown` | kernel/app.c:3775-3805 | a controlled process is alive, in the session its terminal names, whose leader it controls as well |
| `KernelLaws.EndsCounted` | kernel/kfile.c:78-108 | a terminal's masters, slaves and holds are the numbers of its open descriptions and processes; it is hung up exactly without a master |
| `KernelLaws.DescriptorsKnown` | kernel/app.c:728-747 | only live processes have descriptors, and each names an open description |
| `CommandRing.Job.StoreByte` | kernel/app.c:2199-2209 | a byte is stored only outside the contents |
| `CommandRing.Job.PublishByte` | kernel/app.c:2199-2209 | moving the index on adds that byte to what was put |
| `CommandRing.Job.ConsumeByte` | kernel/app.c:2245-2251 | the first byte put and not yet moved is moved |
| `CommandRing.Job.WriteSome` | kernel/app.c:2252-2258 | a partial, refused or failed write: what is delivered stays a prefix |
| `CommandRing.Run` | kernel/app.c:2183-2265 | under every interleaving what was put is what was moved followed by the contents |
| `CommandRing.Job.Out` | kernel/app.c:2245-2259 | a chunk of at most 512 bytes moved and written out on any answers of `fd_write`; when it says there was nothing, everything put was moved |
| `CommandRing.Job.Drain` | kernel/app.c:2263-2265 | ends with everything put delivered in order, or cancelled by a failed write with a prefix delivered; it still waits only if `fd_write` took bytes fewer times than bytes were left |
| `CommandRing.Command` | kernel/app.c:2322-2330 | a whole job under any interleaving: without a cancelling step or a failed write, and with enough writes that take bytes, all that was put has arrived |
| `CommandRing.DeliveredInOrder` | kernel/app.c:2245-2259 | what was delivered is always a prefix of what was put |
| `Elf.Layout` | kernel/app.c:4370-4420 | accepts exactly the files that meet every header, segment, entry and dynamic-table condition; the span is the page below the lowest address to the highest |
| `ElfLaws.HeaderIs` | kernel/app.c:4371-4379 | the file header taken, byte by byte |
| `ElfLaws.HeaderFields` | kernel/app.c:4383-4384 | a program header's fields by their offsets |
| `ElfLaws.SpanIs` | kernel/app.c:4380-4395 | the span's ends are the lowest address and the highest end of the segments that take room |
| `ElfLaws.LoadableIs` | kernel/app.c:4382-4417 | what is accepted, in those fields: both directions |
| `Elf.Span` | kernel/app.c:4786-4790 | sizing uses the same layout as loading |
| `Elf.SegmentFits` | kernel/app.c:4382-4400 | every segment copied lies in the file and in the image |
| `Elf.DynamicFits` | kernel/app.c:4401-4417 | the dynamic table lies in the image |
| `Elf.NameFrom` | kernel/app.c:4428-4442 | a symbol's name never runs past the image |
| `Elf.RelocateInPlace` | kernel/app.c:4515-4545 | one relocation on the image, also when it overwrites the table being walked |
| `Elf.WalkTable` | kernel/app.c:4512-4546 | a whole table, each entry on what the one before left |
| `ElfLaws.EntryDone` | kernel/app.c:4515-4545 | what each kind of relocation puts at its place; a distance does not depend on the run address |
| `ElfLaws.LeFields` | kernel/app.c:4516-4517 | fields are read as the little-endian numbers of their bytes |
| `Elf.LoadElf` | kernel/app.c:4444-4600 | 0 exactly when the image can be made, and the image then depends on the file and the run address only |
| `ElfTags.TagsMean` | kernel/app.c:4480-4501 | each of the eleven fields is the value of the last entry with its tag before the first with tag 0, and 0 without one; no result exactly when no entry has tag 0 |
| `ElfTags.TableFromTags` | kernel/app.c:4488-4489 | for whole files: the first table's place and length are where the last entries with tags 7 and 8 say |
| `ElfTags.RelativeEntry` | kernel/app.c:4512-4546 | and an entry of kind 8 in it that has the last word leaves the run address plus its addend modulo 2^64 in the loaded image |
| `Elf.ScratchAndInPlace` | kernel/app.c:4797-4805 | an image built in scratch memory for an address is the one that would be built there |
| `ElfImage.SegmentByte` | kernel/app.c:4464-4474 | a byte before relocation is the one the last segment that holds it gives, or zero |
| `ElfImage.ImageIsSegments` | kernel/app.c:4464-4546 | outside the bytes its relocations write an image is its segments, also when tables overwrite themselves |
| `ElfImage.RelocatedAgrees` | kernel/app.c:4502-4546 | where no entry writes into a table or symbol, acceptance does not depend on the run address, and only bytes the file's entries name change |
| `ElfImage.RunAddressOnly` | kernel/app.c:4466-4546 | then images for two run addresses are accepted alike and differ only in those bytes |
| `ElfValues.EntryStands` | kernel/app.c:4512-4546 | then the value of every entry no later entry writes over stands at its place in the image, computed from the file and the run address |
| `ElfValues.RunAddressMoves` | kernel/app.c:4512-4546 | and there two images differ by the difference of their run addresses modulo 2^64, or, for a distance, not at all |

## Left out

- Runs.Run: forced TIOCSCTTY is not among the steps; a start ends only in a slot that is free and as a start cleared it, a start on a terminal only while that names no session, and a process only where no child came while its threads stopped and it is not kept for nobody. What those do otherwise is stated by Tiocsctty, SpawnFinish, SpawnTtyFinish and FinishEnd.
- Runs.Step: the same steps as Run, each made only where its caller exists and the kernel gets that far.
- Rsa.RsaKey.Generate: takes the two primes as arguments; random numbers and Miller-Rabin are not modelled, only what the candidate walk guarantees.
- Rsa.PrimeWalk: the primality test is a parameter, and giving up after the walk stands for drawing a new candidate.
- CommandRing.Command: the keys the command reads, and the program being killed other than as a cancelling step, are left out.
- SystemCalls.Kernel.Wait: one pass over the table; sleeping between passes, EINTR and the stop and continue reports are left out.
- SystemCalls.Kernel.Finish: the end nothing comes between, FinishBegin and FinishEnd being its parts; the signals sent and the list of last exit codes are left out.
- SystemCalls.Kernel.FinishEnd: a thread that takes a terminal for its ending process while being stopped is left out.
- SystemCalls.Kernel.ForkBegin: process numbers do not wrap at 2^31.
- SystemCalls.Kernel.Spawn: the start nothing comes between; SpawnBegin and SpawnFinish are the two halves.
- SystemCalls.Kernel.SpawnFinish: the program's memory and its loading are not part of the state, and all that follows the reading of the file is one step.
- SystemCalls.Kernel.SpawnTty: the failures for lack of memory or tasks after prepare, which give the slot back, are left out, as they are in SpawnTtyFinish; the kernel is taken to keep its master of the terminal meanwhile.
- SystemCalls.Kernel.SigAction: only the disposition of SIGCHLD is kept, the one the process table depends on.
- SystemCalls.Kernel.Dispatch: the signals a hangup sends are left out.
- SystemCalls.Kernel.Exec: loading the new program is left out.
- SystemCalls.Kernel.Hold: a descriptor whose file was deleted is not treated as closed.
- SystemCalls.Kernel.Tiocspgrp: the background check's answer is a parameter, since signal dispositions are left out.
- SystemCalls.Kernel.Dup: a descriptor whose file was deleted is not treated as closed.
- Hmac.HkdfExpand: beyond 255 outputs the counter byte wraps as in the code; the standard stops there.
- P256.AffineOnCurve: primality of the P-256 modulus is a hypothesis, as it is in P256Laws.AffineLaw.
- LadderLaws.ResultFollows: primality of 2^255 - 19 is a hypothesis, and a run of points that meets infinity on the way is not followed.
- P256.Ecdh: the curve constant b is a parameter held in the Montgomery domain; Init gives the one the code uses.
- P256.Public: for a scalar whose multiple is the point at infinity only the length and the first byte are stated.
- Elf.ScratchAndInPlace: the copy to the run address is in whole pages, and what follows the image in its last page is left out.
- Elf.LoadElf: the 64-bit form only; the allocator's failure and the error texts are left out.
- Static work buffers, lazily built tables and the wiping of secrets are locals, arguments or left out; constant time is not expressible here.
- Group laws: associativity, Diffie-Hellman agreement, Ed25519 point arithmetic and verification accepting signatures.
- Signals, job-control stops, threads, windows, sound, page faults, swap, register frames and scheduling in `kernel/app.c`.
- `crypto/sha512.c`, `crypto/md5.c`, the SHA-1, PMK and PTK derivation in `crypto/wifi_crypto.c`, `hkdf_extract`, and the Android key form in `crypto/rsa.c`: they repeat arguments made here.
- Device drivers, file systems, networking and the graphical parts of the repository.
