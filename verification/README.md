# btools key derivation core, modelled in Dafny

This project models the key-derivation core of the btools Bitcoin toolkit.
It covers four parts:

- secp256k1 point arithmetic (`secp256k1.go`): addition with (0, 0) standing for the point at infinity, the byte-wise double-and-add scalar multiplication, the 33-byte compressed point encoding, public keys, identifiers and fingerprints.
- BIP-32 derivation (`bip32.go`): the master key, the private and public child key derivations, and extended-key serialization.
- Base58Check (`encoding.go`).
- Two entropy helpers (`entropy.go`): dice rolls to digits, and a base-b number to a fixed number of bytes.

Files:

- `results.dfy`: `Option` and `Result`. `Result` stands for Go's `(value, error)` pairs.
- `mod_arith.dfy`: Euclidean remainder lemmas, the extended Euclidean algorithm, and `big.Int.ModInverse` with its rule that a non-invertible operand is left unchanged.
- `big_endian.dfy`: `SetBytes`, `Bytes` and `AppendUint32` as big-endian conversions.
- `crypto.dfy`: SHA-256, RIPEMD-160 and HMAC-SHA512 as a parameter holding three functions with the right output lengths.
- `secp256k1.dfy`, `bip32.dfy`, `base58.dfy`, `entropy.dfy`: the four source files.

The source's loops and buffers are modelled as methods. Each of the first four items is proved against a reference function:

- `Mul` and `MulByte` (the nested bit loop) against `ScalarMul`.
- `Compress` (the 33-byte buffer) against `Compressed`.
- `Base58Check` (the divide-by-58 loop) and `ReverseInPlace` (the swap loop on an array) against `Encode` and `Reverse`.
- `SerializeKey` (appends to a byte slice) against `Payload`.
- `DiceToBase` (a validating loop with early exit), specified face by face.

Straight-line code with early error returns is modelled as functions returning `Result`.

Three defects in `secp256k1.go` are listed under Findings. For each one, the code as written is modelled and the defect exhibited. The repaired versions (`AddCorrected`, `CompressedPadded`) are what scalar multiplication, public keys, fingerprints and the BIP-32 functions are built on.

## Where the code departs from BIP-32 and Base58Check conventions

The model follows the code in each case below. The first four bullets are departures from BIP-32 or the Base58Check convention. The last two describe how the code's own declarations and library calls behave.

- Base58Check convention writes each leading zero byte as a `'1'` character; this code does not. `Base58CheckDecodes` proves the output never starts with `'1'`.
- BIP-32 limits the depth to 255 levels. `CKDpriv` and `CKDpub` track no depth, so there is no depth-overflow error. `SerializeKey` takes the depth byte from its caller.
- BIP-32 serializes a private key with ser256, always 32 bytes. `CKDpriv` returns the child key as minimal big-endian bytes (`ChildKeyFits`), not as 32 bytes. `SerializeKey` appends the key it is given as it is. So a child key below 256^31, passed on unpadded, gives a payload shorter than 78 bytes (`Payload`'s length clause). The same short key fed back into `CKDpriv` at a hardened index gives HMAC data 0x00 || k || ser32(i) with fewer than 32 key bytes, where BIP-32 hashes 0x00 || ser256(k) || ser32(i) (`PrivData`'s length clause, |r| == |k| + 5; bip32.go:100).
- BIP-32 rejects a public child that is the point at infinity. `CKDpub` does not.
- `bip32.go` calls a point-valued API (`Secp256k1Pub` returning a point, `Secp256k1Compressed(pub)`, `Secp256k1Add(pub, IlPub)`), but `secp256k1.go` declares these on coordinate pairs. `bip32.go:14-26` also declares `Secp256k1Identifier` and `Secp256k1Fingerprint` a second time. The model has one definition of each, on the `Point` datatype. The two `Identifier` bodies compute the same thing.
- `ModInverse` of a non-invertible value does not fail. It leaves the value unchanged, so a zero denominator gives slope 0.

## Model

| member | source | states |
|---|---|---|
| ModArith.ModInverse | secp256k1.go:124 | when an inverse modulo m exists, the result is in [0, m) and multiplies g to 1; otherwise g comes back unchanged, as `big.Int.ModInverse` leaves its receiver |
| ModArith.InverseWitness | secp256k1.go:158 | any r with g*r ≡ 1 (mod m) makes g invertible, so ModInverse's "unchanged" case happens exactly when no inverse exists |
| ModArith.InverseUnique | secp256k1.go:158 | two canonical inverses of the same value are equal |
| ModArith.GcdDivides | secp256k1.go:124 | the gcd computed by the extended Euclidean algorithm divides both operands |
| ModArith.SlopeLaw | secp256k1.go:129 | a quotient computed as num * den^-1 satisfies m * den ≡ num whenever den is invertible |
| BigEndian.BEValue | encoding.go:17-19 | the big-endian value of n bytes is below 256^n |
| BigEndian.MinimalBytes | secp256k1.go:184 | `Bytes()` reads back as the value, is empty exactly for 0, and has no leading zero byte |
| BigEndian.MinimalBytesFit | bip32.go:140 | the minimal encoding fits in n bytes exactly when the value is below 256^n |
| BigEndian.FixedBytesValue | entropy.go:23-31 | the n-byte encoding keeps exactly the value modulo 256^n |
| BigEndian.FixedBytesOfValue | secp256k1.go:203-204 | a byte string is the fixed-width encoding of its own value at its own length |
| BigEndian.Ser32 | bip32.go:83 | `AppendUint32` adds 4 bytes reading back as i |
| BigEndian.BEValueAppend | encoding.go:17-19 | the value of a concatenation is the prefix's value shifted past the suffix plus the suffix's value |
| BigEndian.BEValueSuffix | entropy.go:31 | the last n bytes hold the value modulo 256^n |
| Secp256k1.OrderBelowPrime | secp256k1.go:68-74 | the group order n is below the field prime p, and both are below 2^256 |
| Secp256k1.Negate | secp256k1.go:98-99 | the negated point has the same x and a y that sums with the original to 0 mod p: (x, p - y), the intended negation of Findings row 1, where the code computes n - y1 |
| Secp256k1.TangentSlope | secp256k1.go:122-129 | the doubling slope is reduced below p |
| Secp256k1.ChordSlope | secp256k1.go:157-160 | the distinct-x slope is reduced below p |
| Secp256k1.Reflected | secp256k1.go:137-143 | the computed x is reduced below the modulus and y = q - (line mod q) lies in (0, q]; both branches of the addition pass the field prime p as q |
| Secp256k1.ReflectedLaw | secp256k1.go:137-143 | x ≡ m^2 - x0 - x1; y ≡ -(m*x + b); y is the modulus itself exactly when m*x + b ≡ 0 |
| Secp256k1.Add | secp256k1.go:76-119 | infinity on either side returns the other operand; x0 = x1 with y0 = n - y1 gives infinity; doubling a point with y = 0 gives infinity |
| Secp256k1.LineLaw | secp256k1.go:131-141 | with intercept b ≡ y0 - m*x0 the result satisfies -y ≡ m*(x - x0) + y0 |
| Secp256k1.TangentLine | secp256k1.go:131-143 | the doubling branch's intercept gives x ≡ m^2 - 2*x0 and puts the reflected point on the line through p0 |
| Secp256k1.ChordLine | secp256k1.go:162-175 | the chord branch's intercept gives x ≡ m^2 - x0 - x1 and puts the reflected point on the line through p0 |
| Secp256k1.TangentSlopeLaw | secp256k1.go:122-129 | the doubling slope solves m * 2*y0 ≡ 3*x0^2 when 2*y0 is invertible |
| Secp256k1.TangentLaw | secp256k1.go:104-145 | the doubling branch is the tangent construction: x ≡ m^2 - 2*x0 and -y ≡ m*(x - x0) + y0 |
| Secp256k1.ChordSlopeLaw | secp256k1.go:157-160 | the chord slope solves m * (x0 - x1) ≡ y0 - y1 when x0 - x1 is invertible |
| Secp256k1.ChordSlopeZero | secp256k1.go:157-160 | with x0 = x1, ModInverse leaves 0 and the chord slope is 0 |
| Secp256k1.ChordLaw | secp256k1.go:148-177 | the distinct-x branch is the chord construction: x ≡ m^2 - x0 - x1 and -y ≡ m*(x - x0) + y0 |
| Secp256k1.Tangent | secp256k1.go:104-145 | the doubling branch's result has x below p and y in (0, p]; TangentLaw gives its tangent equations |
| Secp256k1.Chord | secp256k1.go:148-177 | the distinct-x branch's result has x below p and y in (0, p]; ChordLaw gives its chord equations |
| Secp256k1.ZeroNotInvertible | secp256k1.go:158 | 0 has no inverse and ModInverse returns it unchanged |
| Secp256k1.AddCorrected | secp256k1.go:76-96 | infinity on either side returns the other operand |
| Secp256k1.AddCorrectedNegation | secp256k1.go:98-102 | with the negation test against p, P + (-P) is the point at infinity |
| Secp256k1.AddCorrectedCanonical | secp256k1.go:143 | the repaired addition keeps both coordinates below p |
| Secp256k1.AddMissesNegation | secp256k1.go:99 | as written, G + (-G) is (p - 2*Gx, p - Gy), not infinity |
| Secp256k1.AddAgrees | secp256k1.go:76-177 | for canonical operands that neither negation test catches, the repaired sum is the as-written one with y reduced, and equal to it whenever the as-written y is below p |
| Secp256k1.AddNonCanonical | secp256k1.go:175 | as written, (1, 3) + (2, 4) is (p - 2, p), whose y is not reduced |
| Secp256k1.ScalarMulStep | secp256k1.go:187-193 | appending bit b to the scalar read so far doubles the accumulator and adds the base point when b is 1 |
| Secp256k1.Mul | secp256k1.go:180-197 | the byte-wise loop, most significant bit first, computes the double-and-add result ScalarMul(k, P) |
| Secp256k1.MulByte | secp256k1.go:185-194 | eight bit steps over one byte take the accumulator from ScalarMul(acc, P) to ScalarMul(acc*256 + byte, P) |
| Secp256k1.DoubleAndAdd | secp256k1.go:190-193 | one doubling plus a conditional addition takes ScalarMul(v, P) to ScalarMul(2v + bit, P) |
| Secp256k1.ShiftBit | secp256k1.go:187-188 | the bit taken is the byte's top bit and the shift moves it out of the byte |
| Secp256k1.ScalarMulSmall | secp256k1.go:180-197 | Mul(0, P) is infinity and Mul(1, P) is P |
| Secp256k1.ScalarMul | secp256k1.go:180-197 | the double-and-add reference the loop is proved against (Mul, MulByte, ScalarMulStep); multiples of a canonical point are canonical |
| Secp256k1.Pub | secp256k1.go:216-224 | k·G, always a canonical point; PubOfOne gives 1·G = G |
| Secp256k1.PubOfOne | secp256k1.go:216-224 | the public key of 1 is the generator G |
| Secp256k1.DoublingInverse | secp256k1.go:122-124 | the doubling denominator 2·Gy is invertible modulo p, and ModInverse returns its inverse |
| Secp256k1.DoublingSlope | secp256k1.go:122-129 | the tangent slope at G is 3·Gx^2 · (2·Gy)^-1 mod p, written out as a 256-bit literal |
| Secp256k1.TangentOfG | secp256k1.go:104-145 | the doubling branch applied to G gives the standard 2·G |
| Secp256k1.AddOfGG | secp256k1.go:76-145 | G + G is the standard 2·G, both as written and with the repaired addition |
| Secp256k1.PubOfTwo | secp256k1.go:216-224 | the public key of 2 is the standard 2·G |
| Secp256k1.Compressed | secp256k1.go:199-214 | always 33 bytes; the first byte is 0x02 exactly for even y and 0x03 exactly for odd y |
| Secp256k1.CompressedLayout | secp256k1.go:203-204 | x's minimal bytes start at index 1 and are followed by zeros, so bytes 1..32 read as x * 256^(32 - len) |
| Secp256k1.CompressedDropsPadding | secp256k1.go:203-204 | for x = 1 the as-written bytes read back as 256^31 while the padded encoding reads back as 1 |
| Secp256k1.CompressedPadded | secp256k1.go:199-214 | 33 bytes with the parity prefix, and bytes 1..32 read back as x mod 2^256 |
| Secp256k1.CompressedAgrees | secp256k1.go:199-214 | for x below 2^256 the as-written and padded encodings coincide exactly when x = 0 or x >= 256^31 |
| Secp256k1.CompressedPaddedRoundTrip | secp256k1.go:203-204 | every x below 2^256 is read back exactly from the padded encoding |
| Secp256k1.Compress | secp256k1.go:199-214 | the fresh-buffer, copy and parity-byte writes produce exactly Compressed |
| Secp256k1.Identifier | secp256k1.go:226-234 | the identifier is 20 bytes |
| Secp256k1.Fingerprint | secp256k1.go:236-238 | the fingerprint is the first 4 bytes of the identifier |
| Base58.Encode | encoding.go:26-29 | the encoding is empty exactly when the value is 0 |
| Base58.AlphabetRanges | encoding.go:23 | the alphabet has 58 characters, the six runs 1-9, A-H, J-N, P-Z, a-k, m-z in order |
| Base58.DigitOfAlphabet | encoding.go:23 | every alphabet position is read back as itself, so no symbol repeats |
| Base58.DigitIffAlphabet | encoding.go:23 | exactly the alphabet's characters are base-58 digits |
| Base58.EncodeInAlphabet | encoding.go:26-29 | every output character belongs to the alphabet |
| Base58.DecodeEncode | encoding.go:17-36 | reading the encoding back in base 58 gives the value |
| Base58.EncodeInjective | encoding.go:17-36 | different values have different encodings |
| Base58.EncodeNoLeadingOne | encoding.go:26-36 | a non-empty encoding never starts with '1' |
| Base58.EncodeLength | encoding.go:26-29 | the length is the number of base-58 digits: 58^(len-1) <= v < 58^len |
| Base58.Checksummed | encoding.go:10-15 | the input followed by the first 4 bytes of SHA256(SHA256(input)) |
| Base58.Base58CheckDecodes | encoding.go:9-37 | the output decodes to the checksummed bytes' value, uses only alphabet characters, and does not start with '1' |
| Base58.EncodeStep | encoding.go:26-29 | one division moves the lowest digit from the number to the collected digits |
| Base58.Base58Check | encoding.go:9-37 | the divmod loop and the reversal produce the base-58 digits of the checksummed bytes' value, most significant first |
| Base58.ReverseInPlace | encoding.go:31-34 | the swap loop leaves the array reversed |
| Bip32.Split | bip32.go:32-33 | IL and IR are 32 bytes each and rebuild the 64-byte HMAC output |
| Bip32.MasterPrivateKey | bip32.go:28-55 | succeeds exactly when IL of HMAC-SHA512("Bitcoin seed", seed) reads as a value in (0, n), and then returns (IL, IR) |
| Bip32.MasterKeyValid | bip32.go:42-54 | a master key is a valid scalar in (0, n), its halves rebuild the HMAC output, and its public key is canonical |
| Bip32.MasterKeyErrors | bip32.go:44-52 | the zero error is returned exactly for IL = 0 and the order error exactly for IL >= n |
| Bip32.PrivData | bip32.go:96-109 | hardened data is 0x00, k and ser32(i); normal data is the 33-byte compressed public key and ser32(i); the last 4 bytes read back as i |
| Bip32.PubData | bip32.go:151-152 | the 37 bytes are the compressed point followed by ser32(i) |
| Bip32.DataSeparated | bip32.go:98-109 | hardened and normal derivation data never coincide |
| Bip32.ChildScalar | bip32.go:125-138 | fails with the order error exactly when IL >= n, succeeds exactly when IL < n and (IL + k) mod n is not 0, and then gives (IL + k) mod n in (0, n) |
| Bip32.CKDpriv | bip32.go:95-141 | fails exactly when ChildScalar fails, with its error; otherwise the key bytes read back as the child scalar and the chain code is IR |
| Bip32.ChildKeyFits | bip32.go:140 | the child key is in (0, n), has 1 to 32 bytes with no leading zero, and has 32 bytes exactly when it is at least 256^31 |
| Bip32.CKDpub | bip32.go:143-178 | the hardened-index error happens exactly for i >= 2^31; otherwise it succeeds exactly when IL < n, giving K + IL*G with chain code IR |
| Bip32.CKDpubFromPriv | bip32.go:180-191 | CKDpriv's error is passed on unchanged; otherwise the result is the public key of its child with the same chain code |
| Bip32.PubPrivSameData | bip32.go:150-152 | for a normal index, public derivation from point(k) hashes what private derivation from k hashes; the order errors and chain codes agree |
| Bip32.DerivedPubCanonical | bip32.go:173-190 | derived public keys from either route are canonical points |
| Bip32.Version | bip32.go:62-70 | each version is four bytes |
| Bip32.VersionKindOfVersion | bip32.go:62-70 | the version table is one-to-one: reading a version back gives its (private, mainnet) pair |
| Bip32.ParentField | bip32.go:74-81 | four zero bytes for a nil parent, otherwise the parent's fingerprint |
| Bip32.Payload | bip32.go:61-88 | the payload is 13 header bytes, the chain code, a tag byte for a private key, and the key; with a 32-byte chain code it is 78 bytes exactly when the key has 32 bytes (private) or 33 bytes (public) |
| Bip32.ParsePayload | bip32.go:57-90 | for a 32-byte chain code and a 32-byte private or 33-byte public key, the payload is 78 bytes and every field is read back unchanged |
| Bip32.PayloadSlices | bip32.go:61-90 | the fields sit at offsets 0, 4, 5, 9, 13 and 45 |
| Bip32.SerializeKey | bip32.go:57-93 | the appended bytes are the payload and the result is its Base58Check string |
| Bip32.SerializeRoundTrip | bip32.go:57-93 | the serialized string decodes to an 82-byte value: the payload, which parses back to the key's fields, followed by its checksum |
| Entropy.Int32Wrap | entropy.go:37 | `rune(v)` is the value in [-2^31, 2^31) congruent to v mod 2^32 |
| Entropy.Uint64Wrap | entropy.go:41 | `uint` arithmetic is the value in [0, 2^64) congruent mod 2^64 |
| Entropy.DiceToBase | entropy.go:34-49 | succeeds exactly when every face is accepted; the output then has the input's length with each face mapped; otherwise the error names the first rejected face |
| Entropy.NoWrap | entropy.go:37-41 | for any base that fits a rune the highest face is '0' + base and the mapped face is '0' + base |
| Entropy.FaceDigit | entropy.go:37-45 | an accepted face f becomes the digit f mod base, between '0' and '0' + base - 1 |
| Entropy.DiceOutputDigits | entropy.go:34-48 | every character of a successful output is a base-`base` digit |
| Entropy.DigitValue | entropy.go:17 | a digit's value is below the base |
| Entropy.DigitsValue | entropy.go:17 | a run of digits has a value exactly when every character is a digit below the base; DigitsRoundTrip inverts Digits with it |
| Entropy.ParseInt | entropy.go:17-20 | `SetString` succeeds exactly when an optional sign is followed by at least one character, all of them digits below the base; a leading '-' gives a value <= 0, otherwise it is >= 0 |
| Entropy.LastBytes | entropy.go:23-31 | padding and slicing give exactly `required` bytes holding the value mod 256^required |
| Entropy.StringToEntropyRaw | entropy.go:15-32 | succeeds exactly when the string parses; the result has bits/8 bytes and reads back as the magnitude mod 256^(bits/8) |
| Entropy.EntropyKeepsValue | entropy.go:24-29 | a number that fits in bits/8 bytes gives its left-padded encoding and reads back unchanged |
| Entropy.SameValueSameBytes | entropy.go:31 | two byte strings of the same length and value are equal |
| Entropy.DigitsRoundTrip | entropy.go:17 | digits written in base b are parsed back to the number |
| Entropy.DigitsNoSign | entropy.go:17 | written digits never start with a sign |
| Entropy.ParseDigits | entropy.go:15-32 | any number written in digits parses, and its entropy bytes are its last bits/8 bytes |

## Left out

- SHA-256, RIPEMD-160 and HMAC-SHA512 are library calls. They are a parameter of three functions constrained only by their output lengths of 32, 20 and 64 bytes.
- `StringToEntropyHash` (entropy.go:10-13) is a single SHA-256 call and is not modelled.
- The curve's group laws are not proved: associativity, closure of the curve under addition, and the agreement of `Pub` after `CKDpriv` with `CKDpub`. Of the multiples of G, only 1·G (`PubOfOne`) and 2·G (`PubOfTwo`) are evaluated.
- Scalar multiplication, public keys, fingerprints and the BIP-32 functions use `AddCorrected` and `CompressedPadded` rather than the as-written `Add` and `Compressed` (see Findings). `CompressedAgrees` and `AddAgrees` state where the two versions coincide. The lines below name what differs, member by member.
- Secp256k1.ScalarMul: built on the repaired addition, where secp256k1.go:180-197 adds with the as-written `Add`. It differs from btools when an addition meets P + (-P), which on base G needs k >= n, or when a line value is 0. Agreement with btools for 0 < k < n is not proved.
- Secp256k1.Pub: k·G over ScalarMul, with the same differences. For example, Pub(n) is infinity, while btools' last step adds G to (n - 1)·G, which is (Gx, p - Gy) if its earlier steps follow the group law. That addition misses the negation test and returns a finite point. Its "always canonical" clause, `MasterKeyValid` and `DerivedPubCanonical` hold for the repaired addition only. Agreement with btools for 0 < k < n is not proved; `PubOfTwo` checks it for k = 2.
- Secp256k1.Mul: uses the repaired addition. Its result can differ from btools' only when some addition in the loop meets P + (-P), which on base G needs k >= n (there btools' chord branch meets a zero denominator), when a line value is zero, or when the base point is off the curve. The model does not prove that these are the only cases.
- Secp256k1.MulByte: the same repaired addition as Mul, with the same differences.
- Secp256k1.DoubleAndAdd: the same repaired addition as Mul, with the same differences (secp256k1.go:190 and 192 call the as-written `Secp256k1Add`).
- Secp256k1.ScalarMulStep: a step of ScalarMul, so it states the ladder over the repaired addition, with the same differences as Mul.
- Secp256k1.Identifier: for a key whose public x is below 2^248 (about one key in 256), it hashes the padded encoding. btools hashes x.Bytes() followed by zeros, so the identifier differs for those keys.
- Secp256k1.Fingerprint: the first four bytes of Identifier, so it differs for the same keys.
- Bip32.PrivData: at a normal index, for a parent key whose public x is below 2^248, it holds the padded encoding where btools' HMAC data holds the unpadded one.
- Bip32.PubData: for a parent point whose x is below 2^248, it holds the padded encoding where btools' HMAC data holds the unpadded one.
- Bip32.CKDpriv: at a normal index it hashes PrivData, so for those parent keys the child key and chain code differ from btools' output.
- Bip32.CKDpub: hashes PubData and adds with the repaired addition. So its output differs from btools for parent points with x below 2^248, and when IL·G is the negation of the parent point.
- Bip32.CKDpubFromPriv: inherits the differences of CKDpriv. That its point equals CKDpub's on the parent's public key (BIP-32's identity N(CKDpriv((k, c), i)) = CKDpub(N((k, c)), i) for a normal index) is not proved; PubPrivSameData proves only that both hash the same data.
- Bip32.PubPrivSameData: states that the two routes hash the same padded data. btools' two routes also hash the same data as each other, the unpadded encoding.
- Bip32.MasterKeyValid: its canonical-public-key clause is about Pub, so it holds for the repaired addition only.
- Bip32.DerivedPubCanonical: about CKDpub and CKDpubFromPriv over the repaired addition; btools' as-written sum can have y = p (Findings row 3).
- Bip32.ParentField: the parent's Fingerprint, so it differs for the same parent keys.
- Bip32.Payload: the parent field comes from ParentField, so for parent keys whose public x is below 2^248, bytes 5..9 differ from btools' payload.
- Bip32.SerializeKey: the parent field comes from ParentField, so for those parent keys the string differs from btools' output.
- Bip32.SerializeRoundTrip: about Payload, so for those parent keys the parent field it reads back is the model's fingerprint, not btools'.
- Errors carry only their reason. The accompanying Go return values are not modelled: nil slices, the `Infinity()` point returned by `CKDpub` with an error, and the message texts.
- `big.Int.SetString` with base 0, which detects the base from a prefix and allows underscores, is not modelled. Neither are bases outside 2..62, for which Go panics. `StringToEntropyRaw` requires a base in 2..62.
- Entropy.StringToEntropyRaw: takes `bits` as a natural number. Negative values below -7 make Go panic on a slice bound. Values from -7 to -1 (which give 0 bytes) are not modelled.
- Go strings are modelled as sequences of runes. The UTF-8 decoding performed by `range` over a string, including its replacement of invalid bytes, is not modelled.
- The process-wide globals that `init()` sets (secp256k1.go:65-74) and the parsing of the curve constants are modelled as constants.
- Timing behaviour is not modelled.
- cmd/btools/main.go is not part of this model.

## Findings

| source | as written | input that shows it | evidently intended | confidence | as-written member | corrected member |
|---|---|---|---|---|---|---|
| secp256k1.go:99 | the negation test compares y0 with n - y1, the group order instead of the field prime | G + (Gx, p - Gy) gives (p - 2·Gx, p - Gy) instead of (0, 0) | compare y0 with p - y1 | high; not executed | Secp256k1.AddMissesNegation | Secp256k1.AddCorrectedNegation |
| secp256k1.go:203-204 | x's minimal bytes are copied to index 1 without left padding | any x with 0 < x < 2^248, e.g. x = 1: bytes 1..32 are 01 00…00, which read as 256^31 | x right-aligned in bytes 1..32, as in section 2.3.3 of SEC 1 version 2 | high; not executed | Secp256k1.CompressedDropsPadding | Secp256k1.CompressedPaddedRoundTrip |
| secp256k1.go:143,175 | y2 = p - (line mod p) returns the non-canonical p when the line value is 0 | (1, 3) + (2, 4) gives (p - 2, p); these points are off the curve | y2 reduced into [0, p) | low: no on-curve input is known to reach it; not executed | Secp256k1.AddNonCanonical | Secp256k1.AddCorrectedCanonical |
