# ffjavascript prime field and byte codecs in Dafny

This project models the core of ffjavascript, the JavaScript library of
finite fields behind the snarkjs tool chain. Two source files are covered:

- `src/f1field_native.js` holds the class `ZqField`, the prime field Z/pZ
  over BigInt. The constructor derives a set of parameters from p: half,
  bitLength, mask, the smallest quadratic non-residue `nqr`, and the split
  p - 1 = t * 2^s with t odd. The class also provides:
  - the conversion `e` / `normalize` into the field;
  - add, sub, neg, mul, square, div and inv (the extended Euclidean
    algorithm);
  - the signed order lt/gt/leq/geq;
  - the bitwise operators and shifts, masked to bitLength bits and reduced
    once;
  - the logical operators land/lor/lnot;
  - the Tonelli-Shanks square root.
- `src/utils_native.js` holds the big-endian and little-endian fixed-width
  codecs between BigInts and byte buffers, and the walks
  `stringifyBigInts` / `unstringifyBigInts`. These walks turn the BigInts
  of a JSON-like tree into decimal strings and back.

Modules:

| file | module | content |
|---|---|---|
| `wrappers.dfy` | `Wrappers` | `Option` (the `null` of `sqrt`) and `Result` (the assertion errors) |
| `mod_arith.dfy` | `ModArith` | powers, bit length, reduction lemmas, gcd and Bezout, Euclid's lemma, repeated squaring |
| `fermat.dfy` | `Fermat` | Fermat's little theorem, by the argument that multiplying by a permutes the non-zero residues |
| `bits.dfy` | `Bits` | BigInt `&`, `\|`, `^`, `<<`, `>>` on non-negative integers |
| `f1field.dfy` | `F1Field` | the class `ZqField` and the lemmas its proofs rest on |
| `codec.dfy` | `Codec` | the four buffer codecs as methods over `array<byte>` |
| `json_bigints.dfy` | `JsonBigInts` | the two tree walks as recursive functions over a `JsValue` datatype |
| `field_scenarios.dfy` | `FieldScenarios` | the field for p = 13 worked through concrete calls |

### How the model is built

`ZqField` is a class. The source assigns its fields once, in the
constructor, and never changes them afterwards. The model therefore makes
them `const` fields. The constructor computes them with the same two loops
the source uses: the search for the non-residue, and the halving of p - 1.

The field's operations change nothing, so they are functions. The
exceptions are `inv` and `sqrt`, which are loops in the source and are
methods here, proved against the field laws. `div` calls `inv`, so it is a
method too.

The buffer codecs are methods with the source's 4/2/1-byte chunked loops
over an `array<byte>`. They are proved against `BeValue`/`LeValue`, the
positional sum of the bytes, and `BeBytes`/`LeBytes`, the bytes of a
number.

Two places where the code does something other than what it seems to say:

- In `leBuff2int`, the second branch repeats the first branch's test
  (`i + 4 <= length`), so 2-byte reads never happen. The loop still reads
  every byte through the 1-byte branch, and the result is unaffected. The
  model keeps the duplicated test and proves the branch behind it
  unreachable.
- `e(a)` and `normalize(a)` return p itself, not 0, for a negative multiple
  of p. See Findings.

## Model

| member | source | states |
|---|---|---|
| F1Field.ZqField.constructor | src/f1field_native.js:25-55 | given a prime p > 2 that has a non-residue, the derived fields satisfy `Valid()`: half = p >> 1; bitLength is the bit count of p; mask = 2^bitLength - 1; nqr is the smallest z >= 2 with z^((p-1)/2) = p - 1; p - 1 = t * 2^s with t odd and s >= 1; nqr_to_t = nqr^t mod p |
| F1Field.TwoAdicOfEven | src/f1field_native.js:46-52 | the halving loop runs at least once, because p - 1 is even |
| F1Field.InverseModPrime | src/f1field_native.js:139-153 | an inverse modulo a prime is unique among canonical values |
| ModArith.BitLength | src/f1field_native.js:32 | the bit length k of p satisfies 2^(k-1) <= p < 2^k |
| ModArith.BitLengthUnique | src/f1field_native.js:32 | only one k satisfies those bounds |
| F1Field.ZqField.E | src/f1field_native.js:57-71 | the result is congruent to a modulo p; it lies in [0, p) except when a is a negative multiple of p, where it is p |
| F1Field.ZqField.Normalize | src/f1field_native.js:260-269 | normalize agrees with e on every integer |
| F1Field.ZqField.ENegativeMultiple | src/f1field_native.js:64-67 | as written, e(-k*p) = p for k >= 1, while the canonical conversion gives 0 |
| F1Field.ZqField.ECanonical | src/f1field_native.js:64-70 | corrected conversion: always in [0, p) and congruent to a |
| F1Field.ZqField.ECanonicalAgrees | src/f1field_native.js:64-70 | apart from negative multiples of p, e and the corrected conversion agree |
| F1Field.ZqField.Add | src/f1field_native.js:73-76 | on canonical operands, one conditional subtraction gives (a + b) mod p |
| F1Field.ZqField.Sub | src/f1field_native.js:78-80 | on canonical operands the result is (a - b) mod p |
| F1Field.ZqField.Neg | src/f1field_native.js:82-84 | the result is (-a) mod p, with neg(0) = 0 |
| F1Field.ZqField.AddNeg | src/f1field_native.js:73-84 | a + neg(a) = 0 and neg(0) = 0 |
| F1Field.ZqField.SubAdd | src/f1field_native.js:73-80 | sub undoes add: (a + b) - b = a |
| F1Field.ZqField.Mul | src/f1field_native.js:86-88 | the product is canonical and congruent to a * b |
| F1Field.ZqField.MulLaws | src/f1field_native.js:73-88 | mul is commutative and associative, has 1 as identity, and distributes over add |
| F1Field.ZqField.Square | src/f1field_native.js:94-96 | square(a) = mul(a, a) |
| F1Field.ZqField.Pow | src/f1field_native.js:159-161 | pow is b^e reduced into [0, p) |
| F1Field.ZqField.PowLaws | src/f1field_native.js:159-161 | b^0 = 1, b^(e1+e2) = b^e1 * b^e2, and (b^e1)^e2 = b^(e1*e2) |
| F1Field.ZqField.Eq | src/f1field_native.js:98-100 | on canonical values, equality is congruence modulo p |
| F1Field.ZqField.Neq | src/f1field_native.js:102-104 | neq is the negation of that congruence |
| F1Field.ZqField.CanonicalCongruent | src/f1field_native.js:98-104 | two canonical values are congruent exactly when they are equal |
| F1Field.ZqField.IsZero | src/f1field_native.js:291-293 | isZero holds exactly for the zero class |
| F1Field.ZqField.Inv | src/f1field_native.js:139-153 | a = 0 raises "Division by zero"; otherwise the result is canonical and a * inv(a) = 1 mod p when p does not divide a (0 when it does). The loop keeps t * a = r (mod p), gcd(r, newr) = gcd(p, a), and the coefficient bound 2|t| <= p |
| F1Field.ZqField.Div | src/f1field_native.js:130-132 | b = 0 raises "Division by zero"; otherwise the quotient q is canonical and q * b = a mod p |
| F1Field.ZqField.Signed | src/f1field_native.js:107-108 | values above half become negative: the signed value lies in [-half, half] and is congruent to v |
| F1Field.ZqField.Lt | src/f1field_native.js:106-110 | lt compares the signed values: signed(a) < signed(b); equivalently the lower half [0, half] precedes the upper half, and within a half the order is the integer order |
| F1Field.ZqField.Gt | src/f1field_native.js:112-116 | gt is signed(a) > signed(b), that is lt(b, a) |
| F1Field.ZqField.Leq | src/f1field_native.js:118-122 | leq is signed(a) <= signed(b), the negation of gt |
| F1Field.ZqField.Geq | src/f1field_native.js:124-128 | geq is signed(a) >= signed(b), the negation of lt |
| F1Field.ZqField.SignedOrderTotal | src/f1field_native.js:106-116 | exactly one of lt, eq and gt holds |
| F1Field.ZqField.SignedNeg | src/f1field_native.js:82-84 | negation negates the signed value |
| F1Field.ZqField.NegReversesOrder | src/f1field_native.js:106-110 | lt(a, b) exactly when lt(neg(b), neg(a)) |
| F1Field.ZqField.HalfOfOdd | src/f1field_native.js:31 | p = 2 * half + 1 |
| Bits.BitAndMask | src/f1field_native.js:163-176 | masking with k one-bits is reduction modulo 2^k |
| Bits.BitXorMask | src/f1field_native.js:178-181 | xor with k one-bits complements a value below 2^k |
| Bits.ShiftRightFloor | src/f1field_native.js:190 | a >> k is floor(a / 2^k) |
| F1Field.ZqField.MaskedReduce | src/f1field_native.js:163-176 | masking then one conditional subtraction gives (x mod 2^bitLength) mod p |
| F1Field.ZqField.Band | src/f1field_native.js:163-166 | band is ((a & b) mod 2^bitLength) mod p |
| F1Field.ZqField.Bor | src/f1field_native.js:168-171 | bor is ((a \| b) mod 2^bitLength) mod p |
| F1Field.ZqField.Bxor | src/f1field_native.js:173-176 | bxor is ((a ^ b) mod 2^bitLength) mod p |
| F1Field.ZqField.Bnot | src/f1field_native.js:178-181 | bnot is congruent to a ^ mask; for a below 2^bitLength it is (mask - a) mod p |
| F1Field.ZqField.ComplementReduces | src/f1field_native.js:178-181 | for a below 2^bitLength, a ^ mask = mask - a < 2p, so one subtraction makes it canonical |
| F1Field.ZqField.Shl | src/f1field_native.js:183-195 | b < bitLength gives the masked and reduced a << b. An amount b near p shifts right by p - b: floor(a / 2^(p-b)). Otherwise 0. For canonical a and b <= p the result is canonical |
| F1Field.ZqField.Shr | src/f1field_native.js:197-209 | 0 <= b < bitLength gives floor(a / 2^b), unmasked. An amount b near p shifts left by p - b, masked and reduced. Otherwise 0 |
| F1Field.ZqField.ShiftWrapsThroughP | src/f1field_native.js:183-209 | shl(a, p - k) = shr(a, k) and shr(a, p - k) = shl(a, k) for 0 <= k < bitLength |
| F1Field.ZqField.Land | src/f1field_native.js:211-213 | the result is 1 exactly when both operands are non-zero, else 0 |
| F1Field.ZqField.Lor | src/f1field_native.js:215-217 | the result is 1 exactly when some operand is non-zero, else 0 |
| F1Field.ZqField.Lnot | src/f1field_native.js:219-221 | the result is 1 exactly for 0, else 0 |
| F1Field.ZqField.Sqrt | src/f1field_native.js:223-258 | sqrt(0) = 0. For n != 0 the result is null exactly when Euler's test n^((p-1)/2) = 1 fails, and null exactly when n has no square root modulo p. Otherwise it is the root r in [0, half] with r^2 = n mod p. The loops keep the Tonelli-Shanks invariants r^2 = n * t, c^(2^(m-1)) = -1 and t^(2^(m-1)) = 1, while m decreases |
| F1Field.TonelliStart | src/f1field_native.js:227-233 | the starting values satisfy the loop invariants: t^(2^(s-1)) is Euler's criterion, and r^2 = n * t |
| F1Field.TonelliRound | src/f1field_native.js:235-251 | one round of the outer loop keeps the invariants with m := i, which is smaller |
| F1Field.LowerRoot | src/f1field_native.js:253-256 | once t = 1, r or p - r is a root in [0, half] |
| F1Field.EulerOfSquare | src/f1field_native.js:226-228 | every non-zero square n passes the test n^((p-1)/2) = 1, so a null result means n has no root |
| Fermat.FermatLittle | src/f1field_native.js:227 | Fermat's little theorem: a^(p-1) = 1 mod p for a prime p and a not divisible by p |
| F1Field.ZqField.SqrtUnique | src/f1field_native.js:253-257 | two roots in [0, half] of the same square are equal, so sqrt picks the unique lower root |
| FieldScenarios.ModThirteen | src/f1field_native.js:73-258 | for p = 13: add(7, 10) = 4, inv(6) = 11, sqrt(4) = 2, sqrt(2) = null, band(9, 5) = 1, bnot(0) = 2, shl(1, 2) = 4 |
| FieldScenarios.ThirteenIsPrime | src/f1field_native.js:25 | 13 satisfies the constructor's precondition |
| FieldScenarios.TwoIsNonResidue | src/f1field_native.js:38-44 | 2 is a non-residue modulo 13 |
| FieldScenarios.RootOfFour | src/f1field_native.js:253-257 | the lower square root of 4 modulo 13 is 2 |
| Codec.BeBuff2Int | src/utils_native.js:36-56 | the result is the big-endian positional sum of the bytes, whatever chunks are read. It is below 256^length, and re-encoding it gives the buffer back |
| Codec.LeBuff2Int | src/utils_native.js:81-97 | the same for little-endian; the duplicated test is kept and the branch behind it is proved unreachable |
| Codec.BeInt2Buff | src/utils_native.js:58-79 | succeeds exactly when 0 <= n < 256^len, and otherwise fails with the assertion error. On success the buffer holds len bytes: the big-endian bytes of n, whose value is n |
| Codec.LeInt2Buff | src/utils_native.js:99-120 | the same for little-endian |
| Codec.BeRoundTrip | src/utils_native.js:36-79 | beBuff2int(beInt2Buff(n, len)) = n for every n that fits |
| Codec.LeRoundTrip | src/utils_native.js:81-120 | leBuff2int(leInt2Buff(n, len)) = n for every n that fits |
| Codec.WriteUIntBE | src/utils_native.js:62-76 | writing k big-endian bytes at offset o changes only buff[o..o+k], which becomes the bytes of the value |
| Codec.WriteUIntLE | src/utils_native.js:103-117 | the little-endian counterpart |
| Codec.BeEncodeStep | src/utils_native.js:62-76 | one chunk of the encoder extends the encoded suffix by k bytes, and the remaining r becomes n >> 8(done + k) |
| Codec.LeEncodeStep | src/utils_native.js:103-117 | one chunk extends the encoded prefix by k bytes |
| Codec.BeValueChunk | src/utils_native.js:40-54 | reading a chunk and shifting it by its offset adds its place value to the sum |
| Codec.LeValueChunk | src/utils_native.js:84-95 | the same for little-endian chunks |
| Codec.EncodingFits | src/utils_native.js:77 | the final assertion r == 0 holds exactly when 0 <= n < 256^len; then both encodings decode to n |
| Codec.BeValueBound | src/utils_native.js:36-56 | a len-byte big-endian value is below 256^len |
| Codec.LeValueBound | src/utils_native.js:81-97 | a len-byte little-endian value is below 256^len |
| Codec.BeBytesValue | src/utils_native.js:58-79 | the bytes of n have value n mod 256^len, so overflow truncates |
| Codec.LeBytesValue | src/utils_native.js:99-120 | the same for little-endian |
| Codec.BeBytesOfValue | src/utils_native.js:36-56 | encoding the value of a byte string gives the string back |
| Codec.LeBytesOfValue | src/utils_native.js:81-97 | the same for little-endian |
| Codec.BeBytesSplit | src/utils_native.js:62-76 | the big-endian bytes of n for j + k bytes are the bytes of n >> 8j for k bytes, followed by the low j bytes |
| Codec.LeBytesSplit | src/utils_native.js:103-117 | the little-endian counterpart |
| Codec.BeBytesMask | src/utils_native.js:65 | masking n to its low k bytes does not change its k-byte encoding |
| Codec.LeBytesMask | src/utils_native.js:105 | the same for little-endian |
| JsonBigInts.Stringify | src/utils_native.js:4-18 | the walk fails (TypeError) exactly on trees containing null or undefined; otherwise the result contains no BigInt |
| JsonBigInts.Unstringify | src/utils_native.js:20-34 | the result contains no digit-only string and no null |
| JsonBigInts.RoundTrip | src/utils_native.js:4-34 | unstringify(stringify(v)) = v when v has no null, no negative BigInt and no digit-only string |
| JsonBigInts.NegativeStaysString | src/utils_native.js:4-34 | a negative BigInt comes back as its "-digits" string |
| JsonBigInts.UnstringifyIdempotent | src/utils_native.js:20-34 | unstringifying twice equals unstringifying once |
| JsonBigInts.UnstringifiedFixed | src/utils_native.js:20-34 | a tree with nothing left to convert is unchanged |
| JsonBigInts.StringifyFixed | src/utils_native.js:4-18 | a null-free tree without BigInts is unchanged |
| JsonBigInts.StringifyIdempotent | src/utils_native.js:4-18 | stringifying twice equals stringifying once |
| JsonBigInts.NoBigIntsNullFree | src/utils_native.js:4-18 | stringifying a null-free tree gives a null-free tree |
| JsonBigInts.RestorableIsNullFree | src/utils_native.js:4-34 | restorable trees contain no null or undefined |
| JsonBigInts.NatString | src/utils_native.js:6 | the decimal text of a natural number is all digits, without a leading zero |
| JsonBigInts.DecimalString | src/utils_native.js:6 | toString(10) is digit-only exactly for non-negative values |
| JsonBigInts.ParseNatString | src/utils_native.js:21-22 | BigInt(text) inverts toString(10) on natural numbers |

## Left out

- `random` and `getRandomByte`: they are randomness from the platform.
- `toString`: formatting only.
- `n64` and `R`: Montgomery parameters that no modelled operation reads.
- `idiv`, `mod` and `mulScalar`: thin wrappers over BigInt operators, outside the modelled core.
- The string parsing in `e(a, b)` and `normalize(a, b)`: `E` and `Normalize` take the integer that `BigInt` produces. `e(a, 16)` parses `"0x" + a` as hexadecimal. `e(a, b)` with any other truthy `b` never sets `res` and returns `undefined`. `normalize` passes `b` to `BigInt(a, b)`, which ignores a second argument, so `normalize(a, b)` parses `a` as `BigInt(a)` does whatever `b` is, and a non-decimal string such as `"ff"` throws a SyntaxError. These cases are not modelled.
- `pow` delegates to `futils.exp`, which is not part of this model. `Pow` is the exact b^e mod p that it computes.
- `Scalar.bitLength` is not part of this model. `BitLength` is the unique k with 2^(k-1) <= p < 2^k.
- F1Field.ZqField.constructor: requires p to be a prime above 2 that has a non-residue. The source does not check this, and for other p its search loop may not stop.
- F1Field.ZqField.Add: like Sub, Neg, Mul, Square, Div, Eq, Neq, IsZero, Lt, Gt, Leq, Geq, Signed and Sqrt, it requires canonical operands in [0, p). That is the field's contract with its callers; on other inputs the source computes values the model does not describe.
- F1Field.ZqField.Inv: requires a >= 0. The source takes `a % p` with truncating BigInt `%`, and the model does not cover negative inputs.
- F1Field.ZqField.Shl: like Shr, it takes any integer shift amount and compares `Number(b)` exactly. For a shift amount beyond 2^53 the float rounding of `Number(b)` is not modelled. For b > p the left-shift case is computed but not characterised by a contract.
- F1Field.ZqField.Shr: the source's final `return 0` is a Number, not a BigInt; the model returns the integer 0.
- F1Field.ZqField.Band: like Bor, Bxor, Bnot, Shl and Shr, it takes non-negative operands only, because BigInt bitwise operators on negative values use two's complement.
- Node `Buffer` internals: `Buffer.alloc`, and the `readUInt*`/`writeUInt*` calls become byte-array reads and writes. `BeInt2Buff` and `LeInt2Buff` return the buffer's contents as a sequence, so the model does not capture aliasing of the returned buffer.
- JsonBigInts.Stringify: the duck-typed `o.eq !== undefined` probe is not modelled beyond null and undefined. Objects that carry an `eq` member are not distinguished, and numbers and booleans are abstracted as `Prim`.
- Key order of objects and prototype properties seen by `for ... in`: objects are maps.

## Findings

| source | as written | input that shows it | evidently intended | confidence | as-written member | corrected member |
|---|---|---|---|---|---|---|
| src/f1field_native.js:64-67 | a negative multiple of p reduces to nres = 0, and `p - nres` returns p | e(-13) in the field of 13 returns 13 | the canonical value 0 | medium, not executed | F1Field.ZqField.ENegativeMultiple | F1Field.ZqField.ECanonical |
