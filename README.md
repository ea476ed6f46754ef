# Circuit definitions of gnark-examples, modelled at witness level

The repository holds small example programs for the gnark zero-knowledge
proof library. The only logic written in the repository itself is in the
`Define` methods of three circuits. Each one builds a circuit from library
gates. This project models what each `Define` computes on a concrete witness,
and which inputs satisfy its assertions:

- **Exponentiation** (`exponentiate/main.go`): public `X`, `Y` and secret `E`.
  The circuit takes the 8 low bits of `E` and runs square-and-multiply over
  them. It asserts that `Y` equals the result.
- **Cubic** (`cubic/main.go`): secret `X` and public `Y`. It asserts
  `Y == X*X*X + X + 5`.
- **ECDSA private-to-public preparation** (`ecdsa/main.go`): the private key
  has `K = 4` limbs of `N = 64` bits. Each limb is decomposed into bits. A
  dummy point is copied. The 256 key bits are then regrouped into
  `numStrides = 32` windows of `stride = 8` bits.

The library gates are modelled as functions over integers modulo the BN254
scalar-field prime `P`, in module `Gates`:

- `Constant(k)` is `k mod P`.
- `Add` and `Mul` are modular sums and products, folded left over all
  operands.
- `Select(c, a, b)` is `b + c*(a - b) mod P`. This is `a` when `c = 1` and
  `b` when `c = 0`.
- `ToBinary(v, n)` gives the `n` low bits of `v`, least significant first.
- `AssertIsEqual(a, b)` is the constraint `(a - b) * 1 == 0`, that is,
  equality of field elements.

Circuit inputs are field elements (`Felt`, integers in `[0, P)`).

Layout:

- `arith.dfy`: module `Arith`, with powers, powers of two, bits and the
  uniqueness of Euclidean division.
- `gates.dfy`: module `Gates`, with the field and the gates.
- `exponentiate.dfy`, `cubic.dfy`, `ecdsa.dfy`: one module per circuit.

The exponentiation `Define` and the ECDSA loops are imperative methods with
loop invariants, because the source updates variables and arrays step by
step. The cubic `Define` is a pure function.

Two comments in `ecdsa/main.go` call for a note:

- The comment at line 36 says that window i holds a value below `2**i`. The
  code gives every window a value below `2**stride`, and
  `Ecdsa.WindowsEncodeKey` proves that bound.
- The constant at line 24 is written as `64 * 4 / 8`, and its comment names
  the ceiling division of `N*K` by `stride`. The two agree; `Ecdsa.GridSize`
  proves it.

## Model

| member | source | states |
|---|---|---|
| `Gates.Constant` | exponentiate/main.go:29 | a constant in `[0, P)` is itself; in general the result is congruent to `k` mod `P` |
| `Gates.Add` | cubic/main.go:24 | the multi-operand `Add` is the field sum of all its operands; with two operands it is `a + b` or `a + b - P` |
| `Gates.Mul` | cubic/main.go:23 | the multi-operand `Mul` is the field product of all its operands (a left fold, so `Mul(X, X, X)` is `X*X*X mod P`) |
| `Gates.MulReduced` | exponentiate/main.go:35-36 | multiplying two already reduced values gives the reduced integer product |
| `Gates.Select` | exponentiate/main.go:35 | `Select(c, a, b)` is `a` when `c` is 1 and `b` when `c` is 0 |
| `Gates.AssertIsEqual` | exponentiate/main.go:38 | the assertion holds iff `a - b` is zero in the field, which for canonical elements is `a == b` |
| `Gates.ToBinary` | exponentiate/main.go:30 | `ToBinary(v, n)` has exactly `n` entries, entry i is bit i of `v`, and the bits recompose to `v mod 2^n` (high bits are dropped) |
| `Gates.BinaryUnique` | exponentiate/main.go:30 | any 0/1 sequence that recomposes to `v mod 2^n` is `ToBinary(v, n)`, so the decomposition is unique |
| `Gates.ToBinaryExact` | ecdsa/main.go:22 | when `v < 2^n`, the bits recompose to `v` itself |
| `Gates.FromBinaryBound` | ecdsa/main.go:40 | `n` bits recompose to a value in `[0, 2^n)` |
| `Gates.FromBinaryAppend` | ecdsa/main.go:43-44 | appending bit string `t` after `s` adds `t`'s value times `2^|s|` |
| `Exponentiate.SecretHidden` | exponentiate/main.go:16-19 | the verifier's view forgets exactly the secret `E`: two witnesses have the same public part iff they agree on `X` and `Y`, and changing `E` never changes it |
| `Exponentiate.Provable` | exponentiate/main.go:68-71 | a public witness `(X, Y)` can be proved iff some full witness with that public part satisfies the circuit, i.e. some secret `E` exists |
| `Exponentiate.SquareStep` | exponentiate/main.go:36 | squaring keeps `multiply == X^(2^i) mod P` from one iteration to the next |
| `Exponentiate.MultiplyStep` | exponentiate/main.go:35 | the `Select` step turns `output == X^(E mod 2^i)` into `X^(E mod 2^(i+1))`, multiplying by `multiply` exactly when bit i is 1 |
| `Exponentiate.Define` | exponentiate/main.go:24-41 | starting from `output = 1` and `multiply = X`, the loop over the 8 bits of `E` ends with `output == X^(E mod 256) mod P`; the assertion holds iff `Y` equals that |
| `Exponentiate.RelationMeaning` | exponentiate/main.go:38 | the assertion holds iff `Y == X^(E mod 256) mod P`, and for `E < 256` iff `Y == X^E mod P` |
| `Exponentiate.LowBitsOnly` | exponentiate/main.go:12 | when `E + 256 < P`, `E` and `E + 256` give the same output: only the 8 low bits of `E` are used |
| `Exponentiate.ZeroExponent` | exponentiate/main.go:29 | `E = 0` gives output 1 for every `X` |
| `Exponentiate.SampleWitness` | exponentiate/main.go:57-71 | the witness `X = 3, E = 10, Y = 59049` satisfies the circuit; its public part is `X = 3, Y = 59049`, for which a secret exponent exists |
| `Cubic.Define` | cubic/main.go:22-26 | the circuit built from `Mul` and `Add` holds iff `Y == X^3 + X + 5 mod P` |
| `Cubic.SecretHidden` | cubic/main.go:14-17 | the verifier's view forgets exactly the secret `X`: two witnesses have the same public part iff they agree on `Y`, and changing `X` never changes it |
| `Cubic.Provable` | cubic/main.go:49-51 | a public `Y` can be proved iff some full witness with that public part satisfies the circuit, i.e. some secret `X` exists |
| `Cubic.CubeGate` | cubic/main.go:23 | the three-operand product is `X*X*X mod P` |
| `Cubic.OutputDetermined` | cubic/main.go:24 | two satisfying witnesses with the same `X` have the same `Y`, so the public output is a function of the secret input |
| `Cubic.OutputExists` | cubic/main.go:24 | every `X` has a satisfying `Y` |
| `Cubic.SampleWitness` | cubic/main.go:40-51 | `X = 3, Y = 35` satisfies the circuit and its public part is `Y = 35`; `X = 3, Y = 36` does not satisfy it |
| `Ecdsa.DivCeil` | ecdsa/main.go:24 | the result is the least multiple count of `b` that covers `a` |
| `Ecdsa.GridSize` | ecdsa/main.go:24 | `numStrides` is the ceiling of `N*K / stride`, and `numStrides * stride == N * K == 256` |
| `Ecdsa.KeyCell` | ecdsa/main.go:43-44 | for `i < numStrides` and `j < stride`, `bitIdx1 < K` and `bitIdx2 < N`, and `bitIdx1 * N + bitIdx2 == i * stride + j` |
| `Ecdsa.WindowCell` | ecdsa/main.go:43-44 | the inverse index map sends key bit `(a, b)` to a window cell inside the grid |
| `Ecdsa.CellBijection` | ecdsa/main.go:43-44 | the map `(i, j) -> (bitIdx1, bitIdx2)` and its inverse compose to the identity both ways, a bijection between the two grids |
| `Ecdsa.RegroupKeepsBitOrder` | ecdsa/main.go:39-47 | the 32 windows read in order are exactly the 4 limbs' bits read in order |
| `Ecdsa.FlattenIndex` | ecdsa/main.go:43-44 | in rows of equal width `w`, row `r`, column `c` is flat position `r*w + c` |
| `Ecdsa.FlattenValue` | ecdsa/main.go:36 | the value of the concatenated rows is the sum of the row values, row r weighted by `2^(w*r)` |
| `Ecdsa.LimbsValue` | ecdsa/main.go:20-23 | the bit rows of the limbs, each weighted by `2^(64*r)`, give the key scalar |
| `Ecdsa.DecomposeKey` | ecdsa/main.go:20-23 | `n2b[i]` is `ToBinary(PrivteKey[i], 64)` for each of the 4 limbs: exactly 64 bits of each limb |
| `Ecdsa.CopyDummy` | ecdsa/main.go:28-34 | after both copy loops `dummy[c][i] == dummyHolder[c][i]` for `c` in `{0, 1}` and `i < K`; each loop writes only its own row |
| `Ecdsa.ConditionAlwaysTrue` | ecdsa/main.go:43-45 | for every window cell `(i, j)` with `i < 32`, `j < 8`, the `Select` condition `bitIdx1 < K` is 1, so the cell takes the key bit and never the 0 |
| `Ecdsa.FillWindow` | ecdsa/main.go:42-46 | the inner loop overwrites every entry of window i with key bit `n2b[(8i+j)/64][(8i+j)%64]`, whatever the window held before; other windows are unchanged |
| `Ecdsa.WindowsEncodeKey` | ecdsa/main.go:36-47 | in the intended state (the result of `DefineIntended`) each window holds a value below `2^8`, and the windows read as base-256 digits give the key scalar |
| `Ecdsa.Define` | ecdsa/main.go:18-50 | as written: with the declared 4-limb key, evaluation stops at window 4 on an out-of-range read of `PrivteKey[4]`; a key of at least 32 limbs would give the intended state |
| `Ecdsa.DefineOnDeclaredKey` | ecdsa/main.go:40 | a concrete 4-limb key makes `Define` stop with index 4, length 4 |
| `Ecdsa.DefineIntended` | ecdsa/main.go:39-47 | with window i allocated rather than read from a key limb, every `selectors[i][j]` is `n2b[(8i+j)/64][(8i+j)%64]`, `n2b` is the bit decomposition of the key and `dummy` is the dummy point |

## Findings

| source | as written | input that shows it | evidently intended | confidence | as-written member | corrected member |
|---|---|---|---|---|---|---|
| ecdsa/main.go:40 | each of the 32 windows starts as the bit decomposition of the key limb with the window's own index, but the key has only 4 limbs | any witness, for example the key `[1, 2, 3, 4]`: window 4 reads `PrivteKey[4]`, past the end of the 4-element array, and Go stops with an index-out-of-range panic (the file as it stands first fails to compile, because `powers` at line 25 is unused; once that is removed, and assuming `GetDummyPoint` is defined elsewhere in the package, line 40 panics at i = 4; otherwise the file does not build at all) | allocate window i as a fresh slice of `stride` entries; the inner loop overwrites all of them anyway (`Ecdsa.FillWindow`) | not executed | `Ecdsa.Define`, `Ecdsa.DefineOnDeclaredKey` | `Ecdsa.DefineIntended` |

## Left out

- mimc/main.go is not part of this model. Its `Define` and `mimcHash` only call the library's MiMC gadget and hash, whose permutation and constants are not in the repository.
- merkle/main.go is not part of this model. Tree building, proof-helper generation and proof checking are library calls; `randomStr` is time-seeded test data; the rest is buffer I/O.
- Every `main` function is left out: compile, Groth16 setup, prove, verify and printing are foreign calls and I/O. Only their sample witnesses appear, in the `SampleWitness` lemmas.
- R1CS constraints and constraint counts are left out. The gates are modelled by their values, not by the constraints they emit.
- `ToBinary` checks on the bit width are left out. The widths used (8 and 64) are far below the field's size.
- `ToBinary` is modelled by the value it returns, the `n` low bits of `v`. The recomposition constraint `sum of b_i * 2^i == v` that the gate also emits is not modelled. Under that constraint a witness with `E >= 256`, or a key limb of `2^64` or more, has no bit assignment and is rejected; in this model its high bits are dropped instead. That is why `Exponentiate.LowBitsOnly`, `Exponentiate.RelationMeaning` and `Exponentiate.Provable` accept exponents of 256 or more.
- The gate definitions state the values the library's gates produce. The library's own gate code is not part of this model.
- `GetGPowStride8Table` and its result `powers` are left out (ecdsa/main.go:25). The function is not defined in any file modelled here, and `powers` is never used.
- `GetDummyPoint` is left out (ecdsa/main.go:26). Its result is an input to the model, assumed to have the shape `[2][K]` that the `dummy` array has.
- Big integers in `dummy` are mathematical integers. Go copies `big.Int` values shallowly, so the copies share storage with `dummyHolder`; the model does not capture that sharing.
- The `PublicKey` field of the ECDSA circuit is not used by its `Define`, so it is not modelled.
- The `Select` condition `bitIdx1 < K` is a Go boolean. It is modelled as the field value 1 for true and 0 for false. Whether the library accepts a boolean there is not part of this model.
- Ecdsa.Define: takes a key of any length of at least `K` rather than exactly `K`, so that it can show when the window loop stops. The declared key length `K = 4` is the case that always stops; `Ecdsa.DefineIntended` takes exactly `K` limbs.
- Windows, limbs and `n2b` rows are Dafny sequences held in arrays. An in-place write to a Go slice element becomes replacing that sequence.
