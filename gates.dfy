/** The circuit-building gates the example circuits call, evaluated on a
    concrete witness: each gate is a function over integers modulo the
    BN254 scalar-field prime. The proof library that implements them is
    not part of this model, so these definitions state only the values a
    correct gate produces. */
module Gates {
  import opened Arith

  /** Order of the BN254 scalar field,
      0x30644e72e131a029b85045b68181585d2833e84879b9709143e1f593f0000001. */
  const P: nat := 21888242871839275222246405745257275088548364400416034343698204186575808495617

  /** A field element in canonical form. */
  type Felt = x: int | 0 <= x < P

  /** Sum and product of a list of integers, for the multi-operand gates. */
  function Sum(xs: seq<int>): int
  {
    if xs == [] then 0 else xs[0] + Sum(xs[1..])
  }

  function Product(xs: seq<int>): int
  {
    if xs == [] then 1 else xs[0] * Product(xs[1..])
  }

  /** Reducing a summand before the final reduction changes nothing. */
  lemma ModAddLeft(a: int, b: int)
    ensures (a % P + b) % P == (a + b) % P
  {
    DivModUnique(a + b, P, a / P + (a % P + b) / P, (a % P + b) % P);
  }

  /** Reducing a factor before the final reduction changes nothing. */
  lemma ModMulLeft(a: int, b: int)
    ensures (a % P * b) % P == (a * b) % P
  {
    var q, r := a / P, a % P;
    assert a * b == (q * b) * P + r * b;
    DivModUnique(a * b, P, q * b + (r * b) / P, (r * b) % P);
  }

  /** `Constant(k)`: the field element k denotes. */
  function Constant(k: int): (r: Felt)
    ensures 0 <= k < P ==> r == k
    ensures (k - r) % P == 0
  {
    k % P
  }

  /** Left fold of modular addition over `more`, starting from `acc`. */
  function FoldAdd(acc: Felt, more: seq<Felt>): Felt
    decreases |more|
  {
    if more == [] then acc else FoldAdd((acc + more[0]) % P, more[1..])
  }

  lemma {:induction false} FoldAddSum(acc: Felt, more: seq<Felt>)
    ensures FoldAdd(acc, more) == (acc + Sum(more)) % P
    decreases |more|
  {
    if more != [] {
      FoldAddSum((acc + more[0]) % P, more[1..]);
      ModAddLeft(acc + more[0], Sum(more[1..]));
    }
  }

  /** `Add(a, b, more...)`: the field sum of all operands, folded left. */
  function Add(a: Felt, b: Felt, more: seq<Felt>): (r: Felt)
    ensures r == (a + b + Sum(more)) % P
    ensures more == [] ==> r == a + b || r == a + b - P
  {
    FoldAddSum((a + b) % P, more);
    ModAddLeft(a + b, Sum(more));
    FoldAdd((a + b) % P, more)
  }

  /** Left fold of modular multiplication over `more`, starting from `acc`. */
  function FoldMul(acc: Felt, more: seq<Felt>): Felt
    decreases |more|
  {
    if more == [] then acc else FoldMul((acc * more[0]) % P, more[1..])
  }

  lemma {:induction false} FoldMulProduct(acc: Felt, more: seq<Felt>)
    ensures FoldMul(acc, more) == (acc * Product(more)) % P
    decreases |more|
  {
    if more != [] {
      FoldMulProduct((acc * more[0]) % P, more[1..]);
      ModMulLeft(acc * more[0], Product(more[1..]));
      assert acc * more[0] * Product(more[1..]) == acc * Product(more);
    }
  }

  /** `Mul(a, b, more...)`: the field product of all operands, folded left. */
  function Mul(a: Felt, b: Felt, more: seq<Felt>): (r: Felt)
    ensures r == (a * b * Product(more)) % P
  {
    FoldMulProduct((a * b) % P, more);
    ModMulLeft(a * b, Product(more));
    FoldMul((a * b) % P, more)
  }

  /** Multiplying two reduced values is reducing their integer product. */
  lemma MulReduced(a: int, b: int)
    ensures Mul(a % P, b % P, []) == (a * b) % P
  {
    calc {
      Mul(a % P, b % P, []);
      (a % P * (b % P)) % P;
      { ModMulLeft(a, b % P); }
      (a * (b % P)) % P;
      { assert a * (b % P) == b % P * a; ModMulLeft(b, a); }
      (b * a) % P;
      { assert b * a == a * b; }
      (a * b) % P;
    }
  }

  /** `Select(c, a, b)`: computed without branching as b + c * (a - b), which
      is a when c is 1 and b when c is 0. Whether c is boolean is the
      caller's concern; for other c the value is still this combination. */
  function Select(c: Felt, a: Felt, b: Felt): (r: Felt)
    ensures c == 1 ==> r == a
    ensures c == 0 ==> r == b
  {
    (b + c * (a - b)) % P
  }

  /** `AssertIsEqual(a, b)`: the constraint (a - b) * 1 == 0 in the field,
      which on canonical elements is plain equality. */
  predicate AssertIsEqual(a: Felt, b: Felt): (holds: bool)
    ensures holds <==> (a - b) % P == 0
  {
    a == b
  }

  /** Little-endian value of a list of bits. */
  function FromBinary(bits: seq<int>): int
  {
    if bits == [] then 0
    else FromBinary(bits[..|bits| - 1]) + bits[|bits| - 1] * Pow2(|bits| - 1)
  }

  /** `ToBinary(v, n)`: the n low-order bits of v, least significant first.
      Bits beyond n are dropped, so the bits recompose to v mod 2^n. */
  function ToBinary(v: Felt, n: nat): (bits: seq<Felt>)
    ensures |bits| == n
    ensures forall i :: 0 <= i < n ==> bits[i] == Bit(v, i)
    ensures FromBinary(bits) == v % Pow2(n)
  {
    ToBinaryRoundTrip(v, n);
    BitString(v, n)
  }

  function BitString(v: nat, n: nat): (bits: seq<Felt>)
  {
    seq(n, i requires 0 <= i < n => Bit(v, i) as Felt)
  }

  lemma {:induction false} ToBinaryRoundTrip(v: nat, n: nat)
    ensures FromBinary(BitString(v, n)) == v % Pow2(n)
  {
    if n > 0 {
      var bits := BitString(v, n);
      assert bits[..n - 1] == BitString(v, n - 1);
      ToBinaryRoundTrip(v, n - 1);
      ModPow2Split(v, n - 1);
    }
  }

  /** Bits drawn from {0, 1} recompose to a value below 2^|bits|. */
  lemma {:induction false} FromBinaryBound(bits: seq<int>)
    requires forall i :: 0 <= i < |bits| ==> bits[i] == 0 || bits[i] == 1
    ensures 0 <= FromBinary(bits) < Pow2(|bits|)
  {
    if bits != [] {
      FromBinaryBound(bits[..|bits| - 1]);
    }
  }

  /** Appending bits t after bits s adds t's value shifted past s. */
  lemma {:induction false} FromBinaryAppend(s: seq<int>, t: seq<int>)
    ensures FromBinary(s + t) == FromBinary(s) + Pow2(|s|) * FromBinary(t)
  {
    if t == [] {
      assert s + t == s;
    } else {
      var t', x := t[..|t| - 1], t[|t| - 1];
      assert (s + t)[..|s + t| - 1] == s + t';
      FromBinaryAppend(s, t');
      Pow2Add(|s|, |t'|);
      var a, b, c := Pow2(|s|), FromBinary(t'), Pow2(|t'|);
      ShiftedSum(a, b, x, c);
      assert FromBinary(t) == b + x * c;
      assert FromBinary(s + t) == FromBinary(s + t') + x * Pow2(|s| + |t'|);
    }
  }

  /** A bit string is the only one of its length that recomposes to its
      value: the decomposition ToBinary constrains is unique. */
  lemma {:induction false} BinaryUnique(bits: seq<int>, v: Felt)
    requires forall i :: 0 <= i < |bits| ==> bits[i] == 0 || bits[i] == 1
    requires FromBinary(bits) == v % Pow2(|bits|)
    ensures bits == ToBinary(v, |bits|)
  {
    var n := |bits|;
    if n > 0 {
      var init, b := bits[..n - 1], bits[n - 1];
      FromBinaryBound(init);
      ModPow2Split(v, n - 1);
      assert Pow2(n) == 2 * Pow2(n - 1);
      var m := Pow2(n - 1);
      // v mod 2^n is (v mod 2^(n-1)) + Bit(v, n-1) * m, and also FromBinary(init) + b * m
      // with FromBinary(init) < m, so both the low part and the top bit agree.
      DivModUnique(v % Pow2(n), m, b, FromBinary(init));
      DivModUnique(v % Pow2(n), m, Bit(v, n - 1), v % m);
      BinaryUnique(init, v);
      assert bits == ToBinary(v, n - 1) + [b];
    }
  }

  /** With n wide enough for v, the decomposition round-trips to v itself. */
  lemma ToBinaryExact(v: Felt, n: nat)
    requires v < Pow2(n)
    ensures FromBinary(ToBinary(v, n)) == v
  {
    DivModUnique(v, Pow2(n), 0, v);
  }
}
