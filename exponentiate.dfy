/** The exponentiation circuit: y == x^e, where only the low `BitSize` bits
    of the secret exponent e take part (square-and-multiply over them). */
module Exponentiate {
  import opened Arith
  import opened Gates

  /** Number of exponent bits the circuit decomposes. */
  const BitSize: nat := 8

  /** The circuit's inputs: x and y are public, e is secret. */
  datatype Circuit = Circuit(x: Felt, y: Felt, e: Felt)

  /** What the verifier is given: the inputs tagged public, x and y. */
  datatype PublicWitness = PublicWitness(x: Felt, y: Felt)

  function PublicPart(c: Circuit): PublicWitness
  {
    PublicWitness(c.x, c.y)
  }

  /** The verifier's view forgets exactly the secret exponent: two witnesses
      look the same to it iff they agree on x and y. */
  lemma SecretHidden(c1: Circuit, c2: Circuit)
    ensures PublicPart(c1) == PublicPart(c2) <==> c1.x == c2.x && c1.y == c2.y
    ensures PublicPart(c1) == PublicPart(Circuit(c1.x, c1.y, c2.e))
  {
  }

  /** Reference value: x^(e mod 2^BitSize) in the field. */
  function Expected(x: Felt, e: Felt): Felt
  {
    Pow(x, e % Pow2(BitSize)) % P
  }

  /** The relation the circuit's final assertion enforces. */
  predicate Relation(c: Circuit)
  {
    c.y == Expected(c.x, c.e)
  }

  /** The statement a proof for public inputs `w` convinces the verifier of. */
  ghost predicate Provable(w: PublicWitness): (r: bool)
    ensures r <==> exists c: Circuit :: Relation(c) && PublicPart(c) == w
  {
    exists e: Felt :: Relation(Circuit(w.x, w.y, e))
  }

  /** One squaring step keeps `multiply == x^(2^i)`. */
  lemma SquareStep(x: Felt, i: nat)
    ensures Mul(Pow(x, Pow2(i)) % P, Pow(x, Pow2(i)) % P, []) == Pow(x, Pow2(i + 1)) % P
  {
    MulReduced(Pow(x, Pow2(i)), Pow(x, Pow2(i)));
    PowSquare(x, i);
  }

  /** One Select step keeps `output == x^(e mod 2^i)`: bit i of e decides
      whether the current `multiply` is folded in. */
  lemma MultiplyStep(x: Felt, e: Felt, i: nat)
    ensures Select(Bit(e, i), Mul(Pow(x, e % Pow2(i)) % P, Pow(x, Pow2(i)) % P, []), Pow(x, e % Pow2(i)) % P)
         == Pow(x, e % Pow2(i + 1)) % P
  {
    var lo := e % Pow2(i);
    ModPow2Split(e, i);
    if Bit(e, i) == 1 {
      MulReduced(Pow(x, lo), Pow(x, Pow2(i)));
      PowAdd(x, lo, Pow2(i));
    }
  }

  /** `Define`: square-and-multiply over the low bits of e, then the
      assertion y == output. */
  method Define(c: Circuit) returns (output: Felt, holds: bool)
    ensures output == Expected(c.x, c.e)
    ensures holds <==> Relation(c)
  {
    output := Constant(1);
    var bits := ToBinary(c.e, BitSize);
    var multiply := c.x;
    var i := 0;
    while i < |bits|
      invariant 0 <= i <= |bits| == BitSize
      invariant multiply == Pow(c.x, Pow2(i)) % P
      invariant output == Pow(c.x, c.e % Pow2(i)) % P
    {
      MultiplyStep(c.x, c.e, i);
      SquareStep(c.x, i);
      output := Select(bits[i], Mul(output, multiply, []), output);
      multiply := Mul(multiply, multiply, []);
      i := i + 1;
    }
    holds := AssertIsEqual(c.y, output);
  }

  /** The assertion holds iff y is x^(e mod 256); for e below 256 that is x^e. */
  lemma RelationMeaning(c: Circuit)
    ensures Relation(c) <==> c.y == Pow(c.x, c.e % 256) % P
    ensures c.e < 256 ==> (Relation(c) <==> c.y == Pow(c.x, c.e) % P)
  {
    assert Pow2(BitSize) == 256;
  }

  /** Only the low 8 bits of e matter: e and e + 256 give the same output. */
  lemma LowBitsOnly(x: Felt, e: Felt)
    requires e + 256 < P
    ensures Expected(x, e) == Expected(x, (e + 256) as Felt)
  {
    assert Pow2(BitSize) == 256;
  }

  /** A zero exponent yields 1 whatever x is. */
  lemma ZeroExponent(x: Felt)
    ensures Expected(x, 0) == 1
  {
  }

  /** The witness used by the program: x = 3, e = 10, y = 59049, with
      public part x = 3, y = 59049. */
  lemma SampleWitness()
    ensures Relation(Circuit(3, 59049, 10))
    ensures PublicPart(Circuit(3, 59049, 10)) == PublicWitness(3, 59049)
    ensures Provable(PublicWitness(3, 59049))
  {
    assert Pow2(BitSize) == 256;
    assert Pow(3, 10) == 59049;
    assert Relation(Circuit(3, 59049, 10));
  }
}
