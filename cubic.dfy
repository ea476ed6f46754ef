/** The cubic circuit: the secret x and the public y satisfy
    x^3 + x + 5 == y in the field. */
module Cubic {
  import opened Gates

  /** The circuit's inputs: x is secret (the default), y is public. */
  datatype Circuit = Circuit(x: Felt, y: Felt)

  /** The reference polynomial, evaluated in the field. */
  function Polynomial(x: Felt): Felt
  {
    (x * x * x + x + 5) % P
  }

  /** `Define`: x3 := Mul(x, x, x), then assert y == Add(x3, x, 5). */
  function Define(c: Circuit): (holds: bool)
    ensures holds <==> c.y == Polynomial(c.x)
  {
    var x3 := Mul(c.x, c.x, [c.x]);
    assert Product([c.x]) == c.x && Sum([Constant(5)]) == 5;
    assert x3 == (c.x * c.x * c.x) % P;
    ModAddLeft(c.x * c.x * c.x, c.x + 5);
    AssertIsEqual(c.y, Add(x3, c.x, [Constant(5)]))
  }

  /** The three-operand product is x^3 in the field. */
  lemma CubeGate(x: Felt)
    ensures Mul(x, x, [x]) == (x * x * x) % P
  {
    assert Product([x]) == x;
  }

  /** For each x exactly one y in the field satisfies the circuit: the public
      output is a function of the secret input. */
  lemma OutputDetermined(c1: Circuit, c2: Circuit)
    requires c1.x == c2.x && Define(c1) && Define(c2)
    ensures c1.y == c2.y
  {
  }

  lemma OutputExists(x: Felt)
    ensures Define(Circuit(x, Polynomial(x)))
  {
  }

  /** What the verifier is given: the public input y. */
  function PublicPart(c: Circuit): Felt
  {
    c.y
  }

  /** The verifier's view forgets exactly the secret x: two witnesses look
      the same to it iff they agree on y. */
  lemma SecretHidden(c1: Circuit, c2: Circuit)
    ensures PublicPart(c1) == PublicPart(c2) <==> c1.y == c2.y
    ensures PublicPart(c1) == PublicPart(Circuit(c2.x, c1.y))
  {
  }

  /** The statement a proof for public y convinces the verifier of. */
  ghost predicate Provable(y: Felt): (r: bool)
    ensures r <==> exists c: Circuit :: Define(c) && PublicPart(c) == y
  {
    exists x: Felt :: Define(Circuit(x, y))
  }

  /** The program's witness x = 3, y = 35 satisfies the circuit and its public
      part is y = 35; y = 36 with x = 3 does not. */
  lemma SampleWitness()
    ensures Define(Circuit(3, 35)) && PublicPart(Circuit(3, 35)) == 35
    ensures Provable(35)
    ensures !Define(Circuit(3, 36))
  {
    assert Define(Circuit(3, 35));
  }
}
