/** The prime field the circuit is generic over. The test instantiates it with
    the Pasta base field Fp, whose modulus is P below; nothing proved here
    depends on P being prime. */
module Field {

  const P: nat := 0x40000000000000000000000000000000224698fc094cf91b992d30ed00000001

  /** A field element, kept in canonical form. */
  type Fe = x: int | 0 <= x < P

  const Zero: Fe := 0
  const One: Fe := 1

  function Add(x: Fe, y: Fe): Fe {
    (x + y) % P
  }

  function Mul(x: Fe, y: Fe): Fe {
    (x * y) % P
  }

  /** Additive inverse. */
  function Neg(x: Fe): (r: Fe)
    ensures Add(x, r) == Zero
  {
    if x == 0 then 0 else P - x
  }

  /** `x + (-y)` vanishes exactly when the two elements are equal. */
  lemma AddNegZeroIff(x: Fe, y: Fe)
    ensures Add(x, Neg(y)) == Zero <==> x == y
  {
    if y != 0 {
      assert Add(x, Neg(y)) == (x + P - y) % P;
      if x < y {
        assert 0 < x + P - y < P;
      } else if x > y {
        assert P < x + P - y < 2 * P;
        assert (x + P - y) % P == x - y;
      }
    }
  }
}
