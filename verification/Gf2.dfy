/** Polynomials over GF(2), coded as naturals: bit i is the coefficient of x^i.
    Addition is the exclusive or, multiplication by x is doubling. */
module Gf2 {
  import opened MachineTypes

  type Poly = nat

  function Xor(a: Poly, b: Poly): (c: Poly)
    decreases a + b
  {
    if a == 0 && b == 0 then 0
    else 2 * Xor(a / 2, b / 2) + (if a % 2 != b % 2 then 1 else 0)
  }

  /** The product of two polynomials, by Horner's rule on the bits of `q`. */
  function Mul(q: Poly, g: Poly): Poly {
    if q == 0 then 0
    else Xor(2 * Mul(q / 2, g), if q % 2 == 1 then g else 0)
  }

  /** p * x^n. */
  function Raise(p: Poly, n: nat): Poly {
    if n == 0 then p else 2 * Raise(p, n - 1)
  }

  lemma {:induction false} XorZero(a: Poly)
    ensures Xor(a, 0) == a && Xor(0, a) == a
  {
    if a > 0 { XorZero(a / 2); }
  }

  lemma {:induction false} XorCommutes(a: Poly, b: Poly)
    ensures Xor(a, b) == Xor(b, a)
    decreases a + b
  {
    if a != 0 || b != 0 { XorCommutes(a / 2, b / 2); }
  }

  /** Shifting one bit in at the low end commutes with addition. */
  lemma {:induction false} XorShift(a: Poly, b: Poly, x: nat, y: nat)
    requires x < 2 && y < 2
    ensures Xor(2 * a + x, 2 * b + y) == 2 * Xor(a, b) + (if x != y then 1 else 0)
  {
    assert (2 * a + x) / 2 == a && (2 * b + y) / 2 == b;
  }

  lemma {:induction false} XorAssociates(a: Poly, b: Poly, c: Poly)
    ensures Xor(Xor(a, b), c) == Xor(a, Xor(b, c))
    decreases a + b + c
  {
    if a == 0 && b == 0 {
      XorZero(c); XorZero(Xor(0, c));
    } else if b == 0 && c == 0 {
      XorZero(a); XorZero(Xor(a, 0));
    } else {
      XorAssociates(a / 2, b / 2, c / 2);
      XorParts(a, b); XorParts(b, c);
      XorParts(Xor(a, b), c); XorParts(a, Xor(b, c));
    }
  }

  /** The exclusive or, one bit at a time. */
  lemma {:induction false} XorParts(a: Poly, b: Poly)
    ensures Xor(a, b) / 2 == Xor(a / 2, b / 2)
    ensures Xor(a, b) % 2 == if a % 2 != b % 2 then 1 else 0
  {
  }

  /** The sum has the bits in which the numbers differ. */
  lemma {:induction false} XorBits(a: Poly, b: Poly, k: nat)
    ensures BitAt(Xor(a, b), k) <==> BitAt(a, k) != BitAt(b, k)
  {
    XorParts(a, b);
    if k == 0 {
      BitAbove(a, 0); BitAbove(b, 0); BitAbove(Xor(a, b), 0);
    } else {
      BitAbove(a, k - 1); BitAbove(b, k - 1); BitAbove(Xor(a, b), k - 1);
      hide Xor; hide BitAt;
      XorBits(a / 2, b / 2, k - 1);
    }
  }

  lemma {:induction false} XorSelf(a: Poly)
    ensures Xor(a, a) == 0
  {
    if a > 0 { XorSelf(a / 2); }
  }

  lemma {:induction false} XorCancels(a: Poly, b: Poly)
    ensures Xor(Xor(a, b), b) == a && Xor(b, Xor(b, a)) == a
  {
    XorAssociates(a, b, b); XorAssociates(b, b, a); XorSelf(b); XorZero(a);
  }

  lemma {:induction false} XorIsZeroOnlyOnEqual(a: Poly, b: Poly)
    requires Xor(a, b) == 0
    ensures a == b
  {
    XorCancels(a, b); XorZero(b);
  }

  /** (a + b) + (c + d) == (a + c) + (b + d). */
  lemma {:induction false} XorSwapsInner(a: Poly, b: Poly, c: Poly, d: Poly)
    ensures Xor(Xor(a, b), Xor(c, d)) == Xor(Xor(a, c), Xor(b, d))
  {
    XorAssociates(a, b, Xor(c, d));
    XorAssociates(b, c, d);
    XorCommutes(b, c);
    XorAssociates(c, b, d);
    XorAssociates(a, c, Xor(b, d));
  }

  /** Addition does not raise the degree. */
  lemma {:induction false} XorBound(a: Poly, b: Poly, n: nat)
    requires a < Pow2(n) && b < Pow2(n)
    ensures Xor(a, b) < Pow2(n)
  {
    if n > 0 { XorBound(a / 2, b / 2, n - 1); }
  }

  lemma {:induction false} XorKeepsHighBits(a: Poly, b: Poly, n: nat)
    requires a >= Pow2(n) && b < Pow2(n)
    ensures Xor(a, b) >= Pow2(n)
  {
    if Xor(a, b) < Pow2(n) {
      XorBound(Xor(a, b), b, n);
      XorCancels(a, b);
      assert false;
    }
  }

  /** The product, one bit of the first factor at a time: this determines it. */
  lemma {:induction false} MulParts(q: Poly, g: Poly)
    ensures Mul(q, g) == Xor(2 * Mul(q / 2, g), if q % 2 == 1 then g else 0)
  {
    XorZero(0);
  }

  lemma {:induction false} MulDistributes(p: Poly, q: Poly, g: Poly)
    ensures Mul(Xor(p, q), g) == Xor(Mul(p, g), Mul(q, g))
    decreases p + q
  {
    if p == 0 && q == 0 {
      XorZero(0);
    } else {
      MulDistributes(p / 2, q / 2, g);
      XorParts(p, q);
      MulParts(p, g); MulParts(q, g); MulParts(Xor(p, q), g);
      var a, b := Mul(p / 2, g), Mul(q / 2, g);
      var c, d := if p % 2 == 1 then g else 0, if q % 2 == 1 then g else 0;
      XorShift(a, b, 0, 0);
      XorSwapsInner(2 * a, c, 2 * b, d);
      XorSelf(g); XorZero(g); XorZero(0);
      hide Xor; hide Mul;
    }
  }

  /** A product is even exactly when the quotient is, if the constant term of g is 1;
      an even product is x times the product of the halved quotient. */
  lemma {:induction false} MulParity(q: Poly, g: Poly)
    requires g % 2 == 1
    ensures Mul(q, g) % 2 == q % 2
    ensures q % 2 == 0 ==> Mul(q, g) == 2 * Mul(q / 2, g)
  {
    if q > 0 {
      XorParts(2 * Mul(q / 2, g), if q % 2 == 1 then g else 0);
      XorZero(2 * Mul(q / 2, g));
    }
  }

  /** A nonzero multiple of g has at least the degree of g. */
  lemma {:induction false} MulDegree(q: Poly, g: Poly, n: nat)
    requires q != 0 && Pow2(n) <= g < Pow2(n + 1)
    ensures Mul(q, g) >= Pow2(n)
  {
    if q == 1 {
      XorZero(g);
      assert Mul(0, g) == 0;
    } else {
      MulDegree(q / 2, g, n);
      XorKeepsHighBits(2 * Mul(q / 2, g), if q % 2 == 1 then g else 0, n + 1);
    }
  }

  /** Division by g: quotient and remainder below the degree of g are unique. */
  lemma {:induction false} DivisionUnique(q: Poly, r: Poly, q': Poly, r': Poly, g: Poly, n: nat)
    requires Pow2(n) <= g < Pow2(n + 1) && r < Pow2(n) && r' < Pow2(n)
    ensures Xor(Mul(q, g), r) == Xor(Mul(q', g), r') ==> q == q' && r == r'
  {
    if Xor(Mul(q, g), r) == Xor(Mul(q', g), r') {
      var a, b := Mul(q, g), Mul(q', g);
      XorSelf(Xor(a, r));
      XorSwapsInner(a, r, b, r');
      assert Xor(Xor(a, b), Xor(r, r')) == 0;
      XorIsZeroOnlyOnEqual(Xor(a, b), Xor(r, r'));
      MulDistributes(q, q', g);
      XorBound(r, r', n);
      if Xor(q, q') != 0 { MulDegree(Xor(q, q'), g, n); }
      XorIsZeroOnlyOnEqual(q, q');
      XorSelf(a);
      XorIsZeroOnlyOnEqual(r, r');
    }
  }

  lemma {:induction false} RaiseIsProduct(p: Poly, n: nat)
    ensures Raise(p, n) == p * Pow2(n)
  {
    if n > 0 { RaiseIsProduct(p, n - 1); }
  }

  /** A number below 2^n is determined by its n lowest bits. */
  lemma {:induction false} BitsDetermine(a: nat, b: nat, n: nat)
    requires a < Pow2(n) && b < Pow2(n) && forall k :: 0 <= k < n ==> (BitAt(a, k) <==> BitAt(b, k))
    ensures a == b
  {
    if n > 0 {
      hide BitAt;
      forall k | 0 <= k < n - 1 ensures BitAt(a / 2, k) <==> BitAt(b / 2, k) {
        BitAbove(a, k); BitAbove(b, k);
        assert BitAt(a, k + 1) <==> BitAt(b, k + 1);
      }
      assert a / 2 < Pow2(n - 1) && b / 2 < Pow2(n - 1);
      BitsDetermine(a / 2, b / 2, n - 1);
      BitAbove(a, 0); BitAbove(b, 0);
      assert BitAt(a, 0) <==> BitAt(b, 0);
    }
  }
}
