/** Arithmetic of polynomials modulo a fixed modulus m: what the tables of a Galois field stand for. */
module FieldTheory {
  import opened Gf2Poly

  /** A residue modulo m. */
  predicate Elem(x: nat, m: nat) {
    NBit(x) < NBit(m)
  }

  function Times(x: nat, y: nat, m: nat): nat {
    Rem(Cmul(x, y), m)
  }

  function Power(a: nat, k: nat, m: nat): nat {
    if k == 0 then 1 else Times(Power(a, k - 1, m), a, m)
  }

  /** A product of two polynomials of degree at least one. */
  ghost predicate Splits(p: nat) {
    exists a: nat, b: nat :: a >= 2 && b >= 2 && Cmul(a, b) == p
  }

  ghost predicate Irreducible(p: nat) {
    NBit(p) >= 2 && !Splits(p)
  }

  // ----- ring laws of the residues -----

  lemma TimesElem(x: nat, y: nat, m: nat)
    requires m > 0
    ensures Elem(Times(x, y, m), m)
  {
    DivisionExists(Cmul(x, y), m);
  }

  lemma TimesComm(x: nat, y: nat, m: nat)
    ensures Times(x, y, m) == Times(y, x, m)
  {
    CmulComm(x, y);
  }

  lemma TimesAssoc(x: nat, y: nat, z: nat, m: nat)
    requires m > 0
    ensures Times(Times(x, y, m), z, m) == Times(x, Times(y, z, m), m)
  {
    RemCmul(z, Cmul(x, y), m);
    RemCmul(x, Cmul(y, z), m);
    CmulComm(Rem(Cmul(x, y), m), z);
    CmulComm(Cmul(x, y), z);
    CmulAssoc(x, y, z);
  }

  lemma TimesDist(x: nat, y: nat, z: nat, m: nat)
    requires m > 0
    ensures Times(x, Xor(y, z), m) == Xor(Times(x, y, m), Times(x, z, m))
    ensures Times(Xor(y, z), x, m) == Xor(Times(y, x, m), Times(z, x, m))
  {
    CmulDistRight(x, y, z);
    CmulDistLeft(y, z, x);
    RemXor(Cmul(x, y), Cmul(x, z), m);
    RemXor(Cmul(y, x), Cmul(z, x), m);
  }

  lemma TimesUnits(x: nat, m: nat)
    requires m > 0
    ensures Times(x, 0, m) == 0 && Times(0, x, m) == 0
    ensures Elem(x, m) ==> Times(x, 1, m) == x && Times(1, x, m) == x
  {
    CmulZero(x);
    CmulOne(x);
    if Elem(x, m) {
      RemSmall(x, m);
    }
  }

  /** x*y*z in the order that brings y and z together. */
  lemma TimesSwap(x: nat, y: nat, z: nat, m: nat)
    requires m > 0
    ensures Times(Times(x, y, m), z, m) == Times(Times(x, z, m), y, m)
  {
    TimesAssoc(x, y, z, m);
    TimesComm(y, z, m);
    TimesAssoc(x, z, y, m);
  }

  /** Modulo an irreducible polynomial there are no zero divisors. The degree of y drops from call
      to call: dividing m by y leaves a smaller r, non-zero because m does not split, and x*r would
      vanish together with x*y. */
  lemma {:induction false} NoZeroDivisors(x: nat, y: nat, m: nat)
    requires Irreducible(m)
    requires Elem(x, m) && Elem(y, m) && x != 0 && y != 0
    ensures Times(x, y, m) != 0
    decreases NBit(y)
  {
    if y == 1 {
      TimesUnits(x, m);
    } else {
      DivisionExists(m, y);
      var k, r := Quot(m, y), Rem(m, y);
      if r == 0 {
        FactorOf(m, y, k);
        assert false;
      }
      NoZeroDivisors(x, r, m);
      if Times(x, y, m) == 0 {
        MultipleVanishes(x, y, k, r, m);
      }
    }
  }

  lemma FactorOf(m: nat, y: nat, k: nat)
    requires y >= 2 && Elem(y, m) && m == Xor(Cmul(y, k), 0)
    ensures Splits(m)
  {
    XorZero(Cmul(y, k));
    CmulZero(y);
    CmulOne(y);
    assert k >= 2;
  }

  /** If m == y*k + r and x*y vanishes modulo m, then so does x*r. */
  lemma MultipleVanishes(x: nat, y: nat, k: nat, r: nat, m: nat)
    requires m > 0 && m == Xor(Cmul(y, k), r) && Times(x, y, m) == 0
    ensures Times(x, r, m) == 0
  {
    TimesDist(x, Cmul(y, k), r, m);
    CmulComm(x, m);
    RemZero(Cmul(x, m), m);
    assert Times(x, m, m) == 0;
    assert Times(x, Cmul(y, k), m) == 0 by {
      CmulAssoc(x, y, k);
      CmulComm(Cmul(x, y), k);
      RemCmul(k, Cmul(x, y), m);
      CmulZero(k);
    }
    XorZero(Times(x, r, m));
  }

  lemma Cancel(x: nat, y: nat, z: nat, m: nat)
    requires Irreducible(m)
    requires Elem(x, m) && Elem(y, m) && Elem(z, m) && x != 0
    requires Times(x, y, m) == Times(x, z, m)
    ensures y == z
  {
    TimesDist(x, y, z, m);
    XorSelf(Times(x, y, m));
    NBitXor(y, z);
    XorIsZero(y, z);
    if y != z {
      NoZeroDivisors(x, Xor(y, z), m);
    }
  }

  // ----- powers -----

  lemma ModulusPositive(m: nat)
    ensures NBit(m) > 0 <==> m > 0
  {
  }

  lemma {:induction false} PowerElem(a: nat, k: nat, m: nat)
    requires NBit(m) >= 2
    ensures Elem(Power(a, k, m), m)
  {
    if k > 0 {
      TimesElem(Power(a, k - 1, m), a, m);
    }
  }

  lemma {:induction false} PowerNonZero(a: nat, k: nat, m: nat)
    requires Irreducible(m) && Elem(a, m) && a != 0
    ensures Power(a, k, m) != 0
  {
    if k > 0 {
      PowerNonZero(a, k - 1, m);
      PowerElem(a, k - 1, m);
      NoZeroDivisors(Power(a, k - 1, m), a, m);
    }
  }

  lemma {:induction false} PowerAdd(a: nat, j: nat, k: nat, m: nat)
    requires NBit(m) >= 2
    ensures Times(Power(a, j, m), Power(a, k, m), m) == Power(a, j + k, m)
  {
    hide Times, NBit;
    ModulusPositive(m);
    if k == 0 {
      PowerElem(a, j, m);
      TimesUnits(Power(a, j, m), m);
    } else {
      PowerAdd(a, j, k - 1, m);
      TimesAssoc(Power(a, j, m), Power(a, k - 1, m), a, m);
    }
  }

  lemma {:induction false} PowerTimes(a: nat, b: nat, k: nat, m: nat)
    requires NBit(m) >= 2
    ensures Power(Times(a, b, m), k, m) == Times(Power(a, k, m), Power(b, k, m), m)
  {
    if k == 0 {
      TimesUnits(1, m);
    } else {
      PowerTimes(a, b, k - 1, m);
      var p, q := Power(a, k - 1, m), Power(b, k - 1, m);
      TimesAssoc(Times(p, q, m), a, b, m);
      TimesSwap(p, q, a, m);
      TimesAssoc(Times(p, a, m), q, b, m);
    }
  }

  /** j * k, by repeated addition. */
  function Scaled(j: nat, k: nat): (r: nat)
  {
    if k == 0 then 0 else Scaled(j, k - 1) + j
  }

  lemma {:induction false} ScaledIsProduct(j: nat, k: nat)
    ensures Scaled(j, k) == j * k
  {
    if k > 0 {
      ScaledIsProduct(j, k - 1);
    }
  }

  lemma {:induction false} PowerOfPower(a: nat, j: nat, k: nat, m: nat)
    requires NBit(m) >= 2
    ensures Power(Power(a, j, m), k, m) == Power(a, Scaled(j, k), m)
    decreases k
  {
    if k > 0 {
      PowerOfPower(a, j, k - 1, m);
      PowerAdd(a, Scaled(j, k - 1), j, m);
    }
  }

  /** Equal powers of a non-zero element differ by a power equal to one. */
  lemma PowersMeet(a: nat, j: nat, k: nat, m: nat)
    requires Irreducible(m) && Elem(a, m) && a != 0 && j <= k
    requires Power(a, j, m) == Power(a, k, m)
    ensures Power(a, k - j, m) == 1
  {
    hide Times, NBit, Splits;
    ModulusPositive(m);
    PowerAdd(a, j, k - j, m);
    PowerNonZero(a, j, m);
    PowerElem(a, j, m);
    PowerElem(a, k - j, m);
    PowerElem(a, 0, m);
    TimesUnits(Power(a, j, m), m);
    Cancel(Power(a, j, m), Power(a, k - j, m), 1, m);
  }

  lemma {:induction false} PowerOfOne(k: nat, m: nat)
    requires NBit(m) >= 2
    ensures Power(1, k, m) == 1
  {
    if k > 0 {
      PowerOfOne(k - 1, m);
      TimesUnits(1, m);
    }
  }

  lemma PowerWrap(a: nat, order: nat, q: nat, r: nat, m: nat)
    requires NBit(m) >= 2 && Power(a, order, m) == 1
    ensures Power(a, Scaled(order, q) + r, m) == Power(a, r, m)
  {
    PowerOfPower(a, order, q, m);
    PowerOfOne(q, m);
    PowerAdd(a, Scaled(order, q), r, m);
    PowerElem(a, r, m);
    TimesUnits(Power(a, r, m), m);
  }

  lemma DivMod(e: nat, d: nat)
    requires d > 0
    ensures 0 <= e / d && 0 <= e % d < d && e == Scaled(d, e / d) + e % d
  {
    ScaledIsProduct(d, e / d);
  }

  /** The powers of an element of finite order repeat with that period. */
  lemma PowerCycle(a: nat, order: nat, e: nat, m: nat)
    requires NBit(m) >= 2 && order > 0 && Power(a, order, m) == 1
    ensures Power(a, e, m) == Power(a, e % order, m)
  {
    DivMod(e, order);
    PowerWrap(a, order, e / order, e % order, m);
  }
}
