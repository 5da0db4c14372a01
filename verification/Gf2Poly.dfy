/** Polynomials over GF(2), written the way the source writes them: the natural number with
    binary digits b(n)...b(0) stands for b(n)*x^n + ... + b(0). Addition is exclusive or,
    multiplication is carry-less. Both the Galois field and the CRC are built on this ring. */
module Gf2Poly {

  function Pow2(k: nat): (r: nat)
    ensures r >= 1
  {
    if k == 0 then 1 else 2 * Pow2(k - 1)
  }

  lemma {:induction false} Pow2Mono(j: nat, k: nat)
    requires j <= k
    ensures Pow2(j) <= Pow2(k)
    ensures j < k ==> 2 * Pow2(j) <= Pow2(k)
    decreases k
  {
    if j < k {
      Pow2Mono(j, k - 1);
    }
  }

  /** Binary digit k of p. */
  predicate Bit(p: nat, k: nat) {
    if k == 0 then p % 2 == 1 else Bit(p / 2, k - 1)
  }

  // ----- addition -----

  function Xor(a: nat, b: nat): nat
    decreases a + b
  {
    if a == 0 && b == 0 then 0 else 2 * Xor(a / 2, b / 2) + (if a % 2 == b % 2 then 0 else 1)
  }

  /** One digit of an addition. */
  lemma XorDigit(u: nat, v: nat, i: nat, j: nat)
    requires i < 2 && j < 2
    ensures Xor(2 * u + i, 2 * v + j) == 2 * Xor(u, v) + (if i == j then 0 else 1)
  {
    var a, b := 2 * u + i, 2 * v + j;
    assert a / 2 == u && b / 2 == v && a % 2 == i && b % 2 == j;
  }

  lemma {:induction false} XorComm(a: nat, b: nat)
    ensures Xor(a, b) == Xor(b, a)
    decreases a + b
  {
    if a + b > 0 {
      XorComm(a / 2, b / 2);
    }
  }

  lemma {:induction false} XorZero(a: nat)
    ensures Xor(a, 0) == a && Xor(0, a) == a
  {
    if a > 0 {
      XorZero(a / 2);
    }
  }

  lemma {:induction false} XorSelf(a: nat)
    ensures Xor(a, a) == 0
  {
    if a > 0 {
      XorSelf(a / 2);
    }
  }

  lemma {:induction false} XorAssoc(a: nat, b: nat, c: nat)
    ensures Xor(Xor(a, b), c) == Xor(a, Xor(b, c))
    decreases a + b + c
  {
    hide Xor;
    if a + b + c == 0 {
      XorZero(0);
    } else {
      XorAssoc(a / 2, b / 2, c / 2);
      var i, j, k := a % 2, b % 2, c % 2;
      XorDigit(a / 2, b / 2, i, j);
      XorDigit(b / 2, c / 2, j, k);
      XorDigit(Xor(a / 2, b / 2), c / 2, if i == j then 0 else 1, k);
      XorDigit(a / 2, Xor(b / 2, c / 2), i, if j == k then 0 else 1);
      assert 2 * (a / 2) + i == a && 2 * (b / 2) + j == b && 2 * (c / 2) + k == c;
    }
  }

  /** Adding the same polynomial twice changes nothing, so sums can be cancelled. */
  lemma XorCancel(a: nat, b: nat)
    ensures Xor(a, Xor(a, b)) == b && Xor(Xor(a, b), b) == a
  {
    XorAssoc(a, a, b);
    XorSelf(a);
    XorZero(b);
    XorAssoc(a, b, b);
    XorSelf(b);
    XorZero(a);
  }

  lemma XorIsZero(a: nat, b: nat)
    ensures Xor(a, b) == 0 <==> a == b
  {
    if Xor(a, b) == 0 {
      XorCancel(a, b);
      XorZero(a);
    }
    XorSelf(a);
  }

  /** (a + b) + (c + d) == (a + c) + (b + d). */
  lemma XorSwap4(a: nat, b: nat, c: nat, d: nat)
    ensures Xor(Xor(a, b), Xor(c, d)) == Xor(Xor(a, c), Xor(b, d))
  {
    XorAssoc(a, b, Xor(c, d));
    XorAssoc(b, c, d);
    XorComm(b, c);
    XorAssoc(c, b, d);
    XorAssoc(a, c, Xor(b, d));
  }

  lemma XorDouble(a: nat, b: nat)
    ensures Xor(2 * a, 2 * b) == 2 * Xor(a, b)
  {
    hide Xor;
    XorDigit(a, b, 0, 0);
  }

  /** p * x^k, written p << k in the source. */
  function Shl(p: nat, k: nat): nat {
    if k == 0 then p else 2 * Shl(p, k - 1)
  }

  lemma {:induction false} ShlIsProduct(p: nat, k: nat)
    ensures Shl(p, k) == p * Pow2(k)
  {
    if k > 0 {
      ShlIsProduct(p, k - 1);
      DoubleFactor(p, Pow2(k - 1));
    }
  }

  lemma DoubleFactor(p: nat, q: nat)
    ensures 2 * (p * q) == p * (2 * q)
  {
  }

  lemma ShlNext(p: nat, k: nat)
    ensures Shl(p, k + 1) == 2 * Shl(p, k) && Shl(p, 0) == p && Pow2(k + 1) == 2 * Pow2(k) && Pow2(0) == 1
  {
  }

  lemma ShlByte(p: nat)
    ensures Shl(p, 8) == 256 * p && Pow2(8) == 256
  {
    assert Pow2(8) == 256;
    ShlIsProduct(p, 8);
  }

  lemma {:induction false} ShlAdd(p: nat, j: nat, k: nat)
    ensures Shl(Shl(p, j), k) == Shl(p, j + k)
  {
    if k > 0 {
      ShlAdd(p, j, k - 1);
    }
  }

  lemma {:induction false} ShlXor(a: nat, b: nat, k: nat)
    ensures Shl(Xor(a, b), k) == Xor(Shl(a, k), Shl(b, k))
  {
    if k > 0 {
      ShlXor(a, b, k - 1);
      XorDouble(Shl(a, k - 1), Shl(b, k - 1));
    }
  }

  /** High and low parts add separately: concatenated bit strings are added piecewise. */
  lemma {:induction false} XorParts(a: nat, b: nat, c: nat, d: nat, k: nat)
    requires b < Pow2(k) && d < Pow2(k)
    ensures Xor(Shl(a, k) + b, Shl(c, k) + d) == Shl(Xor(a, c), k) + Xor(b, d)
    ensures Xor(b, d) < Pow2(k)
    decreases k
  {
    hide *;
    if k == 0 {
      ShlNext(a, 0);
      ShlNext(c, 0);
      ShlNext(Xor(a, c), 0);
      XorZero(0);
    } else {
      ShlNext(a, k - 1);
      ShlNext(c, k - 1);
      ShlNext(Xor(a, c), k - 1);
      XorParts(a, b / 2, c, d / 2, k - 1);
      XorDigit(Shl(a, k - 1) + b / 2, Shl(c, k - 1) + d / 2, b % 2, d % 2);
      XorDigit(b / 2, d / 2, b % 2, d % 2);
      assert 2 * (b / 2) + b % 2 == b && 2 * (d / 2) + d % 2 == d;
    }
  }

  lemma ShlZero(k: nat)
    ensures Shl(0, k) == 0
  {
  }

  lemma XorBound(a: nat, b: nat, k: nat)
    requires a < Pow2(k) && b < Pow2(k)
    ensures Xor(a, b) < Pow2(k)
  {
    XorParts(0, a, 0, b, k);
    ShlZero(k);
  }

  // ----- degree -----

  /** Number of significant digits: degree + 1, or 0 for the zero polynomial. */
  function NBit(p: nat): nat {
    if p == 0 then 0 else 1 + NBit(p / 2)
  }

  lemma {:induction false} NBitBounds(p: nat, k: nat)
    ensures NBit(p) <= k <==> p < Pow2(k)
    decreases p + k
  {
    if p > 0 && k > 0 {
      NBitBounds(p / 2, k - 1);
    }
  }

  lemma {:induction false} NBitXor(a: nat, b: nat)
    ensures NBit(a) < NBit(b) ==> NBit(Xor(a, b)) == NBit(b)
    ensures NBit(a) == NBit(b) > 0 ==> NBit(Xor(a, b)) < NBit(a)
    ensures NBit(Xor(a, b)) <= if NBit(a) < NBit(b) then NBit(b) else NBit(a)
    decreases a + b
  {
    XorZero(a);
    XorZero(b);
    if a > 0 && b > 0 {
      NBitXor(a / 2, b / 2);
      assert Xor(a, b) / 2 == Xor(a / 2, b / 2);
    }
  }

  lemma {:induction false} NBitShift(p: nat, k: nat)
    requires p > 0
    ensures Shl(p, k) > 0 && NBit(Shl(p, k)) == NBit(p) + k
  {
    if k > 0 {
      NBitShift(p, k - 1);
    }
  }

  // ----- multiplication -----

  function Cmul(a: nat, b: nat): nat {
    if a == 0 then 0 else Xor(if a % 2 == 1 then b else 0, 2 * Cmul(a / 2, b))
  }

  lemma {:induction false} CmulZero(a: nat)
    ensures Cmul(a, 0) == 0 && Cmul(0, a) == 0
  {
    if a > 0 {
      CmulZero(a / 2);
    }
  }

  lemma CmulOne(a: nat)
    ensures Cmul(1, a) == a && Cmul(a, 1) == a
  {
    XorZero(a);
    CmulOneRight(a);
  }

  lemma {:induction false} CmulOneRight(a: nat)
    ensures Cmul(a, 1) == a
  {
    if a > 0 {
      CmulOneRight(a / 2);
      assert Cmul(a, 1) == Xor(a % 2, 2 * (a / 2));
      LowDigit(a / 2, a % 2);
      XorComm(2 * (a / 2), a % 2);
    }
  }

  lemma {:induction false} CmulDouble(a: nat, b: nat)
    ensures Cmul(a, 2 * b) == 2 * Cmul(a, b) && Cmul(2 * a, b) == 2 * Cmul(a, b)
  {
    if a > 0 {
      CmulDouble(a / 2, b);
      XorDouble(if a % 2 == 1 then b else 0, 2 * Cmul(a / 2, b));
    }
    XorZero(2 * Cmul(a, b));
  }

  lemma {:induction false} CmulDistRight(a: nat, b: nat, c: nat)
    ensures Cmul(a, Xor(b, c)) == Xor(Cmul(a, b), Cmul(a, c))
  {
    if a > 0 {
      CmulDistRight(a / 2, b, c);
      XorDouble(Cmul(a / 2, b), Cmul(a / 2, c));
      var b0, c0 := if a % 2 == 1 then b else 0, if a % 2 == 1 then c else 0;
      XorSwap4(b0, 2 * Cmul(a / 2, b), c0, 2 * Cmul(a / 2, c));
    }
  }

  /** 2 * u + i is x * u plus the constant i. */
  lemma LowDigit(u: nat, i: nat)
    requires i < 2
    ensures 2 * u + i == Xor(2 * u, i)
  {
    XorDigit(u, 0, 0, i);
    XorZero(u);
  }

  lemma {:induction false} CmulComm(a: nat, b: nat)
    ensures Cmul(a, b) == Cmul(b, a)
  {
    CmulZero(b);
    if a > 0 {
      CmulComm(a / 2, b);
      LowDigit(a / 2, a % 2);
      XorComm(2 * (a / 2), a % 2);
      CmulDistRight(b, a % 2, 2 * (a / 2));
      CmulZero(b);
      CmulDouble(b, a / 2);
      CmulOne(b);
    }
  }

  lemma CmulDistLeft(a: nat, b: nat, c: nat)
    ensures Cmul(Xor(a, b), c) == Xor(Cmul(a, c), Cmul(b, c))
  {
    CmulComm(Xor(a, b), c);
    CmulDistRight(c, a, b);
    CmulComm(a, c);
    CmulComm(b, c);
  }

  lemma {:induction false} CmulAssoc(a: nat, b: nat, c: nat)
    ensures Cmul(Cmul(a, b), c) == Cmul(a, Cmul(b, c))
  {
    if a > 0 {
      CmulAssoc(a / 2, b, c);
      CmulDistLeft(if a % 2 == 1 then b else 0, 2 * Cmul(a / 2, b), c);
      CmulDouble(Cmul(a / 2, b), c);
      CmulZero(c);
    }
  }

  lemma {:induction false} CmulShift(a: nat, k: nat)
    ensures Cmul(a, Pow2(k)) == Shl(a, k) && Cmul(Pow2(k), a) == Shl(a, k)
  {
    CmulComm(a, Pow2(k));
    if k == 0 {
      CmulOne(a);
    } else {
      CmulShift(a, k - 1);
      CmulDouble(a, Pow2(k - 1));
    }
  }

  /** Degrees add under multiplication; in particular the ring has no zero divisors. */
  lemma {:induction false} NBitCmul(a: nat, b: nat)
    requires a > 0 && b > 0
    ensures Cmul(a, b) > 0 && NBit(Cmul(a, b)) == NBit(a) + NBit(b) - 1
  {
    hide Xor;
    var a0 := if a % 2 == 1 then b else 0;
    if a / 2 > 0 {
      NBitCmul(a / 2, b);
      NBitXor(a0, 2 * Cmul(a / 2, b));
      assert NBit(Cmul(a, b)) == NBit(a) + NBit(b) - 1;
    } else {
      assert a == 1;
      CmulOne(b);
    }
  }

  // ----- remainder -----

  /** One step of long division: cancel the leading term if it reaches the divisor's degree. */
  function Reduce(r: nat, q: nat): nat {
    if NBit(r) >= NBit(q) then Xor(r, q) else r
  }

  /** Remainder of p by q, consuming p from its leading digit down. */
  function Rem(p: nat, q: nat): nat
    decreases p
  {
    if p == 0 then 0 else Reduce(2 * Rem(p / 2, q) + p % 2, q)
  }

  /** The digit of the quotient that goes with Reduce(r, q). */
  function QuotDigit(r: nat, q: nat): nat {
    if NBit(r) >= NBit(q) then 1 else 0
  }

  /** Quotient matching Rem. */
  function Quot(p: nat, q: nat): nat
    decreases p
  {
    if p == 0 then 0
    else 2 * Quot(p / 2, q) + QuotDigit(2 * Rem(p / 2, q) + p % 2, q)
  }

  /** (a + b) + (c + b) == a + c, as used when a multiple of the divisor is cancelled. */
  lemma AddBoth(a: nat, b: nat, c: nat)
    ensures Xor(Xor(a, b), Xor(c, b)) == Xor(a, c)
  {
    XorSwap4(a, b, c, b);
    XorSelf(b);
    XorZero(Xor(a, c));
  }

  lemma AppendedDigit(r: nat, i: nat)
    requires i < 2
    ensures NBit(2 * r + i) <= NBit(r) + 1
  {
    assert (2 * r + i) / 2 == r;
  }

  /** One step of long division keeps h == q * k + r. */
  lemma DivisionStep(h: nat, i: nat, q: nat, k: nat, r: nat)
    requires q > 0 && i < 2
    requires NBit(r) < NBit(q) && h == Xor(Cmul(q, k), r)
    ensures NBit(Reduce(2 * r + i, q)) < NBit(q)
    ensures 2 * h + i == Xor(Cmul(q, 2 * k + QuotDigit(2 * r + i, q)), Reduce(2 * r + i, q))
  {
    hide NBit, Xor, Cmul;
    var m, s := Cmul(q, k), 2 * r + i;
    AppendedDigit(r, i);
    NBitXor(s, q);
    assert 2 * h + i == Xor(2 * m, s) by {
      XorDigit(m, r, 0, i);
    }
    CmulDouble(q, k);
    if NBit(s) >= NBit(q) {
      assert Cmul(q, 2 * k + 1) == Xor(2 * m, q) by {
        LowDigit(k, 1);
        CmulDistRight(q, 2 * k, 1);
        CmulOne(q);
      }
      AddBoth(2 * m, q, s);
    }
  }

  lemma DivisionOfZero(q: nat)
    requires q > 0
    ensures NBit(Rem(0, q)) < NBit(q) && Xor(Cmul(q, Quot(0, q)), Rem(0, q)) == 0
  {
    CmulZero(q);
  }

  /** Division with remainder: p == q * k + r with r of smaller degree than q. */
  lemma {:induction false} DivisionExists(p: nat, q: nat)
    requires q > 0
    ensures NBit(Rem(p, q)) < NBit(q)
    ensures p == Xor(Cmul(q, Quot(p, q)), Rem(p, q))
    decreases p
  {
    hide NBit, Xor, Cmul;
    if p == 0 {
      DivisionOfZero(q);
    } else {
      DivisionExists(p / 2, q);
      DivisionAdvance(p, q, Quot(p / 2, q), Rem(p / 2, q), Quot(p, q), Rem(p, q));
    }
  }

  lemma DivisionAdvance(p: nat, q: nat, k: nat, r: nat, k': nat, r': nat)
    requires q > 0
    requires NBit(r) < NBit(q) && p / 2 == Xor(Cmul(q, k), r)
    requires r' == Reduce(2 * r + p % 2, q) && k' == 2 * k + QuotDigit(2 * r + p % 2, q)
    ensures NBit(r') < NBit(q) && p == Xor(Cmul(q, k'), r')
  {
    hide *;
    assert 2 * (p / 2) + p % 2 == p;
    DivisionStep(p / 2, p % 2, q, k, r);
  }

  /** The remainder is the only one: it does not depend on how the division is carried out. */
  lemma DivisionUnique(p: nat, q: nat, k: nat, r: nat)
    requires q > 0 && NBit(r) < NBit(q)
    requires p == Xor(Cmul(q, k), r)
    ensures r == Rem(p, q) && k == Quot(p, q)
  {
    DivisionExists(p, q);
    var k', r' := Quot(p, q), Rem(p, q);
    XorSwap4(Cmul(q, k), r, Cmul(q, k'), r');
    XorSelf(p);
    CmulDistRight(q, k, k');
    var dk, dr := Xor(k, k'), Xor(r, r');
    assert Xor(Cmul(q, dk), dr) == 0;
    XorIsZero(Cmul(q, dk), dr);
    NBitXor(r, r');
    if dk > 0 {
      NBitCmul(q, dk);
      assert false;
    }
    CmulZero(q);
    XorIsZero(k, k');
    XorIsZero(r, r');
  }

  lemma RemSmall(p: nat, q: nat)
    requires q > 0 && NBit(p) < NBit(q)
    ensures Rem(p, q) == p
  {
    CmulZero(q);
    XorZero(p);
    DivisionUnique(p, q, 0, p);
  }

  /** Adding a multiple of the divisor does not change the remainder. */
  lemma RemAddMultiple(p: nat, q: nat, k: nat)
    requires q > 0
    ensures Rem(Xor(p, Cmul(q, k)), q) == Rem(p, q)
  {
    DivisionExists(p, q);
    var k', r := Quot(p, q), Rem(p, q);
    var m := Xor(p, Cmul(q, k));
    XorComm(p, Cmul(q, k));
    XorAssoc(Cmul(q, k), Cmul(q, k'), r);
    CmulDistRight(q, k, k');
    DivisionUnique(m, q, Xor(k, k'), r);
  }

  lemma RemXor(a: nat, b: nat, q: nat)
    requires q > 0
    ensures Rem(Xor(a, b), q) == Xor(Rem(a, q), Rem(b, q))
  {
    DivisionExists(a, q);
    DivisionExists(b, q);
    XorSwap4(Cmul(q, Quot(a, q)), Rem(a, q), Cmul(q, Quot(b, q)), Rem(b, q));
    CmulDistRight(q, Quot(a, q), Quot(b, q));
    NBitXor(Rem(a, q), Rem(b, q));
    DivisionUnique(Xor(a, b), q, Xor(Quot(a, q), Quot(b, q)), Xor(Rem(a, q), Rem(b, q)));
  }

  /** A factor may be reduced before multiplying. */
  lemma RemCmul(a: nat, b: nat, q: nat)
    requires q > 0
    ensures Rem(Cmul(a, Rem(b, q)), q) == Rem(Cmul(a, b), q)
  {
    DivisionExists(b, q);
    var k, r := Quot(b, q), Rem(b, q);
    CmulDistRight(a, Cmul(q, k), r);
    CmulComm(a, Cmul(q, k));
    CmulAssoc(q, k, a);
    XorComm(Cmul(q, Cmul(k, a)), Cmul(a, r));
    RemAddMultiple(Cmul(a, r), q, Cmul(k, a));
  }

  /** q divides exactly the products q * k. */
  lemma RemZero(p: nat, q: nat)
    requires q > 0
    ensures Rem(p, q) == 0 <==> p == Cmul(q, Quot(p, q))
    ensures forall k: nat :: p == Cmul(q, k) ==> Rem(p, q) == 0
  {
    DivisionExists(p, q);
    XorZero(Cmul(q, Quot(p, q)));
    forall k: nat | p == Cmul(q, k)
      ensures Rem(p, q) == 0 && k == Quot(p, q)
    {
      XorZero(p);
      DivisionUnique(p, q, k, 0);
    }
    XorIsZero(p, Rem(p, q));
  }
}
