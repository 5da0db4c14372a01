/** The Reed-Solomon check: syndromes, and why five consecutive roots give distance six. */
module ReedSolomon {
  import opened Wrappers
  import opened Gf2Poly
  import opened FieldTheory
  import opened GaloisField

  /** All symbols are residues modulo m. */
  ghost predicate Elems(w: seq<nat>, m: nat) {
    forall i :: 0 <= i < |w| ==> Elem(w[i], m)
  }

  /** Value at x of the polynomial whose coefficients are w, leading coefficient first. */
  function PolyEval(w: seq<nat>, x: nat, m: nat): nat {
    if w == [] then 0 else Xor(Times(w[0], Power(x, |w| - 1, m), m), PolyEval(w[1..], x, m))
  }

  /** Value of w at the root alpha^(u+j). */
  function RootValue(w: seq<nat>, alpha: nat, u: nat, j: nat, m: nat): nat {
    PolyEval(w, Power(alpha, u + j, m), m)
  }

  /** Horner's rule. */
  lemma {:induction false} HornerStep(w: seq<nat>, v: nat, x: nat, m: nat)
    requires NBit(m) >= 2 && Elem(v, m)
    ensures PolyEval(w + [v], x, m) == Xor(Times(PolyEval(w, x, m), x, m), v)
  {
    hide Times, Xor;
    if w == [] {
      assert [v][1..] == [];
      TimesUnits(v, m);
      TimesUnits(x, m);
      XorZero(v);
    } else {
      var h, t, n := w[0], w[1..], |w| - 1;
      assert (w + [v])[1..] == t + [v];
      HornerStep(t, v, x, m);
      var p, q := Power(x, n, m), PolyEval(t, x, m);
      TimesDist(x, Times(h, p, m), q, m);
      TimesAssoc(h, p, x, m);
      PowerStep(x, n, m);
      XorAssoc(Times(h, Power(x, n + 1, m), m), Times(q, x, m), v);
    }
  }

  /** Inner loop of Syndrome: the word evaluated at one root. */
  method Horner(f: Field, message: seq<Byte>, root: int, ghost alpha: nat, ghost m: nat) returns (syn: Byte)
    requires Tables(f, alpha, m) && root >= 0 && message != []
    requires forall i :: 0 <= i < |message| ==> message[i] <= f.order
    ensures syn <= f.order && syn == PolyEval(message, Power(alpha, root, m), m)
  {
    hide Times, Power, Xor, NBit, Pow2, Splits, PolyEval, Field.Mul, Field.Exp;
    OrderIsByte(f, alpha, m);
    ghost var x := Power(alpha, root, m);
    ExpAgrees(f, alpha, m, root);
    syn := message[0];
    ByteElem(f, alpha, m, message[0]);
    FirstTerm(message, x, m);
    var k := 1;
    while k < |message|
      invariant 1 <= k <= |message|
      invariant syn <= f.order && syn == PolyEval(message[..k], x, m)
    {
      HornerRound(f, alpha, m, message[..k], message[k], syn, f.Exp(root));
      assert message[..k + 1] == message[..k] + [message[k]];
      syn := Xor(f.Mul(syn, f.Exp(root)), message[k]);
      k := k + 1;
    }
    assert message[..k] == message;
  }

  lemma HornerRound(f: Field, alpha: nat, m: nat, w: seq<nat>, v: Byte, syn: Byte, x: Byte)
    requires Tables(f, alpha, m) && v <= f.order && syn <= f.order && x <= f.order
    requires syn == PolyEval(w, x, m)
    ensures Xor(f.Mul(syn, x), v) == PolyEval(w + [v], x, m) <= f.order < 256
  {
    hide Times, Power, Xor, Pow2, Splits, PolyEval, Field.Mul;
    OrderIsByte(f, alpha, m);
    MulAgrees(f, alpha, m, syn, x);
    ByteElem(f, alpha, m, v);
    HornerStep(w, v, x, m);
    AddInRange(f, alpha, m, f.Mul(syn, x), v);
  }

  lemma RootIs(w: seq<nat>, alpha: nat, u: nat, j: nat, m: nat)
    ensures RootValue(w, alpha, u, j, m) == PolyEval(w, Power(alpha, u + j, m), m)
  {
  }

  /** The checks made on a received word, one per root, starting at root alpha^offset. */
  method Syndrome(f: Field, message: seq<Byte>, parity: int, offset: int, ghost alpha: nat, ghost m: nat)
    returns (r: Result<seq<Byte>>)
    requires Tables(f, alpha, m)
    requires forall i :: 0 <= i < |message| ==> message[i] <= f.order
    ensures r.Panic? <==> offset < 0 || offset > f.order || parity < 0 || parity > |message|
    ensures r.Ok? ==> |r.value| == parity && forall j :: 0 <= j < parity ==>
              r.value[j] == RootValue(message, alpha, offset, j, m) <= f.order
  {
    hide *;
    if offset < 0 || offset > f.order {
      return Panic;
    }
    if parity < 0 || parity > |message| {
      return Panic;
    }
    var syndrome := new Byte[parity](_ => 0);
    var idx := 0;
    while idx < parity
      invariant 0 <= idx <= parity
      invariant forall j :: 0 <= j < idx ==>
                  syndrome[j] == RootValue(message, alpha, offset, j, m) <= f.order
    {
      RootIs(message, alpha, offset, idx, m);
      var syn := Horner(f, message, offset + idx, alpha, m);
      syndrome[idx] := syn;
      idx := idx + 1;
    }
    return Ok(syndrome[..]);
  }

  lemma FirstTerm(w: seq<nat>, x: nat, m: nat)
    requires w != [] && NBit(m) >= 2 && Elem(w[0], m)
    ensures PolyEval(w[..1], x, m) == w[0]
  {
    TimesUnits(w[0], m);
    XorZero(w[0]);
    assert w[..1][1..] == [];
  }

  lemma ByteElem(f: Field, alpha: nat, m: nat, v: nat)
    requires Tables(f, alpha, m)
    ensures v <= f.order <==> Elem(v, m)
  {
    NBitBounds(v, NBit(m) - 1);
  }

  lemma AddInRange(f: Field, alpha: nat, m: nat, a: nat, b: nat)
    requires Tables(f, alpha, m) && a <= f.order && b <= f.order
    ensures Xor(a, b) <= f.order
  {
    XorBound(a, b, NBit(m) - 1);
  }

  // ----- independence of distinct locators -----

  /** Sum of y[i] * x[i]^j. */
  function LinSum(y: seq<nat>, x: seq<nat>, j: nat, m: nat): nat
    requires |x| == |y|
  {
    if y == [] then 0 else Xor(Times(y[0], Power(x[0], j, m), m), LinSum(y[1..], x[1..], j, m))
  }

  function Weight(y: seq<nat>): nat {
    if y == [] then 0 else (if y[0] != 0 then 1 else 0) + Weight(y[1..])
  }

  /** y with each coefficient multiplied by the distance of its locator from p. */
  function Shifted(y: seq<nat>, x: seq<nat>, p: nat, m: nat): (r: seq<nat>)
    requires |x| == |y|
    ensures |r| == |y| && forall i :: 0 <= i < |r| ==> r[i] == Times(y[i], Xor(x[i], p), m)
  {
    seq(|y|, i requires 0 <= i < |y| => Times(y[i], Xor(x[i], p), m))
  }

  /** Eliminating one locator combines two neighbouring sums. */
  lemma {:induction false} ShiftedSum(y: seq<nat>, x: seq<nat>, p: nat, j: nat, m: nat)
    requires |x| == |y| && NBit(m) >= 2
    ensures LinSum(Shifted(y, x, p, m), x, j, m)
         == Xor(LinSum(y, x, j + 1, m), Times(p, LinSum(y, x, j, m), m))
  {
    hide Times, Xor, Power;
    if y == [] {
      TimesUnits(p, m);
      XorZero(0);
    } else {
      ShiftedSum(y[1..], x[1..], p, j, m);
      assert Shifted(y, x, p, m)[1..] == Shifted(y[1..], x[1..], p, m);
      ShiftedTerm(y[0], x[0], p, j, m);
      var a, b := Times(y[0], Power(x[0], j + 1, m), m), Times(y[0], Power(x[0], j, m), m);
      var u, v := LinSum(y[1..], x[1..], j + 1, m), LinSum(y[1..], x[1..], j, m);
      XorSwap4(a, Times(p, b, m), u, Times(p, v, m));
      TimesDist(p, b, v, m);
    }
  }

  lemma ShiftedTerm(c: nat, x: nat, p: nat, j: nat, m: nat)
    requires NBit(m) >= 2
    ensures Times(Times(c, Xor(x, p), m), Power(x, j, m), m)
         == Xor(Times(c, Power(x, j + 1, m), m), Times(p, Times(c, Power(x, j, m), m), m))
  {
    hide Times, Xor, Power;
    var q := Power(x, j, m);
    TimesDist(c, x, p, m);
    TimesDist(q, Times(c, x, m), Times(c, p, m), m);
    TimesSwap(c, x, q, m);
    TimesAssoc(c, q, x, m);
    PowerStep(x, j, m);
    TimesSwap(c, p, q, m);
    TimesComm(Times(c, q, m), p, m);
  }

  lemma {:induction false} WeightDrops(y: seq<nat>, z: seq<nat>, p: nat)
    requires |y| == |z| && p < |y| && y[p] != 0 && z[p] == 0
    requires forall i :: 0 <= i < |y| ==> z[i] != 0 ==> y[i] != 0
    ensures Weight(z) < Weight(y)
  {
    if p == 0 {
      WeightMono(y[1..], z[1..]);
    } else {
      WeightDrops(y[1..], z[1..], p - 1);
    }
  }

  lemma {:induction false} WeightMono(y: seq<nat>, z: seq<nat>)
    requires |y| == |z| && forall i :: 0 <= i < |y| ==> z[i] != 0 ==> y[i] != 0
    ensures Weight(z) <= Weight(y)
  {
    if y != [] {
      WeightMono(y[1..], z[1..]);
    }
  }

  lemma {:induction false} WeightZero(y: seq<nat>)
    ensures Weight(y) == 0 <==> forall i :: 0 <= i < |y| ==> y[i] == 0
  {
    if y != [] {
      WeightZero(y[1..]);
    }
  }

  /** With at most one non-zero coefficient, the zeroth sum is that coefficient. */
  lemma {:induction false} SingleTerm(y: seq<nat>, x: seq<nat>, p: nat, m: nat)
    requires |x| == |y| && p < |y| && NBit(m) >= 2 && Elems(y, m)
    requires forall i :: 0 <= i < |y| && i != p ==> y[i] == 0
    ensures LinSum(y, x, 0, m) == y[p]
  {
    TimesUnits(y[0], m);
    if p == 0 {
      AllZeroSum(y[1..], x[1..], 0, m);
    } else {
      SingleTerm(y[1..], x[1..], p - 1, m);
    }
    XorZero(y[p]);
  }

  lemma {:induction false} AllZeroSum(y: seq<nat>, x: seq<nat>, j: nat, m: nat)
    requires |x| == |y| && m > 0 && forall i :: 0 <= i < |y| ==> y[i] == 0
    ensures LinSum(y, x, j, m) == 0
  {
    if y != [] {
      TimesUnits(Power(x[0], j, m), m);
      AllZeroSum(y[1..], x[1..], j, m);
      XorZero(0);
    }
  }

  ghost predicate DistinctElems(x: seq<nat>, m: nat) {
    Elems(x, m) && forall i, j :: 0 <= i < j < |x| ==> x[i] != x[j]
  }

  /** k consecutive power sums over distinct locators determine k coefficients: if they all vanish,
      a coefficient vector of weight at most k is zero. */
  lemma {:induction false} Independent(y: seq<nat>, x: seq<nat>, k: nat, m: nat)
    requires Irreducible(m) && |x| == |y| && Elems(y, m) && DistinctElems(x, m)
    requires Weight(y) <= k
    requires forall j :: 0 <= j < k ==> LinSum(y, x, j, m) == 0
    ensures forall i :: 0 <= i < |y| ==> y[i] == 0
    decreases k
  {
    WeightZero(y);
    if Weight(y) != 0 {
      hide Times, Xor, Power, NBit, Splits, Weight, LinSum;
      var p :| 0 <= p < |y| && y[p] != 0;
      var z := Shifted(y, x, x[p], m);
      ShiftedIsZeroWhere(y, x, p, m);
      WeightDrops(y, z, p);
      forall j | 0 <= j < k - 1
        ensures LinSum(z, x, j, m) == 0
      {
        ShiftedSum(y, x, x[p], j, m);
        TimesUnits(x[p], m);
        XorZero(0);
      }
      assert LinSum(y, x, 0, m) == 0;
      Independent(z, x, k - 1, m);
      SingleTerm(y, x, p, m);
    }
  }

  lemma ShiftedIsZeroWhere(y: seq<nat>, x: seq<nat>, p: nat, m: nat)
    requires Irreducible(m) && |x| == |y| && Elems(y, m) && DistinctElems(x, m) && p < |y|
    ensures Elems(Shifted(y, x, x[p], m), m)
    ensures forall i :: 0 <= i < |y| ==>
              (Shifted(y, x, x[p], m)[i] == 0 <==> i == p || y[i] == 0)
  {
    hide Times, Xor, Splits;
    forall i | 0 <= i < |y|
      ensures Elem(Shifted(y, x, x[p], m)[i], m)
      ensures Shifted(y, x, x[p], m)[i] == 0 <==> i == p || y[i] == 0
    {
      var d := Xor(x[i], x[p]);
      TimesElem(y[i], d, m);
      XorIsZero(x[i], x[p]);
      NBitXor(x[i], x[p]);
      TimesUnits(d, m);
      TimesUnits(y[i], m);
      if i != p && y[i] != 0 {
        assert x[i] != x[p];
        NoZeroDivisors(y[i], d, m);
      }
    }
  }

  // ----- syndromes of a word -----

  /** Locator of each position: the power of alpha that position contributes. */
  function Locators(alpha: nat, n: nat, m: nat): (r: seq<nat>)
    ensures |r| == n && forall i :: 0 <= i < n ==> r[i] == Power(alpha, n - 1 - i, m)
  {
    seq(n, i requires 0 <= i < n => Power(alpha, n - 1 - i, m))
  }

  /** Coefficient of each position once the first root has been factored out. */
  function Weighted(w: seq<nat>, alpha: nat, u: nat, m: nat): (r: seq<nat>)
    ensures |r| == |w|
    ensures forall i :: 0 <= i < |w| ==> r[i] == Times(w[i], Power(Power(alpha, u, m), |w| - 1 - i, m), m)
  {
    seq(|w|, i requires 0 <= i < |w| => Times(w[i], Power(Power(alpha, u, m), |w| - 1 - i, m), m))
  }

  /** The syndrome at alpha^(u+j) is the j-th power sum over the locators. */
  lemma {:induction false} SyndromeIsSum(w: seq<nat>, alpha: nat, u: nat, j: nat, m: nat)
    requires NBit(m) >= 2
    ensures RootValue(w, alpha, u, j, m)
         == LinSum(Weighted(w, alpha, u, m), Locators(alpha, |w|, m), j, m)
  {
    hide Times, Xor, Power;
    if w != [] {
      SyndromeIsSum(w[1..], alpha, u, j, m);
      assert Weighted(w, alpha, u, m)[1..] == Weighted(w[1..], alpha, u, m);
      assert Locators(alpha, |w|, m)[1..] == Locators(alpha, |w| - 1, m);
      SyndromeTerm(w[0], alpha, u, j, |w| - 1, m);
    }
  }

  lemma SyndromeTerm(c: nat, alpha: nat, u: nat, j: nat, n: nat, m: nat)
    requires NBit(m) >= 2
    ensures Times(c, Power(Power(alpha, u + j, m), n, m), m)
         == Times(Times(c, Power(Power(alpha, u, m), n, m), m), Power(Power(alpha, n, m), j, m), m)
  {
    hide Times, Power;
    var a, b := Power(alpha, u, m), Power(alpha, j, m);
    PowerAdd(alpha, u, j, m);
    PowerTimes(a, b, n, m);
    PowerOfPower(alpha, j, n, m);
    PowerOfPower(alpha, n, j, m);
    ScaledIsProduct(j, n);
    ScaledIsProduct(n, j);
    TimesAssoc(c, Power(a, n, m), Power(b, n, m), m);
  }

  lemma LocatorsDistinct(alpha: nat, n: nat, order: nat, m: nat)
    requires Irreducible(m) && Elem(alpha, m) && Primitive(alpha, order, m) && n <= order
    ensures DistinctElems(Locators(alpha, n, m), m)
  {
    hide Times, Power, NBit, Splits;
    var x := Locators(alpha, n, m);
    forall i | 0 <= i < n
      ensures Elem(x[i], m)
    {
      PowerElem(alpha, n - 1 - i, m);
    }
    forall i, j | 0 <= i < j < n
      ensures x[i] != x[j]
    {
      if x[i] == x[j] {
        PowersMeet(alpha, n - 1 - j, n - 1 - i, m);
      }
    }
  }

  /** All k syndromes starting at root alpha^u vanish. */
  ghost predicate Codeword(w: seq<nat>, alpha: nat, u: nat, k: nat, m: nat) {
    forall j :: 0 <= j < k ==> RootValue(w, alpha, u, j, m) == 0
  }

  /** A non-zero word of weight at most k, no longer than the group, is not a codeword. */
  lemma LightWordRejected(w: seq<nat>, alpha: nat, u: nat, k: nat, order: nat, m: nat)
    requires Irreducible(m) && Elem(alpha, m) && Primitive(alpha, order, m)
    requires |w| <= order && Elems(w, m)
    requires Weight(w) <= k && Codeword(w, alpha, u, k, m)
    ensures forall i :: 0 <= i < |w| ==> w[i] == 0
  {
    hide Times, Power, Xor, NBit, Splits, PolyEval, LinSum, Weight, Primitive;
    var x, y := Locators(alpha, |w|, m), Weighted(w, alpha, u, m);
    LocatorsDistinct(alpha, |w|, order, m);
    forall i | 0 <= i < |w|
      ensures Elem(y[i], m) && (y[i] == 0 <==> w[i] == 0)
    {
      CoefficientNonZero(w[i], alpha, u, |w| - 1 - i, order, m);
    }
    WeightMono(w, y);
    forall j | 0 <= j < k
      ensures LinSum(y, x, j, m) == 0
    {
      SyndromeIsSum(w, alpha, u, j, m);
    }
    Independent(y, x, k, m);
  }

  lemma CoefficientNonZero(c: nat, alpha: nat, u: nat, n: nat, order: nat, m: nat)
    requires Irreducible(m) && Elem(alpha, m) && Primitive(alpha, order, m) && Elem(c, m)
    ensures Elem(Times(c, Power(Power(alpha, u, m), n, m), m), m)
    ensures Times(c, Power(Power(alpha, u, m), n, m), m) == 0 <==> c == 0
  {
    hide Times, Power, Splits;
    var p := Power(Power(alpha, u, m), n, m);
    PowerNonZero(alpha, u, m);
    PowerElem(alpha, u, m);
    PowerNonZero(Power(alpha, u, m), n, m);
    PowerElem(Power(alpha, u, m), n, m);
    TimesElem(c, p, m);
    TimesUnits(p, m);
    if c != 0 {
      NoZeroDivisors(c, p, m);
    }
  }

  // ----- distance -----

  /** The places of a split word: the first part is multiplied by the power of x that the second part takes up. */
  lemma {:induction false} EvalConcat(a: seq<nat>, b: seq<nat>, x: nat, m: nat)
    requires NBit(m) >= 2
    ensures PolyEval(a + b, x, m) == Xor(Times(PolyEval(a, x, m), Power(x, |b|, m), m), PolyEval(b, x, m))
    decreases |a|
  {
    hide Times, Xor, Power;
    assert m > 0;
    if a == [] {
      assert a + b == b;
      TimesUnits(Power(x, |b|, m), m);
      XorZero(PolyEval(b, x, m));
    } else {
      var c := a[0];
      EvalConcat(a[1..], b, x, m);
      assert (a + b)[1..] == a[1..] + b && (a + b)[0] == c;
      var p, q := Power(x, |a| - 1, m), Power(x, |b|, m);
      PowerAdd(x, |a| - 1, |b|, m);
      TimesAssoc(c, p, q, m);
      var rest := PolyEval(a[1..], x, m);
      TimesDist(q, Times(c, p, m), rest, m);
      XorAssoc(Times(Times(c, p, m), q, m), Times(rest, q, m), PolyEval(b, x, m));
    }
  }

  lemma {:induction false} ZerosValue(z: seq<nat>, x: nat, m: nat)
    requires NBit(m) >= 2 && forall i :: 0 <= i < |z| ==> z[i] == 0
    ensures PolyEval(z, x, m) == 0
  {
    hide Times, Xor, Power;
    assert m > 0;
    if z != [] {
      ZerosValue(z[1..], x, m);
      TimesUnits(Power(x, |z| - 1, m), m);
      XorZero(0);
    }
  }

  /** Number of positions in which two words differ. */
  function Hamming(s: seq<nat>, t: seq<nat>): nat
    requires |s| == |t|
  {
    if s == [] then 0 else (if s[0] != t[0] then 1 else 0) + Hamming(s[1..], t[1..])
  }

  function Difference(s: seq<nat>, t: seq<nat>): (r: seq<nat>)
    requires |s| == |t|
    ensures |r| == |s| && forall i :: 0 <= i < |s| ==> r[i] == Xor(s[i], t[i])
  {
    seq(|s|, i requires 0 <= i < |s| => Xor(s[i], t[i]))
  }

  lemma {:induction false} DifferenceWeight(s: seq<nat>, t: seq<nat>)
    requires |s| == |t|
    ensures Weight(Difference(s, t)) == Hamming(s, t)
  {
    if s != [] {
      DifferenceWeight(s[1..], t[1..]);
      assert Difference(s, t)[1..] == Difference(s[1..], t[1..]);
      XorIsZero(s[0], t[0]);
    }
  }

  lemma {:induction false} DifferenceEval(s: seq<nat>, t: seq<nat>, x: nat, m: nat)
    requires |s| == |t| && m > 0
    ensures PolyEval(Difference(s, t), x, m) == Xor(PolyEval(s, x, m), PolyEval(t, x, m))
  {
    hide Times, Xor, Power;
    if s != [] {
      DifferenceEval(s[1..], t[1..], x, m);
      assert Difference(s, t)[1..] == Difference(s[1..], t[1..]);
      var p := Power(x, |s| - 1, m);
      TimesDist(p, s[0], t[0], m);
      XorSwap4(Times(s[0], p, m), Times(t[0], p, m), PolyEval(s[1..], x, m), PolyEval(t[1..], x, m));
    } else {
      XorZero(0);
    }
  }

  /** Two different words with k equal consecutive syndromes differ in more than k positions. */
  lemma MinimumDistance(s: seq<nat>, t: seq<nat>, alpha: nat, u: nat, k: nat, order: nat, m: nat)
    requires Irreducible(m) && Elem(alpha, m) && Primitive(alpha, order, m)
    requires |s| == |t| <= order && Elems(s, m) && Elems(t, m) && s != t
    requires forall j :: 0 <= j < k ==>
               RootValue(s, alpha, u, j, m) == RootValue(t, alpha, u, j, m)
    ensures Hamming(s, t) > k
  {
    hide Times, Power, Splits, PolyEval, Weight, Hamming, Primitive;
    var d := Difference(s, t);
    DifferenceWeight(s, t);
    forall j | 0 <= j < k
      ensures RootValue(d, alpha, u, j, m) == 0
    {
      DifferenceEval(s, t, Power(alpha, u + j, m), m);
      XorSelf(RootValue(s, alpha, u, j, m));
    }
    forall i | 0 <= i < |d|
      ensures Elem(d[i], m) && (d[i] == 0 <==> s[i] == t[i])
    {
      NBitXor(s[i], t[i]);
      XorIsZero(s[i], t[i]);
    }
    if Hamming(s, t) <= k {
      LightWordRejected(d, alpha, u, k, order, m);
      assert false;
    }
  }
}
