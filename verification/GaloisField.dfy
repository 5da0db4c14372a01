/** The Galois field package: construction of the tables and table arithmetic. */
module GaloisField {
  import opened Wrappers
  import opened Gf2Poly
  import opened FieldTheory

  // ----- polynomial helpers -----

  method CountBits(p: nat) returns (n: nat)
    ensures n == NBit(p)
    ensures p < Pow2(n) && (n > 0 ==> Pow2(n - 1) <= p)
  {
    var q := p;
    n := 0;
    while q > 0
      invariant n + NBit(q) == NBit(p)
    {
      q := q / 2;
      n := n + 1;
    }
    NBitBounds(p, n);
    if n > 0 {
      NBitBounds(p, n - 1);
    }
  }

  lemma {:induction false} TopBit(p: nat, k: nat)
    requires NBit(p) <= k + 1
    ensures Bit(p, k) <==> NBit(p) == k + 1
    decreases k
  {
    if k > 0 {
      if p > 0 {
        TopBit(p / 2, k - 1);
      } else {
        TopBit(0, k - 1);
      }
    }
  }

  /** Schoolbook division from the leading bit down; the loop ends for every non-zero divisor. */
  method PolyDiv(p: nat, q: nat) returns (r: nat)
    requires q >= 1
    ensures NBit(r) < NBit(q)
    ensures exists k: nat :: p == Xor(Cmul(q, k), r)
    ensures r == Rem(p, q)
  {
    hide *;
    var np := CountBits(p);
    var nq := CountBits(q);
    NonZeroBits(q);
    r := p;
    while np >= nq
      invariant NBit(r) <= np
      invariant Rem(r, q) == Rem(p, q)
      decreases np
    {
      DivideBit(r, q, np);
      if Bit(r, np - 1) {
        r := Xor(r, Shl(q, np - nq));
      }
      np := np - 1;
    }
    RemSmall(r, q);
    DivisionExists(p, q);
    assert p == Xor(Cmul(q, Quot(p, q)), r);
  }

  lemma NonZeroBits(q: nat)
    ensures q > 0 <==> NBit(q) > 0
  {
  }

  /** One round of the division: cancelling digit np - 1 keeps the remainder. */
  lemma DivideBit(r: nat, q: nat, np: nat)
    requires q > 0 && NBit(r) <= np && np >= NBit(q) > 0
    ensures var r' := if Bit(r, np - 1) then Xor(r, Shl(q, np - NBit(q))) else r;
            NBit(r') <= np - 1 && Rem(r', q) == Rem(r, q)
  {
    hide *;
    TopBit(r, np - 1);
    if Bit(r, np - 1) {
      var s := np - NBit(q);
      NBitShift(q, s);
      NBitXor(r, Shl(q, s));
      CmulShift(q, s);
      RemAddMultiple(r, q, Pow2(s));
    }
  }

  /** The test a & b != 0. */
  predicate Meets(a: nat, b: nat) {
    a > 0 && b > 0 && ((a % 2 == 1 && b % 2 == 1) || Meets(a / 2, b / 2))
  }

  lemma {:induction false} MeetsPower(a: nat, k: nat)
    ensures Meets(a, Pow2(k)) <==> Bit(a, k)
    decreases k
  {
    if k > 0 {
      MeetsPower(a / 2, k - 1);
    }
    MeetsZero(a / 2);
    if a == 0 {
      TopBit(0, k);
    }
  }

  lemma {:induction false} MeetsZero(a: nat)
    ensures !Meets(a, 0)
  {
  }

  /** Doubling y and folding back the digit of weight order is multiplication by x. */
  lemma DoubleIsReduce(y: nat, n: nat, m: nat)
    requires NBit(m) == n + 1 && n >= 1 && Elem(y, m)
    ensures Elem(Reduce(2 * y, m), m) && Reduce(2 * y, m) == Rem(2 * y, m)
    ensures Reduce(2 * y, m) == if Meets(2 * y, Pow2(n)) then Xor(2 * y, m) else 2 * y
  {
    TopBit(2 * y, n);
    MeetsPower(2 * y, n);
    NBitXor(2 * y, m);
    if NBit(2 * y) >= NBit(m) {
      CmulOne(m);
      RemAddMultiple(2 * y, m, 1);
      RemSmall(Xor(2 * y, m), m);
    } else {
      RemSmall(2 * y, m);
    }
  }

  /** One round of the shift-and-add product. */
  lemma MulRound(z: nat, x: nat, y: nat, y': nat, m: nat)
    requires x > 0 && NBit(m) >= 2 && Elem(y, m) && y' == Rem(2 * y, m)
    ensures Xor(z, Times(x, y, m)) == Xor(if x % 2 == 1 then Xor(z, y) else z, Times(x / 2, y', m))
  {
    var h := x / 2;
    var low := if x % 2 == 1 then y else 0;
    CmulDouble(h, y);
    RemXor(low, Cmul(h, 2 * y), m);
    RemCmul(h, 2 * y, m);
    RemSmall(low, m);
    XorAssoc(z, low, Times(h, y', m));
    XorZero(z);
  }

  /** Product in the field with modulus poly, by shifting and adding. */
  method MulMod(x: nat, y: nat, order: nat, poly: nat, ghost n: nat) returns (z: nat)
    requires n >= 1 && order == Pow2(n) && NBit(poly) == n + 1
    requires y < order
    ensures z == Times(x, y, poly)
    ensures z < order
  {
    var a, b := x, y;
    z := 0;
    NBitBounds(y, n);
    XorZero(Times(x, y, poly));
    ghost var goal := Times(x, y, poly);
    while a > 0
      invariant Elem(b, poly)
      invariant Xor(z, Times(a, b, poly)) == goal
    {
      DoubleIsReduce(b, n, poly);
      MulRound(z, a, b, Rem(2 * b, poly), poly);
      if a % 2 != 0 {
        z := Xor(z, b);
      }
      a := a / 2;
      b := 2 * b;
      if Meets(b, order) {
        b := Xor(b, poly);
      }
    }
    TimesUnits(b, poly);
    XorZero(z);
    TimesElem(x, y, poly);
    NBitBounds(z, n);
  }

  /** A splitting polynomial of n digits has a factor of at most h digits whenever 2h >= n. */
  lemma SmallFactor(p: nat, a: nat, b: nat, h: nat)
    requires a >= 2 && b >= 2 && Cmul(a, b) == p && NBit(p) <= 2 * h
    ensures (a < Pow2(h) && Rem(p, a) == 0) || (b < Pow2(h) && Rem(p, b) == 0)
  {
    NBitCmul(a, b);
    NBitBounds(a, h);
    NBitBounds(b, h);
    CmulComm(a, b);
    RemZero(p, a);
    RemZero(p, b);
  }

  /** A divisor shorter than p gives a proper splitting. */
  lemma DivisorSplits(p: nat, q: nat, h: nat)
    requires h < NBit(p) && 2 <= q < Pow2(h) && Rem(p, q) == 0
    ensures Splits(p)
  {
    RemZero(p, q);
    NBitBounds(q, h);
    XorZero(Cmul(q, Quot(p, q)));
    FactorOf(p, q, Quot(p, q));
  }

  /** If no divisor lies in the search range, p does not split. */
  lemma NoFactor(p: nat, h: nat)
    requires NBit(p) <= 2 * h
    requires forall k :: 2 <= k < Pow2(h) ==> Rem(p, k) != 0
    ensures !Splits(p)
  {
    forall a: nat, b: nat | a >= 2 && b >= 2 && Cmul(a, b) == p
      ensures false
    {
      SmallFactor(p, a, b, h);
    }
  }

  /** A polynomial of degree one lies in its own search range. */
  lemma DegreeOneRange(p: nat)
    requires NBit(p) == 2
    ensures 2 <= p < Pow2(2) && Rem(p, p) == 0
  {
    NBitBounds(p, 2);
    NBitBounds(p, 1);
    CmulOne(p);
    RemZero(p, p);
  }

  /** Trial division decides splitting exactly, except that both polynomials of degree one (which
      cannot split) are reported as reducible. */
  method Reducible(p: nat) returns (r: bool)
    ensures r <==> Splits(p) || NBit(p) == 2
  {
    hide Splits, NBit, Rem, Pow2;
    ShlNext(1, 0);
    var np := CountBits(p);
    var h := np / 2 + 1;
    var q := 2;
    while q < Pow2(h)
      invariant q >= 2
      invariant forall k :: 2 <= k < q && k < Pow2(h) ==> Rem(p, k) != 0
    {
      var s := PolyDiv(p, q);
      if s == 0 {
        if np >= 3 {
          DivisorSplits(p, q, h);
        }
        return true;
      }
      q := q + 1;
    }
    NoFactor(p, h);
    if np == 2 {
      DegreeOneRange(p);
    }
    return false;
  }

  /** Both polynomials of degree one are rejected although they do not split. */
  lemma ReducibleFailsAtDegreeOne()
    ensures NBit(2) == 2 && !Splits(2) && NBit(3) == 2 && !Splits(3)
  {
    forall a: nat, b: nat | a >= 2 && b >= 2
      ensures Cmul(a, b) != 2 && Cmul(a, b) != 3
    {
      NBitCmul(a, b);
    }
  }

  // ----- the field -----

  /** The tables are never changed once NewField has returned them. */
  datatype Field = Field(order: nat, log: seq<Byte>, exp: seq<Byte>) {

    predicate Sized() {
      && order > 0 && |log| == order + 1 && |exp| == 2 * order
      && forall x :: 0 < x <= order ==> log[x] < order
    }

    function Add(x: Byte, y: Byte): nat {
      Xor(x, y)
    }

    function Exp(e: int): Byte
      requires Sized()
    {
      if e < 0 then 0 else exp[e % order]
    }

    function Log(x: Byte): int
      requires Sized() && x <= order
    {
      if x == 0 then -1 else log[x]
    }

    function Inv(x: Byte): Byte
      requires Sized() && x <= order
    {
      if x == 0 then 0 else exp[order - log[x]]
    }

    function Mul(x: Byte, y: Byte): Byte
      requires Sized() && x <= order && y <= order
    {
      if x == 0 || y == 0 then 0 else exp[log[x] as int + log[y] as int]
    }
  }

  /** alpha generates the non-zero residues: none of its first powers returns to one. */
  ghost predicate Primitive(alpha: nat, order: nat, m: nat) {
    alpha != 0 && forall k :: 0 < k < order ==> Power(alpha, k, m) != 1
  }

  /** f holds the tables of the field with modulus m and generator alpha. */
  ghost predicate Tables(f: Field, alpha: nat, m: nat) {
    && Irreducible(m) && Elem(alpha, m)
    && f.Sized() && f.order + 1 == Pow2(NBit(m) - 1)
    && Power(alpha, f.order, m) == 1
    && (forall i :: 0 <= i < 2 * f.order ==> f.exp[i] == Power(alpha, i, m))
    && (forall i :: 0 <= i < f.order ==> 0 < f.exp[i] <= f.order && f.log[f.exp[i]] == i)
    && (forall x :: 0 < x <= f.order ==> f.exp[f.log[x]] == x)
  }

  // ----- construction -----

  function UpTo(n: nat): set<nat> {
    if n == 0 then {} else UpTo(n - 1) + {n}
  }

  lemma {:induction false} UpToSize(n: nat)
    ensures |UpTo(n)| == n && forall x :: x in UpTo(n) <==> 0 < x <= n
  {
    if n > 0 {
      UpToSize(n - 1);
    }
  }

  function Values(s: seq<nat>): set<nat> {
    set x | x in s
  }

  lemma {:induction false} ValuesSize(s: seq<nat>)
    requires forall i, j :: 0 <= i < j < |s| ==> s[i] != s[j]
    ensures |Values(s)| == |s|
  {
    if s != [] {
      var n := |s| - 1;
      ValuesSize(s[..n]);
      assert s == s[..n] + [s[n]];
      assert Values(s) == Values(s[..n]) + {s[n]};
    }
  }

  lemma SubsetSize<T>(a: set<T>, b: set<T>)
    requires a <= b
    ensures |a| <= |b|
  {
    assert b == a + (b - a);
  }

  /** Pigeonhole: n distinct values in 1..n leave none out. */
  lemma Surjective(s: seq<nat>, x: nat)
    requires forall i :: 0 <= i < |s| ==> 0 < s[i] <= |s|
    requires forall i, j :: 0 <= i < j < |s| ==> s[i] != s[j]
    requires 0 < x <= |s|
    ensures x in s
  {
    var all := UpTo(|s|);
    ValuesSize(s);
    UpToSize(|s|);
    if x !in s {
      assert Values(s) <= all - {x};
      SubsetSize(Values(s), all - {x});
    }
  }

  ghost predicate Distinct(s: seq<nat>) {
    forall i, j :: 0 <= i < j < |s| ==> s[i] != s[j]
  }

  ghost predicate FirstPowers(powers: seq<nat>, alpha: nat, m: nat) {
    forall k :: 0 <= k < |powers| ==> powers[k] == Power(alpha, k, m)
  }

  /** powers lists as many powers of alpha as there are non-zero residues, and none of them returns
      to one too early. */
  ghost predicate PowerList(powers: seq<nat>, alpha: nat, m: nat) {
    && Irreducible(m) && Elem(alpha, m) && alpha != 0
    && |powers| > 0 && |powers| + 1 == Pow2(NBit(m) - 1)
    && FirstPowers(powers, alpha, m)
    && forall k :: 0 < k < |powers| ==> powers[k] != 1
  }

  lemma PowerRange(alpha: nat, i: nat, m: nat)
    requires Irreducible(m) && Elem(alpha, m) && alpha != 0
    ensures 0 < Power(alpha, i, m) < Pow2(NBit(m) - 1)
  {
    PowerNonZero(alpha, i, m);
    PowerElem(alpha, i, m);
    NBitBounds(Power(alpha, i, m), NBit(m) - 1);
  }

  /** The powers of a generator run through all non-zero residues. */
  lemma FullCycle(powers: seq<nat>, alpha: nat, m: nat)
    requires PowerList(powers, alpha, m)
    ensures Distinct(powers)
    ensures forall i :: 0 <= i < |powers| ==> 0 < powers[i] <= |powers|
    ensures forall x :: 0 < x <= |powers| ==> x in powers
  {
    hide Power, Pow2, NBit, Splits;
    forall i | 0 <= i < |powers|
      ensures 0 < powers[i] <= |powers|
    {
      PowerRange(alpha, i, m);
    }
    forall i, j | 0 <= i < j < |powers|
      ensures powers[i] != powers[j]
    {
      assert powers[j - i] == Power(alpha, j - i, m);
      if powers[i] == powers[j] {
        PowersMeet(alpha, i, j, m);
      }
    }
    forall x | 0 < x <= |powers|
      ensures x in powers
    {
      Surjective(powers, x);
    }
  }

  /** A generator has order exactly the number of non-zero residues. */
  lemma GroupOrder(powers: seq<nat>, alpha: nat, m: nat)
    requires PowerList(powers, alpha, m)
    ensures Power(alpha, |powers|, m) == 1
  {
    FullCycle(powers, alpha, m);
    PowerRange(alpha, |powers|, m);
    assert Power(alpha, |powers|, m) in powers;
    hide Power, Pow2, NBit, Splits;
    var j :| 0 <= j < |powers| && powers[j] == Power(alpha, |powers|, m);
    assert j > 0 ==> powers[|powers| - j] == Power(alpha, |powers| - j, m);
    PowersMeet(alpha, j, |powers|, m);
  }

  /** The second copy of the exponents continues the first. */
  lemma SecondLap(alpha: nat, size: nat, k: nat, m: nat)
    requires NBit(m) >= 2 && Power(alpha, size, m) == 1
    ensures Power(alpha, size + k, m) == Power(alpha, k, m)
  {
    PowerAdd(alpha, size, k, m);
    PowerElem(alpha, k, m);
    TimesUnits(Power(alpha, k, m), m);
  }

  /** The tables after recording the given powers. */
  ghost predicate Recorded(log: seq<Byte>, exp: seq<Byte>, powers: seq<nat>, size: nat) {
    && |log| == size + 1 && |exp| == 2 * size && |powers| <= size
    && (forall k :: 0 <= k < |powers| ==> powers[k] <= size && exp[k] == powers[k])
    && (forall k :: size <= k < size + |powers| ==> exp[k] == powers[k - size])
    && (forall y :: 0 <= y <= size ==> log[y] < size)
    && (Distinct(powers) ==> forall k :: 0 <= k < |powers| ==> log[powers[k]] == k)
  }

  lemma RecordOne(log: seq<Byte>, exp: seq<Byte>, powers: seq<nat>, size: nat, x: nat)
    requires size < 256 && Recorded(log, exp, powers, size) && |powers| < size && x <= size
    ensures Recorded(log[x := |powers|], exp[|powers| := x][|powers| + size := x], powers + [x], size)
  {
    var powers' := powers + [x];
    if Distinct(powers') {
      assert powers'[|powers|] == x;
      forall k | 0 <= k < |powers|
        ensures powers[k] != x
      {
        assert powers'[k] == powers[k];
      }
      assert Distinct(powers) by {
        assert powers == powers'[..|powers|];
      }
    }
  }

  /** The state of the first loop of NewField: the powers so far are recorded and one occurs only first. */
  ghost predicate Filling(log: seq<Byte>, exp: seq<Byte>, powers: seq<nat>, size: nat, alpha: nat, m: nat) {
    FirstPowers(powers, alpha, m) && Recorded(log, exp, powers, size) && forall k :: 0 < k < |powers| ==> powers[k] != 1
  }

  lemma FillNone(log: seq<Byte>, exp: seq<Byte>, size: nat, n: nat, alpha: nat, m: nat)
    requires n >= 2 && size + 1 == Pow2(n) == |log| && |exp| == 2 * size
    requires forall y :: 0 <= y <= size ==> log[y] == 0
    ensures size >= 3 && Power(alpha, 0, m) == 1
    ensures Filling(log, exp, [], size, alpha, m)
  {
    Pow2Mono(2, n);
    assert Pow2(2) == 4;
  }

  lemma FillingMeans(log: seq<Byte>, exp: seq<Byte>, powers: seq<nat>, size: nat, alpha: nat, m: nat)
    requires Filling(log, exp, powers, size, alpha, m)
    ensures FirstPowers(powers, alpha, m) && Recorded(log, exp, powers, size)
    ensures forall k :: 0 < k < |powers| ==> powers[k] != 1
  {
  }

  lemma FillOne(log: seq<Byte>, exp: seq<Byte>, powers: seq<nat>, size: nat, alpha: nat, m: nat, x: nat)
    requires size < 256 && Filling(log, exp, powers, size, alpha, m) && |powers| < size
    requires x == Power(alpha, |powers|, m) <= size && (x != 1 || powers == [])
    ensures |log| == size + 1 && |exp| == 2 * size
    ensures Filling(log[x := |powers|], exp[|powers| := x][|powers| + size := x], powers + [x], size, alpha, m)
  {
    RecordOne(log, exp, powers, size, x);
    hide Recorded, Power;
  }

  /** Enters one power, in both laps of the exponent table. */
  method RecordPower(log: array<Byte>, exp: array<Byte>, i: nat, size: nat, x: nat)
    requires i < size < 256 && x <= size && log != exp && log.Length == size + 1 && exp.Length == 2 * size
    modifies log, exp
    ensures exp[..] == old(exp[..])[i := x][i + size := x] && log[..] == old(log[..])[x := i]
  {
    exp[i] := x;
    exp[i + size] := x;
    log[x] := i;
  }

  /** First loop of NewField: repeated multiplication by alpha until it returns to one (a panic) or
      all size powers are recorded. */
  method FillTables(log: array<Byte>, exp: array<Byte>, alpha: nat, order: nat, poly: nat, ghost n: nat)
    returns (ok: bool, ghost powers: seq<nat>)
    requires 2 <= n && order == Pow2(n) <= 256 && NBit(poly) == n + 1 && alpha < order
    requires log != exp && log.Length == order && exp.Length == 2 * (order - 1)
    requires forall y :: 0 <= y < order ==> log[y] == 0
    modifies log, exp
    ensures Filling(log[..], exp[..], powers, order - 1, alpha, poly)
    ensures ok ==> |powers| == order - 1
    ensures !ok ==> 0 < |powers| < order - 1 && Power(alpha, |powers|, poly) == 1
  {
    hide *;
    var size := order - 1;
    var x: nat := 1;
    var i := 0;
    powers := [];
    FillNone(log[..], exp[..], size, n, alpha, poly);
    while i < size
      invariant 0 <= i <= size == order - 1
      invariant x == Power(alpha, i, poly) && x < order
      invariant |powers| == i && Filling(log[..], exp[..], powers, size, alpha, poly)
    {
      if x == 1 && i != 0 {
        return false, powers;
      }
      FillOne(log[..], exp[..], powers, size, alpha, poly, x);
      RecordPower(log, exp, i, size, x);
      powers := powers + [x];
      PowerStep(alpha, i, poly);
      x := MulMod(x, alpha, order, poly, n);
      i := i + 1;
    }
    return true, powers;
  }

  lemma PowerStep(a: nat, k: nat, m: nat)
    ensures Times(Power(a, k, m), a, m) == Power(a, k + 1, m)
  {
    hide Times;
  }

  /** Last two loops of NewField: the tables must be inverse to each other. */
  method CheckTables(log: seq<Byte>, exp: seq<Byte>, size: nat) returns (ok: bool)
    requires |log| == size + 1 && |exp| == 2 * size
    requires forall k :: 0 <= k < |exp| ==> exp[k] <= size
    requires forall y :: 0 < y <= size ==> log[y] < size
    ensures ok <==> Inverse(log, exp, size)
  {
    var i := 0;
    while i < size
      invariant 0 <= i <= size
      invariant forall k :: 0 <= k < i ==> log[exp[k]] == k
      invariant forall k :: size <= k < size + i ==> log[exp[k]] == k - size
    {
      if log[exp[i]] != i {
        return false;
      }
      if log[exp[i + size]] != i {
        return false;
      }
      i := i + 1;
    }
    i := 1;
    while i <= size
      invariant 1 <= i <= size + 1
      invariant forall y :: 0 < y < i ==> exp[log[y]] == y
    {
      if exp[log[i]] != i {
        return false;
      }
      i := i + 1;
    }
    return true;
  }

  /** What the self-check of NewField accepts. */
  predicate Inverse(log: seq<Byte>, exp: seq<Byte>, size: nat)
  {
    && |log| == size + 1 && |exp| == 2 * size
    && (forall k :: 0 <= k < |exp| ==> exp[k] <= size)
    && (forall y :: 0 < y <= size ==> log[y] < size)
    && (forall k :: 0 <= k < size ==> log[exp[k]] == k)
    && (forall k :: size <= k < 2 * size ==> log[exp[k]] == k - size)
    && (forall y :: 0 < y <= size ==> exp[log[y]] == y)
  }

  /** With a generator, the tables filled by the first loop pass the self-check. */
  lemma FilledTablesPass(log: seq<Byte>, exp: seq<Byte>, powers: seq<nat>, alpha: nat, m: nat, size: nat)
    requires size < 256 && |powers| == size && PowerList(powers, alpha, m)
    requires Recorded(log, exp, powers, size)
    ensures Inverse(log[0 := size], exp, size)
    ensures Tables(Field(size, log[0 := size], exp), alpha, m)
  {
    hide Power, Pow2, NBit, Splits;
    FullCycle(powers, alpha, m);
    GroupOrder(powers, alpha, m);
    var log' := log[0 := size];
    forall k | 0 <= k < size
      ensures 0 < exp[k] <= size && exp[k] == Power(alpha, k, m) && log'[exp[k]] == k
    {
      assert exp[k] == powers[k];
    }
    forall k | size <= k < 2 * size
      ensures 0 < exp[k] <= size && exp[k] == Power(alpha, k, m) && log'[exp[k]] == k - size
    {
      SecondLap(alpha, size, k - size, m);
      assert exp[k] == powers[k - size];
    }
    forall y | 0 < y <= size
      ensures log'[y] < size && exp[log'[y]] == y
    {
      assert y in powers;
    }
  }

  lemma ZeroPowers(m: nat)
    requires NBit(m) >= 2
    ensures Power(0, 1, m) == 0
  {
    TimesUnits(1, m);
    PowerStep(0, 0, m);
  }

  /** alpha = 0 is only noticed by the self-check: 0 is recorded as a power and as non-invertible. */
  lemma ZeroGeneratorFails(log: seq<Byte>, exp: seq<Byte>, powers: seq<nat>, m: nat, size: nat)
    requires 3 <= size < 256 && |powers| == size && NBit(m) >= 2
    requires FirstPowers(powers, 0, m) && Recorded(log, exp, powers, size)
    ensures exp[1] == 0
    ensures !Inverse(log[0 := size], exp, size)
  {
    ZeroPowers(m);
    hide Power, NBit;
    assert powers[1] == Power(0, 1, m);
  }

  /** The polynomials a field of order 2^n accepts. */
  lemma ModulusDegree(poly: nat, n: nat)
    requires Pow2(n) <= poly < 2 * Pow2(n)
    ensures NBit(poly) == n + 1
  {
    NBitBounds(poly, n);
    NBitBounds(poly, n + 1);
  }

  /** Orders 1 and 2: the polynomial 1 does not split, and both polynomials of degree one are rejected. */
  lemma SmallOrders(n: nat, poly: nat)
    requires Pow2(n) <= poly < 2 * Pow2(n) && NBit(poly) == n + 1
    ensures (n == 0 <==> Pow2(n) == 1) && (n >= 2 <==> Pow2(n) >= 4) && (n >= 1 <==> Pow2(n) >= 2)
    ensures n == 0 ==> poly == 1 && !Splits(poly)
    ensures Irreducible(poly) <==> n >= 1 && !Splits(poly)
  {
    assert Pow2(0) == 1 && Pow2(1) == 2 && Pow2(2) == 4;
    Pow2Mono(if n < 2 then n else 2, if n < 2 then 2 else n);
    if n == 0 {
      forall a: nat, b: nat | a >= 2 && b >= 2
        ensures Cmul(a, b) != 1
      {
        NBitCmul(a, b);
      }
    }
  }

  /** What the filled tables come to: they pass the self-check exactly if the generator is not zero. */
  lemma FilledOutcome(log: seq<Byte>, exp: seq<Byte>, powers: seq<nat>, alpha: nat, m: nat, size: nat)
    requires 3 <= size < 256 && |powers| == size && NBit(m) >= 2 && size + 1 == Pow2(NBit(m) - 1)
    requires Filling(log, exp, powers, size, alpha, m) && Irreducible(m) && Elem(alpha, m)
    ensures |log| == size + 1 && |exp| == 2 * size
    ensures (forall k :: 0 <= k < |exp| ==> exp[k] <= size) && (forall y :: 0 <= y <= size ==> log[y] < size)
    ensures Inverse(log[0 := size], exp, size) <==> alpha != 0
    ensures Primitive(alpha, size, m) <==> alpha != 0
    ensures alpha != 0 ==> Tables(Field(size, log[0 := size], exp), alpha, m)
  {
    hide Power, Pow2, NBit, Splits, Tables;
    FillingMeans(log, exp, powers, size, alpha, m);
    if alpha == 0 {
      ZeroGeneratorFails(log, exp, powers, m, size);
    } else {
      FilledTablesPass(log, exp, powers, alpha, m, size);
    }
  }

  /** Builds the field, or panics. It returns exactly when the polynomial is irreducible of the right
      degree and alpha generates every non-zero element, and then the tables are right. */
  method NewField(order: int, poly: int, alpha: int, ghost n: nat) returns (r: Result<Field>)
    requires 1 <= order <= 256 ==> order == Pow2(n)
    ensures r.Ok? <==>
            || (order == 1 && poly == 1)
            || (1 <= order <= 256 && order <= poly < 2 * order && n >= 2 && Irreducible(poly)
                && 0 <= alpha < order && Primitive(alpha, order - 1, poly))
    ensures r.Ok? ==> r.value.order == order - 1
    ensures r.Ok? && order > 1 ==> Tables(r.value, alpha, poly)
  {
    hide Power, Pow2, NBit, Splits, Filling, Tables, Primitive, Inverse;
    if order < 0 || order > 256 {
      return Panic;
    }
    if poly < order || poly >= 2 * order {
      return Panic;
    }
    ModulusDegree(poly, n);
    SmallOrders(n, poly);
    var red := Reducible(poly);
    if red {
      return Panic;
    }
    if order == 1 {
      // No power is recorded and no entry is checked.
      return Ok(Field(0, [0], []));
    }
    // The second round would index the log table with alpha itself.
    if alpha < 0 || alpha >= order {
      return Panic;
    }
    NBitBounds(alpha, n);

    var size: Byte := order - 1;
    var log := new Byte[order](_ => 0);
    var exp := new Byte[2 * size](_ => 0);
    var ok;
    ghost var powers;
    ok, powers := FillTables(log, exp, alpha, order, poly, n);
    if !ok {
      NotPrimitive(alpha, |powers|, size, poly);
      return Panic;
    }
    FilledOutcome(log[..], exp[..], powers, alpha, poly, size);
    ghost var log' := log[..];
    log[0] := size;
    assert log[..] == log'[0 := size];
    ok := CheckTables(log[..], exp[..], size);
    if !ok {
      return Panic;
    }
    return Ok(Field(size, log[..], exp[..]));
  }

  lemma NotPrimitive(alpha: nat, k: nat, order: nat, m: nat)
    requires 0 < k < order && Power(alpha, k, m) == 1
    ensures !Primitive(alpha, order, m)
  {
  }

  // ----- table arithmetic -----

  lemma SizeOfExp(f: Field, alpha: nat, m: nat, k: nat)
    requires Tables(f, alpha, m) && k < 2 * f.order
    ensures f.exp[k] == Power(alpha, k, m) && 0 < f.exp[k] <= f.order
  {
    hide Power, NBit, Pow2, Splits;
    if k >= f.order {
      SecondLap(alpha, f.order, k - f.order, m);
      assert f.exp[k - f.order] == Power(alpha, k - f.order, m);
    }
  }

  lemma OrderIsByte(f: Field, alpha: nat, m: nat)
    requires Tables(f, alpha, m)
    ensures f.order < 256 && NBit(m) >= 2 && m > 0
  {
    hide Power, Pow2, Splits;
    assert f.exp[f.log[f.order]] == f.order;
  }

  /** The table product agrees with carry-less multiplication modulo m, for all operands. */
  lemma MulAgrees(f: Field, alpha: nat, m: nat, x: Byte, y: Byte)
    requires Tables(f, alpha, m) && x <= f.order && y <= f.order
    ensures f.Mul(x, y) == Times(x, y, m) && f.Mul(x, y) <= f.order
  {
    hide Times, Power, NBit, Pow2, Splits;
    OrderIsByte(f, alpha, m);
    if x == 0 {
      TimesUnits(y, m);
    } else if y == 0 {
      TimesUnits(x, m);
    } else {
      var i: nat, j: nat := f.log[x], f.log[y];
      assert x == f.exp[i] && y == f.exp[j];
      PowerAdd(alpha, i, j, m);
      SizeOfExp(f, alpha, m, i + j);
    }
  }

  /** The table inverse is an inverse for carry-less multiplication modulo m. */
  lemma InvAgrees(f: Field, alpha: nat, m: nat, x: Byte)
    requires Tables(f, alpha, m) && 0 < x <= f.order
    ensures Times(x, f.Inv(x), m) == 1 && 0 < f.Inv(x) <= f.order
  {
    hide Times, Power, NBit, Pow2, Splits;
    var i: nat := f.log[x];
    assert x == Power(alpha, i, m);
    SizeOfExp(f, alpha, m, f.order - i);
    PowerAdd(alpha, i, f.order - i, m);
  }

  /** Exp is the exponential to base alpha, for every exponent. */
  lemma ExpAgrees(f: Field, alpha: nat, m: nat, e: nat)
    requires Tables(f, alpha, m)
    ensures f.Exp(e) == Power(alpha, e, m) && 0 < f.Exp(e) <= f.order
  {
    hide Power, NBit, Pow2, Splits;
    PowerCycle(alpha, f.order, e, m);
    DivMod(e, f.order);
    SizeOfExp(f, alpha, m, e % f.order);
  }

  /** Log is the inverse of Exp in both directions. */
  lemma ExpLog(f: Field, alpha: nat, m: nat, e: nat, x: Byte)
    requires Tables(f, alpha, m) && 0 < x <= f.order
    ensures f.Exp(f.Log(x)) == x
    ensures 0 < f.Exp(e) <= f.order && f.Log(f.Exp(e)) == e % f.order
    ensures f.Log(0) == -1 && f.Inv(0) == 0 && forall n: int :: n < 0 ==> f.Exp(n) == 0
  {
    hide Power, NBit, Pow2, Splits;
    ExpAgrees(f, alpha, m, f.log[x]);
    assert x == Power(alpha, f.log[x], m);
    ExpAgrees(f, alpha, m, e);
    DivMod(e, f.order);
  }

  /** Addition of polynomials over the two-element field: a group in which every element is its own negative. */
  lemma AddLaws(f: Field, x: Byte, y: Byte, z: Byte)
    requires Xor(x, y) < 256 && Xor(y, z) < 256
    ensures f.Add(x, 0) == x && f.Add(x, x) == 0 && f.Add(x, y) == f.Add(y, x)
    ensures f.Add(f.Add(x, y), z) == f.Add(x, f.Add(y, z))
    ensures f.Add(x, y) == 0 <==> x == y
    ensures forall k: nat :: Bit(f.Add(x, y), k) <==> Bit(x, k) != Bit(y, k)
  {
    hide Xor, Bit;
    XorZero(x);
    XorSelf(x);
    XorComm(x, y);
    XorAssoc(x, y, z);
    XorIsZero(x, y);
    forall k: nat
      ensures Bit(Xor(x, y), k) <==> Bit(x, k) != Bit(y, k)
    {
      XorBits(x, y, k);
    }
  }

  lemma {:induction false} XorBits(x: nat, y: nat, k: nat)
    ensures Bit(Xor(x, y), k) <==> Bit(x, k) != Bit(y, k)
    decreases k
  {
    XorDigit(x / 2, y / 2, x % 2, y % 2);
    if k > 0 {
      XorBits(x / 2, y / 2, k - 1);
    }
  }

  /** The table product is a commutative field multiplication, distributing over Add, without zero
      divisors. */
  lemma FieldLaws(f: Field, alpha: nat, m: nat, x: Byte, y: Byte, z: Byte)
    requires Tables(f, alpha, m) && x <= f.order && y <= f.order && z <= f.order
    ensures f.Mul(x, y) == f.Mul(y, x) && f.Mul(x, y) <= f.order && f.Mul(y, z) <= f.order && f.Mul(x, z) <= f.order
    ensures f.Mul(f.Mul(x, y), z) == f.Mul(x, f.Mul(y, z))
    ensures f.Add(y, z) <= f.order && f.order < 256
    ensures f.Mul(x, f.Add(y, z)) == f.Add(f.Mul(x, y), f.Mul(x, z))
    ensures f.Mul(x, y) == 0 <==> x == 0 || y == 0
  {
    OrderIsByte(f, alpha, m);
    var n := NBit(m) - 1;
    NBitBounds(x, n);
    NBitBounds(y, n);
    NBitBounds(z, n);
    XorBound(y, z, n);
    TimesUnits(x, m);
    TimesUnits(y, m);
    hide Times, Power, NBit, Pow2, Splits, Xor, Field.Mul;
    MulAgrees(f, alpha, m, x, y);
    MulAgrees(f, alpha, m, y, x);
    MulAgrees(f, alpha, m, y, z);
    MulAgrees(f, alpha, m, x, z);
    MulAgrees(f, alpha, m, f.Mul(x, y), z);
    MulAgrees(f, alpha, m, x, f.Mul(y, z));
    MulAgrees(f, alpha, m, x, Xor(y, z));
    TimesComm(x, y, m);
    TimesAssoc(x, y, z, m);
    TimesDist(x, y, z, m);
    if x != 0 && y != 0 {
      NoZeroDivisors(x, y, m);
    }
  }
}
