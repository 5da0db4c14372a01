/** The shortened Reed-Solomon code of R900: 16 data symbols, 10 implicit zeros, 5 parity symbols,
    over the field of 32 elements with modulus 37 and generator 2, roots 2^29 to 2^33. */
module R900Code {
  import opened Wrappers
  import opened Gf2Poly
  import opened FieldTheory
  import opened GaloisField
  import opened ReedSolomon

  const MODULUS: nat := 37
  const ALPHA: nat := 2
  const OFFSET: nat := 29
  const PARITY: nat := 5

  lemma CmulOdd(k: nat, b: nat)
    ensures Cmul(2 * k + 1, b) == Xor(b, 2 * Cmul(k, b))
  {
    hide Xor;
    assert (2 * k + 1) / 2 == k;
  }

  lemma Sums()
    ensures Xor(28, 56) == 36 && Xor(36, 1) == 37
  {
    LowDigit(18, 1);
    XorDouble(14, 28);
  }

  lemma SmallSums()
    ensures Xor(3, 6) == 5 && Xor(3, 10) == 9
  {
  }

  lemma MoreSums()
    ensures Xor(12, 24) == 20 && Xor(12, 40) == 36
  {
    XorDouble(6, 12);
    XorDouble(3, 6);
    XorDouble(6, 20);
    XorDouble(3, 10);
    SmallSums();
    hide Xor;
  }

  lemma SumsForFive()
    ensures Xor(11, 44) == 39 && Xor(39, 2) == 37
  {
    hide Xor;
    XorZero(2);
    XorZero(9);
    XorDigit(0, 2, 1, 1);
    XorDigit(1, 5, 0, 1);
    XorDigit(2, 11, 1, 0);
    XorDigit(5, 22, 1, 0);
    XorDigit(9, 0, 1, 1);
    XorDigit(19, 1, 1, 0);
  }

  lemma DivideByThree()
    ensures Rem(37, 3) == 1
  {
    hide Xor, Cmul, Rem;
    CmulOne(28);
    CmulOdd(1, 28);
    Sums();
    DivisionUnique(37, 3, 28, 1);
  }

  lemma DivideByFive()
    ensures Rem(37, 5) == 2
  {
    hide Xor, Cmul, Rem;
    CmulOne(11);
    CmulDouble(1, 11);
    CmulOdd(2, 11);
    SumsForFive();
    DivisionUnique(37, 5, 11, 2);
  }

  lemma DivideBySeven()
    ensures Rem(37, 7) == 1
  {
    hide Xor, Cmul, Rem;
    CmulOne(12);
    CmulOdd(1, 12);
    CmulOdd(3, 12);
    MoreSums();
    Sums();
    DivisionUnique(37, 7, 12, 1);
  }

  lemma OddNotEven(k: nat)
    requires k > 0
    ensures Rem(37, 2 * k) != 0
  {
    RemZero(37, 2 * k);
    CmulDouble(k, Quot(37, 2 * k));
  }

  lemma NoSmallDivisor(k: nat)
    requires 2 <= k < 8
    ensures Rem(37, k) != 0
  {
    hide Rem;
    DivideByThree();
    DivideByFive();
    DivideBySeven();
    OddNotEven(k / 2);
  }

  lemma ModulusIrreducible()
    ensures Irreducible(MODULUS) && NBit(MODULUS) == 6
  {
    assert NBit(37) == 6 && Pow2(3) == 8;
    hide Rem, Splits, NBit, Pow2;
    forall k | 2 <= k < Pow2(3)
      ensures Rem(MODULUS, k) != 0
    {
      NoSmallDivisor(k);
    }
    NoFactor(MODULUS, 3);
  }

  /** Multiplication by the generator on 5-bit values: a shift, with x^5 folded back to x^2 + 1. */
  function Next(v: nat): (r: nat)
    requires v < 32
    ensures r < 32
  {
    if v < 16 then 2 * v
    else if v % 4 < 2 then 2 * (v - 16) + 5
    else 2 * (v - 16) - 3
  }

  lemma FoldBack(v: nat)
    requires 16 <= v < 32
    ensures Xor(2 * v, 37) == Next(v)
  {
    hide Xor;
    var i, u := v % 2, v / 2;
    var j, w := u % 2, u / 2;
    XorDigit(u, 9, i, 0);
    XorDigit(v, 18, 0, 1);
    XorDigit(w, 4, j, 1);
    XorFour(w);
  }

  lemma XorFour(w: nat)
    requires 4 <= w < 8
    ensures Xor(w, 4) == w - 4
  {
    var l, y := w % 2, w / 2;
    assert Xor(2, 2) == 0 && Xor(3, 2) == 1;
    hide Xor;
    XorDigit(y, 2, l, 0);
    assert w == 2 * y + l && (y == 2 || y == 3);
  }

  lemma Sizes()
    ensures NBit(37) == 6 && Pow2(5) == 32 && Pow2(6) == 64
  {
  }

  lemma Twice(v: nat)
    ensures Cmul(v, 2) == 2 * v
  {
    hide Cmul;
    CmulShift(v, 1);
    assert Pow2(1) == 2 && Shl(v, 1) == 2 * v;
  }

  lemma TopOfFive(v: nat)
    requires v < 32
    ensures Meets(2 * v, Pow2(5)) <==> v >= 16
  {
    hide NBit, Pow2, Meets, Bit;
    Sizes();
    NBitBounds(2 * v, 5);
    NBitBounds(2 * v, 6);
    MeetsPower(2 * v, 5);
    TopBit(2 * v, 5);
  }

  lemma TimesTwo(v: nat)
    requires v < 32
    ensures Times(v, 2, 37) == Next(v)
  {
    hide Xor, NBit, Pow2, Cmul, Rem;
    Sizes();
    NBitBounds(v, 5);
    Twice(v);
    DoubleIsReduce(v, 5, 37);
    TopOfFive(v);
    if v >= 16 {
      FoldBack(v);
    }
  }

  /** n further doublings of v all differ from one. */
  predicate NeverOne(v: nat, n: nat)
    requires v < 32
    decreases n
  {
    n == 0 || (Next(v) != 1 && NeverOne(Next(v), n - 1))
  }

  /** The orbit of one under doubling, read from its end. */
  lemma OrbitEnd()
    ensures NeverOne(15, 7)
  {
    assert NeverOne(18, 0) && NeverOne(9, 1) && NeverOne(22, 2);
    assert NeverOne(11, 3) && NeverOne(23, 4) && NeverOne(25, 5);
    assert NeverOne(30, 6) && NeverOne(15, 7);
  }

  lemma OrbitThird()
    ensures NeverOne(31, 15)
  {
    OrbitEnd();
    assert NeverOne(21, 8) && NeverOne(24, 9) && NeverOne(12, 10);
    assert NeverOne(6, 11) && NeverOne(3, 12) && NeverOne(19, 13);
    assert NeverOne(27, 14) && NeverOne(31, 15);
  }

  lemma OrbitSecond()
    ensures NeverOne(20, 23)
  {
    OrbitThird();
    assert NeverOne(29, 16) && NeverOne(28, 17) && NeverOne(14, 18);
    assert NeverOne(7, 19) && NeverOne(17, 20) && NeverOne(26, 21);
    assert NeverOne(13, 22) && NeverOne(20, 23);
  }

  lemma Orbit()
    ensures NeverOne(1, 30)
  {
    OrbitSecond();
    assert NeverOne(10, 24) && NeverOne(5, 25) && NeverOne(16, 26);
    assert NeverOne(8, 27) && NeverOne(4, 28) && NeverOne(2, 29);
    assert NeverOne(1, 30);
  }

  lemma {:induction false} PowersNotOne(i: nat, n: nat)
    requires Power(2, i, 37) < 32 && NeverOne(Power(2, i, 37), n)
    ensures forall k :: i < k <= i + n ==> Power(2, k, 37) != 1
    decreases n
  {
    hide Times, Power;
    if n > 0 {
      PowerStep(2, i, 37);
      TimesTwo(Power(2, i, 37));
      PowersNotOne(i + 1, n - 1);
    }
  }

  /** The field of R900 exists: 37 is irreducible and 2 generates all 31 non-zero elements. */
  lemma R900FieldExists()
    ensures Irreducible(MODULUS) && NBit(MODULUS) == 6 && Elem(ALPHA, MODULUS)
    ensures Primitive(ALPHA, 31, MODULUS)
  {
    ModulusIrreducible();
    assert NBit(2) == 2;
    assert Power(2, 0, 37) == 1;
    Orbit();
    PowersNotOne(0, 30);
  }

  // ----- the code -----

  function Zeros(n: nat): (r: seq<Byte>)
    ensures |r| == n && forall i :: 0 <= i < n ==> r[i] == 0
  {
    seq(n, _ => 0)
  }

  /** 21 symbols of five bits. */
  ghost predicate Symbols(s: seq<Byte>) {
    |s| == 21 && forall i :: 0 <= i < 21 ==> s[i] < 32
  }

  /** The 31-symbol word that is checked: the middle ten positions are never sent. */
  function Word31(s: seq<Byte>): (r: seq<Byte>)
    requires |s| == 21
    ensures |r| == 31
  {
    s[..16] + Zeros(10) + s[16..]
  }

  ghost predicate Accepted(s: seq<Byte>)
    requires |s| == 21
  {
    Codeword(Word31(s), ALPHA, OFFSET, PARITY, MODULUS)
  }

  /** The polynomial with the data symbols as coefficients of x^30 down to x^15 and the parity symbols as those of
      x^4 down to 1 vanishes at x. */
  ghost predicate Vanishes(s: seq<Byte>, x: nat)
    requires |s| == 21
  {
    Xor(Times(PolyEval(s[..16], x, 37), Power(x, 15, 37), 37), PolyEval(s[16..], x, 37)) == 0
  }

  /** A word passes exactly if its polynomial vanishes at 2^29 to 2^33, in the field of 32 elements. */
  lemma AcceptedMeans(s: seq<Byte>)
    requires |s| == 21
    ensures Accepted(s) <==> forall k: nat :: 29 <= k <= 33 ==> Vanishes(s, Power(2, k, 37))
  {
    hide Times, Power, Xor, PolyEval, Vanishes, RootValue;
    if Accepted(s) {
      forall k: nat | 29 <= k <= 33
        ensures Vanishes(s, Power(2, k, 37))
      {
        RootOf(s, k);
        assert RootValue(Word31(s), ALPHA, OFFSET, k - 29, MODULUS) == 0;
      }
    } else {
      var j :| 0 <= j < 5 && RootValue(Word31(s), ALPHA, OFFSET, j, MODULUS) != 0;
      RootOf(s, 29 + j);
      assert (29 + j) - 29 == j;
    }
  }

  lemma RootOf(s: seq<Byte>, k: nat)
    requires |s| == 21 && k >= 29
    ensures RootValue(Word31(s), 2, 29, k - 29, 37) == 0 <==> Vanishes(s, Power(2, k, 37))
  {
    hide Times, Power, Xor, PolyEval;
    PaddedValue(s, Power(2, k, 37));
  }

  lemma PaddedValue(s: seq<Byte>, x: nat)
    requires |s| == 21
    ensures PolyEval(Word31(s), x, 37) == Xor(Times(PolyEval(s[..16], x, 37), Power(x, 15, 37), 37), PolyEval(s[16..], x, 37))
  {
    hide Times, Power, Xor, PolyEval;
    assert NBit(37) == 6;
    EvalConcat(s[..16], Zeros(10) + s[16..], x, 37);
    EvalConcat(Zeros(10), s[16..], x, 37);
    assert Word31(s) == s[..16] + (Zeros(10) + s[16..]);
    ZerosValue(Zeros(10), x, 37);
    XorZero(PolyEval(s[16..], x, 37));
    TimesUnits(Power(x, 5, 37), 37);
  }

  lemma {:induction false} HammingConcat(a: seq<nat>, b: seq<nat>, c: seq<nat>, d: seq<nat>)
    requires |a| == |c| && |b| == |d|
    ensures Hamming(a + b, c + d) == Hamming(a, c) + Hamming(b, d)
  {
    if a == [] {
      assert a + b == b && c + d == d;
    } else {
      HammingConcat(a[1..], b, c[1..], d);
      assert (a + b)[1..] == a[1..] + b && (c + d)[1..] == c[1..] + d;
    }
  }

  lemma {:induction false} HammingBounds(a: seq<nat>, b: seq<nat>)
    requires |a| == |b|
    ensures 0 <= Hamming(a, b) <= |a|
    ensures Hamming(a, b) == 0 <==> a == b
  {
    if a != [] {
      HammingBounds(a[1..], b[1..]);
      assert a == [a[0]] + a[1..] && b == [b[0]] + b[1..];
    }
  }

  lemma FiveBits(s: seq<nat>)
    requires forall i :: 0 <= i < |s| ==> s[i] < 32
    ensures Elems(s, MODULUS)
  {
    assert NBit(MODULUS) == 6 && Pow2(5) == 32;
    forall i | 0 <= i < |s|
      ensures Elem(s[i], MODULUS)
    {
      NBitBounds(s[i], 5);
    }
  }

  /** Two different accepted words differ in at least six of the 21 symbols; equivalently, changing
      one to five symbols of an accepted word is always detected. Six is attained whenever the data
      differ in one symbol. */
  lemma Distance6(s: seq<Byte>, t: seq<Byte>)
    requires Symbols(s) && Symbols(t) && s != t && Accepted(s) && Accepted(t)
    ensures Hamming(s, t) >= 6
    ensures Hamming(s[..16], t[..16]) == 1 ==> Hamming(s, t) == 6
  {
    hide Hamming, Power, PolyEval, Irreducible;
    R900FieldExists();
    var u, v := Word31(s), Word31(t);
    FiveBits(u);
    FiveBits(v);
    assert s == s[..16] + s[16..] && t == t[..16] + t[16..];
    assert u != v by {
      assert u[..16] == s[..16] && u[26..] == s[16..] && v[..16] == t[..16] && v[26..] == t[16..];
    }
    MinimumDistance(u, v, ALPHA, OFFSET, PARITY, 31, MODULUS);
    HammingConcat(s[..16], s[16..], t[..16], t[16..]);
    HammingConcat(s[..16] + Zeros(10), s[16..], t[..16] + Zeros(10), t[16..]);
    HammingConcat(s[..16], Zeros(10), t[..16], Zeros(10));
    HammingBounds(Zeros(10), Zeros(10));
    HammingBounds(s[16..], t[16..]);
  }

  /** The parity that completes given data is unique. */
  lemma ParityUnique(data: seq<Byte>, p: seq<Byte>, q: seq<Byte>)
    requires |data| == 16 && |p| == 5 && |q| == 5
    requires Symbols(data + p) && Symbols(data + q) && Accepted(data + p) && Accepted(data + q)
    ensures p == q
  {
    hide Hamming, PolyEval, Accepted;
    var s, t := data + p, data + q;
    assert s[16..] == p && t[16..] == q;
    if s != t {
      Distance6(s, t);
      HammingConcat(data, p, data, q);
      HammingBounds(data, data);
      HammingBounds(p, q);
    }
  }
}
