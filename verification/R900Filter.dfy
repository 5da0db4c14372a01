/** The R900 matched filter: base-6 digits from four-chip windows. */
module R900Filter {
  import opened Wrappers
  import opened Stream
  import opened Demod

  // ----- digits and chip patterns -----

  /** A quantised symbol value: 0 to 2 are the inverted base patterns, 3 to 5 the patterns. */
  type Digit = d: nat | d < 6 witness 0

  /** Is chip c on in base pattern k? 1100, 1010, 1001. */
  predicate BasePattern(k: nat, c: nat)
    requires k < 3 && c < 4
  {
    c == 0 || c == k + 1
  }

  /** Is chip c on when digit d is sent? */
  predicate On(d: Digit, c: nat)
    requires c < 4
  {
    BasePattern(d % 3, c) == (d >= 3)
  }

  /** Energies of the four chips of one symbol. */
  datatype Chips = Chips(e0: int, e1: int, e2: int, e3: int) {
    function Get(c: nat): int
      requires c < 4
    {
      if c == 0 then e0 else if c == 1 then e1 else if c == 2 then e2 else e3
    }

    function Total(): int {
      e0 + e1 + e2 + e3
    }

    /** Energy in the chips that are on for digit d. */
    function OnSum(d: Digit): int {
      (if On(d, 0) then e0 else 0) + (if On(d, 1) then e1 else 0)
      + (if On(d, 2) then e2 else 0) + (if On(d, 3) then e3 else 0)
    }

    function OffSum(d: Digit): int {
      Total() - OnSum(d)
    }

    /** Correlation with base pattern k: on-chips count positively, off-chips negatively. */
    function Correlation(k: nat): int
      requires k < 3
    {
      OnSum(k + 3) - OffSum(k + 3)
    }

    /** Every on-chip of d carries more energy than every off-chip. */
    predicate Dominates(d: Digit) {
      forall c, c' :: 0 <= c < 4 && 0 <= c' < 4 && On(d, c) && !On(d, c') ==> Get(c) > Get(c')
    }
  }

  /** Absolute value. */
  function Abs(x: int): int {
    if x < 0 then -x else x
  }

  /** The pattern of largest absolute correlation, first one wins; its sign selects the inversion. */
  function Quantize(a0: int, a1: int, a2: int): Digit {
    var best1, arg1 := if Abs(a1) > Abs(a0) then a1 else a0, if Abs(a1) > Abs(a0) then 1 else 0;
    var best2, arg2 := if Abs(a2) > Abs(best1) then a2 else best1, if Abs(a2) > Abs(best1) then 2 else arg1;
    if best2 > 0 then arg2 + 3 else arg2
  }

  function DigitOf(e: Chips): Digit {
    Quantize(e.Correlation(0), e.Correlation(1), e.Correlation(2))
  }

  /** Signed correlation with the pattern of digit d. */
  function Signed(e: Chips, d: Digit): int {
    if d >= 3 then e.Correlation(d % 3) else -e.Correlation(d % 3)
  }

  /** The argmax and sign rule on any three numbers; the first of equals wins. */
  lemma QuantizeLargest(a0: int, a1: int, a2: int)
    ensures var d, a := Quantize(a0, a1, a2), [a0, a1, a2];
            && Abs(a[d % 3]) >= Abs(a0) && Abs(a[d % 3]) >= Abs(a1) && Abs(a[d % 3]) >= Abs(a2)
            && (d >= 3 <==> a[d % 3] > 0)
            && forall k :: 0 <= k < d % 3 ==> Abs(a[k]) < Abs(a[d % 3])
  {
  }

  /** The chips of the six digits: 0011, 0101, 0110 and their inversions 1100, 1010, 1001. */
  lemma ChipsOfDigits(e: Chips)
    ensures e.OnSum(0) == e.e2 + e.e3 && e.OnSum(1) == e.e1 + e.e3 && e.OnSum(2) == e.e1 + e.e2
    ensures e.OnSum(3) == e.e0 + e.e1 && e.OnSum(4) == e.e0 + e.e2 && e.OnSum(5) == e.e0 + e.e3
  {
  }

  /** What is decided is the largest correlation, counted positively. */
  lemma DecidedLargest(e: Chips, k: nat)
    requires k < 3
    ensures Signed(e, DigitOf(e)) == Abs(e.Correlation(DigitOf(e) % 3)) >= Abs(e.Correlation(k))
    ensures DigitOf(e) >= 3 <==> e.Correlation(DigitOf(e) % 3) > 0
  {
    hide Chips.Correlation, Quantize;
    var a0, a1, a2 := e.Correlation(0), e.Correlation(1), e.Correlation(2);
    QuantizeLargest(a0, a1, a2);
    assert forall i: nat :: i < 3 ==> [a0, a1, a2][i] == e.Correlation(i);
  }

  /** On-chips and off-chips of a digit: together the total, apart the signed correlation. */
  lemma OnAndOff(e: Chips, d: Digit)
    ensures e.OnSum(d) + e.OffSum(d) == e.Total() && e.OnSum(d) - e.OffSum(d) == Signed(e, d)
  {
    if d >= 3 {
      assert d == d % 3 + 3;
    } else {
      Inverted(e, d);
    }
  }

  lemma Inverted(e: Chips, k: nat)
    requires k < 3
    ensures e.OnSum(k) == e.OffSum(k + 3)
  {
  }

  /** The decision is optimal: no balanced pattern collects more energy in its two on-chips. */
  lemma DigitOptimal(e: Chips, d: Digit)
    ensures e.OnSum(DigitOf(e)) >= e.OnSum(d)
  {
    hide Chips.OnSum, Chips.OffSum, Chips.Correlation, DigitOf;
    OnAndOff(e, d);
    OnAndOff(e, DigitOf(e));
    DecidedLargest(e, d % 3);
  }

  /** Energy accounting for one symbol: nothing is lost, and on minus off is the largest correlation. */
  lemma SymbolEnergy(e: Chips)
    ensures e.OnSum(DigitOf(e)) + e.OffSum(DigitOf(e)) == e.Total()
    ensures e.OnSum(DigitOf(e)) - e.OffSum(DigitOf(e)) == Abs(e.Correlation(DigitOf(e) % 3)) >= 0
    ensures forall k :: 0 <= k < 3 ==> Abs(e.Correlation(DigitOf(e) % 3)) >= Abs(e.Correlation(k))
  {
    hide Chips.OnSum, Chips.OffSum, Chips.Correlation, DigitOf;
    OnAndOff(e, DigitOf(e));
    DecidedLargest(e, 0);
    DecidedLargest(e, 1);
    DecidedLargest(e, 2);
  }

  /** A dominant digit's signed correlation exceeds the other two. */
  lemma DominantLargest(e: Chips, d: Digit, k: nat)
    requires e.Dominates(d) && k < 3 && k != d % 3
    ensures Signed(e, d) > Abs(e.Correlation(k))
  {
    var c := d % 3 + 1;
    var c' := if c == 1 then 2 else 1;
    var c'' := 6 - c - c';
    assert On(d, 0) == On(d, c) == (d >= 3) && On(d, c') == On(d, c'') == (d < 3);
    if d >= 3 {
      assert e.Get(0) > e.Get(c') && e.Get(0) > e.Get(c'') && e.Get(c) > e.Get(c') && e.Get(c) > e.Get(c'');
    } else {
      assert e.Get(0) < e.Get(c') && e.Get(0) < e.Get(c'') && e.Get(c) < e.Get(c') && e.Get(c) < e.Get(c'');
    }
    hide Chips.Dominates;
  }

  /** A digit whose on-chips all outweigh its off-chips is decided right, and it is the only such digit. */
  lemma DominantDigit(e: Chips, d: Digit)
    requires e.Dominates(d)
    ensures DigitOf(e) == d
  {
    hide Chips.Dominates, Chips.Correlation, DigitOf;
    var best := DigitOf(e);
    DecidedLargest(e, d % 3);
    DominantLargest(e, d, if d % 3 == 0 then 1 else 0);
    if best % 3 != d % 3 {
      DominantLargest(e, d, best % 3);
    }
  }

  // ----- the filter -----

  /** Energies of the symbol that starts at sample i. */
  function ChipsAt(x: seq<int>, i: nat, chip: nat): Chips
    requires i + 4 * chip <= |x|
  {
    Chips(Sum(x[i..i + chip]), Sum(x[i + chip..i + 2 * chip]),
          Sum(x[i + 2 * chip..i + 3 * chip]), Sum(x[i + 3 * chip..i + 4 * chip]))
  }

  function DigitAt(x: seq<int>, i: nat, chip: nat): Digit
    requires i + 4 * chip <= |x|
  {
    DigitOf(ChipsAt(x, i, chip))
  }

  /** The three simplified cumulative-sum formulas are the true kernel correlations. */
  lemma FormulasAreCorrelations(x: seq<int>, i: nat, chip: nat)
    requires i + 4 * chip <= |x|
    ensures var s0, s1, s2, s3, s4 := Sum(x[..i]), Sum(x[..i + chip]), Sum(x[..i + 2 * chip]),
                                      Sum(x[..i + 3 * chip]), Sum(x[..i + 4 * chip]);
            var e := ChipsAt(x, i, chip);
            && 2 * s2 - s4 - s0 == e.Correlation(0)
            && 2 * s1 - 2 * s2 + 2 * s3 - s4 - s0 == e.Correlation(1)
            && 2 * s1 - 2 * s3 + s4 - s0 == e.Correlation(2)
  {
    hide Sum;
    WindowSum(x, i, i + chip);
    WindowSum(x, i + chip, i + 2 * chip);
    WindowSum(x, i + 2 * chip, i + 3 * chip);
    WindowSum(x, i + 3 * chip, i + 4 * chip);
  }

  /** Matched filter over the whole signal buffer; the last four chips are left as they were. */
  method Filter(signal: array<int>, csum: array<int>, quantized: array<Byte>, cl: nat)
    requires csum.Length == signal.Length + 1 && csum != signal && csum[0] == 0
    requires quantized.Length == signal.Length && quantized as object != csum && quantized as object != signal
    modifies csum, quantized
    ensures forall k :: 0 <= k <= signal.Length ==> csum[k] == Sum(signal[..k])
    ensures forall i :: 0 <= i && i + 4 * cl < signal.Length ==> quantized[i] == DigitAt(signal[..], i, cl)
  {
    hide Sum, ChipsAt;
    ghost var x := signal[..];
    Cumulate(signal, csum);
    assert forall k :: 0 <= k <= signal.Length ==> signal[..k] == x[..k];
    var limit := signal.Length - 4 * cl;
    var idx := 0;
    while idx < limit
      invariant 0 <= idx
      invariant forall k :: 0 <= k <= signal.Length ==> csum[k] == Sum(x[..k])
      invariant forall i :: 0 <= i < idx && i < limit ==> quantized[i] == DigitAt(x, i, cl)
    {
      var digit := Decision(csum, idx, cl, x);
      quantized[idx] := digit;
      idx := idx + 1;
    }
  }

  /** Loop body of the filter. */
  method Decision(csum: array<int>, idx: nat, cl: nat, ghost x: seq<int>) returns (argmax: Digit)
    requires csum.Length == |x| + 1 && idx + 4 * cl < |x|
    requires forall k :: 0 <= k <= |x| ==> csum[k] == Sum(x[..k])
    ensures argmax == DigitAt(x, idx, cl)
  {
    hide Sum, ChipsAt, Chips.Correlation;
    var c0 := csum[idx];
    var c1 := csum[idx + cl] + csum[idx + cl];
    var c2 := csum[idx + 2 * cl] + csum[idx + 2 * cl];
    var c3 := csum[idx + 3 * cl] + csum[idx + 3 * cl];
    var c4 := csum[idx + 4 * cl];
    var a0 := c2 - c4 - c0;
    var a1 := c1 - c2 + c3 - c4 - c0;
    var a2 := c1 - c3 + c4 - c0;
    FormulasAreCorrelations(x, idx, cl);
    var best := a0;
    argmax := 0;
    if Abs(a1) > Abs(best) {
      best := a1;
      argmax := 1;
    }
    if Abs(a2) > Abs(best) {
      best := a2;
      argmax := 2;
    }
    if best > 0 {
      argmax := argmax + 3;
    }
  }
}
