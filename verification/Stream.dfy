/** The sample stream as a whole: one-pass filtering, and how block-wise buffers follow it. */
module Stream {
  import opened Bits

  // ----- sums over windows -----

  function Sum(x: seq<int>): int {
    if x == [] then 0 else Sum(x[..|x| - 1]) + x[|x| - 1]
  }

  lemma {:induction false} SumConcat(x: seq<int>, y: seq<int>)
    ensures Sum(x + y) == Sum(x) + Sum(y)
  {
    if y == [] {
      assert x + y == x;
    } else {
      var n := |y| - 1;
      assert (x + y)[..|x| + n] == x + y[..n];
      SumConcat(x, y[..n]);
    }
  }

  /** A window sum is the difference of two cumulative sums. */
  lemma WindowSum(x: seq<int>, i: nat, j: nat)
    requires i <= j <= |x|
    ensures Sum(x[i..j]) == Sum(x[..j]) - Sum(x[..i])
  {
    assert x[..j] == x[..i] + x[i..j];
    SumConcat(x[..i], x[i..j]);
  }

  /** One chip of a clean waveform: the same power throughout. */
  ghost predicate ChipWritten(x: seq<int>, i: nat, chip: nat, v: int) {
    i + chip <= |x| && forall j :: i <= j < i + chip ==> x[j] == v
  }

  lemma {:induction false} ConstantSum(x: seq<int>, v: int)
    requires forall s :: 0 <= s < |x| ==> x[s] == v
    ensures Sum(x) == |x| * v
  {
    if x != [] {
      ConstantSum(x[..|x| - 1], v);
    }
  }

  // ----- the Manchester matched filter -----

  /** Decision for the symbol that starts at i: one when the first chip is not weaker than the second. */
  function Decide(x: seq<int>, i: nat, chip: nat): Bit
    requires i + 2 * chip <= |x|
  {
    if Sum(x[i..i + chip]) >= Sum(x[i + chip..i + 2 * chip]) then 1 else 0
  }

  /** A tie decides one: wherever the power does not change over a symbol, as in silence or under saturation. */
  lemma LevelIsOne(x: seq<int>, i: nat, chip: nat, v: int)
    requires ChipWritten(x, i, 2 * chip, v)
    ensures Decide(x, i, chip) == 1
  {
    hide Sum;
    ConstantSum(x[i..i + chip], v);
    ConstantSum(x[i + chip..i + 2 * chip], v);
  }

  /** The filter applied to a whole signal in one pass. */
  function FilterAll(x: seq<int>, chip: nat): (r: seq<Bit>)
    requires 2 * chip <= |x|
    ensures |r| == |x| - 2 * chip && forall i :: 0 <= i < |r| ==> r[i] == Decide(x, i, chip)
  {
    seq(|x| - 2 * chip, i requires 0 <= i < |x| - 2 * chip => Decide(x, i, chip))
  }

  /** Equal windows have equal parts. */
  lemma PartOfWindow(x: seq<int>, i: nat, y: seq<int>, j: nat, n: nat, lo: nat, hi: nat)
    requires i + n <= |x| && j + n <= |y| && x[i..i + n] == y[j..j + n] && lo <= hi <= n
    ensures x[i + lo..i + hi] == y[j + lo..j + hi]
  {
    var u, v := x[i + lo..i + hi], y[j + lo..j + hi];
    forall k | 0 <= k < hi - lo
      ensures u[k] == v[k]
    {
      assert x[i..i + n][lo + k] == y[j..j + n][lo + k];
    }
  }

  /** A decision depends only on the samples of its symbol. */
  lemma DecideLocal(x: seq<int>, i: nat, y: seq<int>, j: nat, chip: nat)
    requires i + 2 * chip <= |x| && j + 2 * chip <= |y|
    requires x[i..i + 2 * chip] == y[j..j + 2 * chip]
    ensures Decide(x, i, chip) == Decide(y, j, chip)
  {
    hide Sum;
    PartOfWindow(x, i, y, j, 2 * chip, 0, chip);
    PartOfWindow(x, i, y, j, 2 * chip, chip, 2 * chip);
  }

  /** Filtering block by block, with one symbol of overlap, is filtering in one pass. */
  lemma FilterConcat(x: seq<int>, block: seq<int>, chip: nat)
    requires 2 * chip <= |x|
    ensures FilterAll(x + block, chip) == FilterAll(x, chip) + FilterAll(x[|x| - 2 * chip..] + block, chip)
  {
    hide Sum, Decide;
    var n := |x| - 2 * chip;
    var y, tail := x + block, x[n..] + block;
    forall i | 0 <= i < |y| - 2 * chip
      ensures FilterAll(y, chip)[i] == (FilterAll(x, chip) + FilterAll(tail, chip))[i]
    {
      if i < n {
        assert y[i..i + 2 * chip] == x[i..i + 2 * chip];
        DecideLocal(y, i, x, i, chip);
      } else {
        assert y[i..i + 2 * chip] == tail[i - n..i - n + 2 * chip];
        DecideLocal(y, i, tail, i - n, chip);
      }
    }
  }

  // ----- sliding buffers -----

  /** Silence: samples and decisions that are all zero. */
  function Quiet(n: nat): (r: seq<Bit>)
    ensures |r| == n && forall i :: 0 <= i < n ==> r[i] == 0
  {
    seq(n, _ => 0)
  }

  /** The last n elements. */
  function Last<T>(s: seq<T>, n: nat): (r: seq<T>)
    requires n <= |s|
    ensures |r| == n
  {
    s[|s| - n..]
  }

  /** Shifting a buffer and appending keeps it at the end of the history. */
  lemma ShiftAppend<T>(s: seq<T>, n: nat, block: seq<T>)
    requires |block| <= n <= |s|
    ensures Last(s + block, n) == Last(s, n)[|block|..] + block
  {
  }

  lemma PaddedStep<T>(pad: seq<T>, s: seq<T>, n: nat, block: seq<T>)
    requires |block| <= n == |pad|
    ensures Last(pad + (s + block), n) == Last(pad + s, n)[|block|..] + block
  {
    assert pad + (s + block) == (pad + s) + block;
    ShiftAppend(pad + s, n, block);
  }

  // ----- the decoder's view of the stream -----

  /** Every decision over the stream so far, the stream being preceded by one symbol of silence. */
  function Decisions(s: seq<int>, chip: nat): (r: seq<Bit>)
    ensures |r| == |s|
  {
    FilterAll(Quiet(2 * chip) + s, chip)
  }

  /** Sample history of n samples, silent before the stream. */
  function History(s: seq<int>, n: nat): (r: seq<int>)
    ensures |r| == n
  {
    Last(Quiet(n) + s, n)
  }

  /** The decision buffer: the last n decisions, zero before the stream. */
  function DecisionBuffer(s: seq<int>, chip: nat, n: nat): (r: seq<Bit>)
    ensures |r| == n
  {
    Last(Quiet(n) + Decisions(s, chip), n)
  }

  lemma HistoryStep(s: seq<int>, n: nat, block: seq<int>)
    requires |block| <= n
    ensures History(s + block, n) == History(s, n)[|block|..] + block
  {
    PaddedStep(Quiet(n), s, n, block);
  }

  /** The newest block with one symbol of overlap. */
  lemma HistoryTail(s: seq<int>, overlap: nat, block: seq<int>)
    ensures History(s + block, |block| + overlap)
         == (Quiet(overlap) + s)[|s|..] + block
  {
    var m := |block| + overlap;
    var h, x := Quiet(m) + (s + block), Quiet(overlap) + s;
    forall i | 0 <= i < m
      ensures h[|h| - m + i] == (x[|s|..] + block)[i]
    {
    }
  }

  /** Block transparency: shifting the decision buffer by one block and filtering only the newest
      samples gives the last decisions of filtering everything received so far in one pass. */
  lemma BlockStep(s: seq<int>, chip: nat, n: nat, block: seq<int>)
    requires |block| <= n
    ensures DecisionBuffer(s + block, chip, n)
         == DecisionBuffer(s, chip, n)[|block|..]
          + FilterAll(History(s + block, |block| + 2 * chip), chip)
  {
    DecisionsConcat(s, chip, block);
    hide History, FilterAll, Decisions;
    PaddedStep(Quiet(n), Decisions(s, chip), n, FilterAll(History(s + block, |block| + 2 * chip), chip));
  }

  lemma DecisionsConcat(s: seq<int>, chip: nat, block: seq<int>)
    ensures Decisions(s + block, chip)
         == Decisions(s, chip) + FilterAll(History(s + block, |block| + 2 * chip), chip)
  {
    hide FilterAll, History, Quiet;
    var x := Quiet(2 * chip) + s;
    assert Quiet(2 * chip) + (s + block) == x + block;
    HistoryTail(s, 2 * chip, block);
    FilterConcat(x, block, chip);
  }
}
