/** The sample-level loops of the decoder: power, cumulative sum, matched filter, search passes. */
module Demod {
  import opened Wrappers
  import opened Gf2Poly
  import opened Bits
  import opened Stream

  // ----- power -----

  /** Power of one I or Q sample, in units of 1/65025 of full scale: (127.5 - i)^2 / 127.5^2. */
  function Square(i: Byte): int {
    (255 - 2 * i) * (255 - 2 * i)
  }

  /** The table's unit: sample i is taken as (127.5 - i) / 127.5 of full scale, and its power is the square. */
  lemma SquareMeans(i: Byte)
    ensures var x := (127.5 - i as real) / 127.5; Square(i) as real == 65025.0 * (x * x)
  {
    var x := (127.5 - i as real) / 127.5;
    var n: int := 255 - 2 * i;
    assert n as real == 255.0 * x;
    hide Square;
    RealSquare(n, x);
    SquareOf(i);
  }

  lemma RealSquare(n: int, x: real)
    requires n as real == 255.0 * x
    ensures (n * n) as real == 65025.0 * (x * x)
  {
    var r := n as real;
    assert (n * n) as real == r * r;
    assert r * r == (255.0 * x) * (255.0 * x);
  }

  lemma SquareOf(i: Byte)
    ensures var n: int := 255 - 2 * i; Square(i) == n * n
  {
  }

  ghost predicate IsMagLUT(lut: seq<int>) {
    |lut| == 256 && forall i: Byte :: lut[i] == Square(i)
  }

  /** The lookup table; it is never changed afterwards. */
  method NewMagLUT() returns (r: seq<int>)
    ensures IsMagLUT(r)
  {
    var lut := new int[256];
    var idx := 0;
    while idx < lut.Length
      invariant 0 <= idx <= 256
      invariant forall i: Byte :: i < idx ==> lut[i] == Square(i)
    {
      lut[idx] := 255 - 2 * idx;
      lut[idx] := lut[idx] * lut[idx];
      idx := idx + 1;
    }
    return lut[..];
  }

  /** Power of the first n IQ pairs. */
  function Power(input: seq<Byte>, n: nat): (r: seq<int>)
    requires 2 * n <= |input|
    ensures |r| == n && forall k :: 0 <= k < n ==> r[k] == Square(input[2 * k]) + Square(input[2 * k + 1])
  {
    seq(n, k requires 0 <= k < n => Square(input[2 * k]) + Square(input[2 * k + 1]))
  }

  /** Writes the power of the block over the part of the output from offset on. */
  method Execute(lut: seq<int>, input: seq<Byte>, output: array<int>, offset: nat)
    requires IsMagLUT(lut)
    requires offset <= output.Length && 2 * (output.Length - offset) <= |input|
    modifies output
    ensures output[..offset] == old(output[..offset])
    ensures output[offset..] == Power(input, output.Length - offset)
  {
    hide Square;
    ghost var power := Power(input, output.Length - offset);
    var i := 0;
    var idx := 0;
    while idx < output.Length - offset
      invariant 0 <= idx <= output.Length - offset && i == 2 * idx
      invariant output[..offset] == old(output[..offset])
      invariant forall j :: offset <= j < offset + idx ==> output[j] == power[j - offset]
    {
      output[offset + idx] := lut[input[i]] + lut[input[i + 1]];
      i := i + 2;
      idx := idx + 1;
    }
  }

  // ----- shifting and filtering -----

  /** copy(a, a[n:]): the last part of the array moves to the front, the rest stays. */
  method ShiftDown<T>(a: array<T>, n: nat)
    requires n <= a.Length
    modifies a
    ensures a[..a.Length - n] == old(a[n..])
    ensures a[a.Length - n..] == old(a[a.Length - n..])
  {
    var k := 0;
    while k < a.Length - n
      invariant 0 <= k <= a.Length - n
      invariant forall j :: 0 <= j < k ==> a[j] == old(a[n + j])
      invariant forall j :: k <= j < a.Length ==> a[j] == old(a[j])
    {
      a[k] := a[k + n];
      k := k + 1;
    }
  }

  /** Entry k of csum becomes the sum of the first k samples. */
  method Cumulate(input: array<int>, csum: array<int>)
    requires csum.Length == input.Length + 1 && csum != input && csum[0] == 0
    modifies csum
    ensures forall k :: 0 <= k <= input.Length ==> csum[k] == Sum(input[..k])
  {
    hide Sum;
    var sum := 0;
    var idx := 0;
    SumEmpty(input[..0]);
    while idx < input.Length
      invariant 0 <= idx <= input.Length && sum == Sum(input[..idx])
      invariant forall k :: 0 <= k <= idx ==> csum[k] == Sum(input[..k])
    {
      SumSnoc(input[..idx + 1]);
      assert input[..idx + 1][..idx] == input[..idx];
      sum := sum + input[idx];
      csum[idx + 1] := sum;
      idx := idx + 1;
    }
  }

  lemma SumEmpty(x: seq<int>)
    requires x == []
    ensures Sum(x) == 0
  {
  }

  lemma SumSnoc(x: seq<int>)
    requires x != []
    ensures Sum(x) == Sum(x[..|x| - 1]) + x[|x| - 1]
  {
  }

  /** The decision computed from three cumulative sums. */
  lemma DecideFromSums(x: seq<int>, i: nat, chip: nat)
    requires i + 2 * chip <= |x|
    ensures Decide(x, i, chip) ==
            var l := Sum(x[..i + chip]);
            if (l - Sum(x[..i])) - (Sum(x[..i + 2 * chip]) - l) >= 0 then 1 else 0
  {
    hide Sum;
    WindowSum(x, i, i + chip);
    WindowSum(x, i + chip, i + 2 * chip);
  }

  /** Matched filter: the part of the output from offset on receives the decisions for the signal. */
  method Filter(input: array<int>, csum: array<int>, output: array<Bit>, offset: nat, chip: nat)
    requires csum.Length == input.Length + 1 && csum != input && csum[0] == 0
    requires offset <= output.Length && output.Length - offset + 2 * chip == input.Length
    requires output as object != csum && output as object != input
    modifies csum, output
    ensures csum[0] == 0
    ensures output[..offset] == old(output[..offset])
    ensures output[offset..] == FilterAll(input[..], chip)
  {
    hide Sum, Decide;
    ghost var decisions := FilterAll(input[..], chip);
    Cumulate(input, csum);
    SumEmpty(input[..0]);
    var idx := 0;
    while idx < output.Length - offset
      invariant 0 <= idx <= output.Length - offset
      invariant forall k :: 0 <= k <= input.Length ==> csum[k] == Sum(input[..k])
      invariant output[..offset] == old(output[..offset])
      invariant forall j :: offset <= j < offset + idx ==> output[j] == decisions[j - offset]
    {
      DecideFromSums(input[..], idx, chip);
      assert input[..][..idx] == input[..idx] && input[..][..idx + chip] == input[..idx + chip]
          && input[..][..idx + 2 * chip] == input[..idx + 2 * chip];
      var l := csum[idx + chip];
      var f := (l - csum[idx]) - (csum[idx + 2 * chip] - l);
      output[offset + idx] := if f < 0 then 0 else 1;
      idx := idx + 1;
    }
  }

  // ----- preamble search -----

  /** Eight decisions per byte. */
  ghost predicate Packed(packed: seq<Byte>, q: seq<Bit>) {
    8 * |packed| <= |q| && forall j :: 0 <= j < |packed| ==> packed[j] == BitValue(q[8 * j..8 * j + 8])
  }

  method Pack(q: array<Bit>, packed: array<Byte>)
    requires 8 * packed.Length <= q.Length && packed as object != q
    modifies packed
    ensures Packed(packed[..], q[..])
  {
    hide BitValue;
    ghost var bits := q[..];
    var bIdx := 0;
    while bIdx < packed.Length
      invariant 0 <= bIdx <= packed.Length
      invariant forall j :: 0 <= j < bIdx ==> packed[j] == BitValue(bits[8 * j..8 * j + 8])
    {
      var b := PackByte(q, 8 * bIdx);
      packed[bIdx] := b;
      bIdx := bIdx + 1;
    }
  }

  /** Inner loop of Pack: eight decisions shifted into one byte. */
  method PackByte(q: array<Bit>, start: nat) returns (b: Byte)
    requires start + 8 <= q.Length
    ensures b == BitValue(q[..][start..start + 8])
  {
    hide BitValue;
    ghost var bits := q[..][start..start + 8];
    b := 0;
    var k := 0;
    EmptyValue(bits[..0]);
    while k < 8
      invariant 0 <= k <= 8 && b == BitValue(bits[..k])
    {
      ByteBound(bits[..k + 1]);
      ValueSnoc(bits[..k], bits[k]);
      assert bits[..k] + [bits[k]] == bits[..k + 1];
      b := (2 * b) % 256 + q[start + k];
      k := k + 1;
    }
    assert bits[..8] == bits;
  }

  lemma EmptyValue(s: seq<Bit>)
    requires s == []
    ensures BitValue(s) == 0
  {
  }

  lemma ByteBound(s: seq<Bit>)
    requires |s| <= 8
    ensures BitValue(s) < 256
  {
    BitsOfValue(s);
    assert Pow2(8) == 256;
    Pow2Mono(|s|, 8);
  }

  /** The byte in which no bit equals pBit. */
  function Mask(pBit: Bit): Byte {
    if pBit == 0 then 255 else 0
  }

  /** A byte differs from the mask exactly when one of its bits equals the wanted bit. */
  lemma PruneSound(packed: seq<Byte>, q: seq<Bit>, j: nat, k: nat, pBit: Bit)
    requires Packed(packed, q) && j < |packed| && k < 8 && q[8 * j + k] == pBit
    ensures packed[j] != Mask(pBit)
  {
    hide BitValue;
    var s := q[8 * j..8 * j + 8];
    UniformValue(s);
    assert Pow2(8) == 256;
    assert s[k] == pBit;
  }

  ghost predicate Increasing(s: seq<nat>) {
    forall i, j :: 0 <= i < j < |s| ==> s[i] < s[j]
  }

  lemma IncreasingSnoc(s: seq<nat>, x: nat)
    requires Increasing(s) && forall y: nat :: y in s ==> y < x
    ensures Increasing(s + [x])
  {
    assert forall i :: 0 <= i < |s| ==> s[i] in s;
  }

  /** Keeps the candidates whose byte is not the mask. */
  method SearchPassByte(mask: Byte, sig: array<Byte>, offset: nat, a: seq<nat>) returns (b: seq<nat>)
    requires Increasing(a) && forall x: nat :: x in a ==> offset + x < sig.Length
    ensures Increasing(b) && |b| <= |a|
    ensures forall x: nat :: x in b <==> x in a && sig[offset + x] != mask
  {
    b := [];
    var k := 0;
    while k < |a|
      invariant 0 <= k <= |a| && Increasing(b) && |b| <= k
      invariant forall x: nat :: x in b <==> x in a && x in a[..k] && sig[offset + x] != mask
    {
      assert a[..k + 1] == a[..k] + [a[k]] && a[k] in a;
      assert forall y: nat :: y in a[..k] ==> y < a[k];
      if sig[offset + a[k]] != mask {
        IncreasingSnoc(b, a[k]);
        b := b + [a[k]];
      }
      k := k + 1;
    }
    assert a[..k] == a;
  }

  /** Keeps the candidates whose decision is the wanted bit. */
  method SearchPass(pBit: Bit, sig: array<Bit>, offset: nat, a: seq<nat>) returns (b: seq<nat>)
    requires Increasing(a) && forall x: nat :: x in a ==> offset + x < sig.Length
    ensures Increasing(b) && |b| <= |a|
    ensures forall x: nat :: x in b <==> x in a && sig[offset + x] == pBit
  {
    b := [];
    var k := 0;
    while k < |a|
      invariant 0 <= k <= |a| && Increasing(b) && |b| <= k
      invariant forall x: nat :: x in b <==> x in a && x in a[..k] && sig[offset + x] == pBit
    {
      assert a[..k + 1] == a[..k] + [a[k]] && a[k] in a;
      assert forall y: nat :: y in a[..k] ==> y < a[k];
      if sig[offset + a[k]] == pBit {
        IncreasingSnoc(b, a[k]);
        b := b + [a[k]];
      }
      k := k + 1;
    }
    assert a[..k] == a;
  }

  /** First pass over the bytes: every byte index whose byte is not the mask. */
  method FirstPass(mask: Byte, sig: array<Byte>, n: nat) returns (a: seq<nat>)
    requires n <= sig.Length
    ensures Increasing(a) && |a| <= n
    ensures forall x: nat :: x in a <==> x < n && sig[x] != mask
  {
    a := [];
    var k := 0;
    while k < n
      invariant 0 <= k <= n && Increasing(a) && |a| <= k
      invariant forall x: nat :: x in a <==> x < k && sig[x] != mask
    {
      if sig[k] != mask {
        IncreasingSnoc(a, k);
        a := a + [k];
      }
      k := k + 1;
    }
  }

  /** Turns byte indices into the eight sample indices each of them covers. */
  method Expand(a: seq<nat>) returns (b: seq<nat>)
    requires Increasing(a)
    ensures Increasing(b) && |b| == 8 * |a|
    ensures forall x: nat :: x in b <==> x / 8 in a
  {
    b := [];
    var k := 0;
    while k < |a|
      invariant 0 <= k <= |a| && Increasing(b) && |b| == 8 * k
      invariant forall x: nat :: x in b <==> x / 8 in a[..k]
    {
      var q := a[k];
      assert a[..k + 1] == a[..k] + [q];
      assert forall y: nat :: y in a[..k] ==> y < q;
      b := ExpandOne(b, q);
      k := k + 1;
    }
    assert a[..k] == a;
  }

  /** Inner loop of the expansion: the eight sample indices of one byte. */
  method ExpandOne(b: seq<nat>, q: nat) returns (r: seq<nat>)
    requires Increasing(b) && forall x: nat :: x in b ==> x / 8 < q
    ensures Increasing(r) && |r| == |b| + 8
    ensures forall x: nat :: x in r <==> x in b || x / 8 == q
  {
    r := b;
    var idx := 0;
    while idx < 8
      invariant 0 <= idx <= 8 && Increasing(r) && |r| == |b| + idx
      invariant forall x: nat :: x in r <==> x in b || 8 * q <= x < 8 * q + idx
    {
      IncreasingSnoc(r, 8 * q + idx);
      r := r + [8 * q + idx];
      idx := idx + 1;
    }
  }
}
