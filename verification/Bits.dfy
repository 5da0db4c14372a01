/** Bit strings, most significant bit first. */
module Bits {
  import opened Wrappers
  import opened Gf2Poly

  type Bit = b: nat | b < 2 witness 0

  /** The number a bit string denotes in base 2. */
  function BitValue(s: seq<Bit>): nat {
    if s == [] then 0 else 2 * BitValue(s[..|s| - 1]) + s[|s| - 1]
  }

  /** The n low digits of v. */
  function ToBits(v: nat, n: nat): (r: seq<Bit>)
    ensures |r| == n
    decreases n
  {
    if n == 0 then [] else ToBits(v / 2, n - 1) + [v % 2]
  }

  lemma {:induction false} ValueOfBits(v: nat, n: nat)
    requires v < Pow2(n)
    ensures BitValue(ToBits(v, n)) == v
    decreases n
  {
    if n > 0 {
      ValueOfBits(v / 2, n - 1);
      assert ToBits(v, n)[..n - 1] == ToBits(v / 2, n - 1);
    }
  }

  lemma {:induction false} BitsOfValue(s: seq<Bit>)
    ensures BitValue(s) < Pow2(|s|)
    ensures ToBits(BitValue(s), |s|) == s
  {
    if s != [] {
      var n := |s| - 1;
      BitsOfValue(s[..n]);
      assert BitValue(s) / 2 == BitValue(s[..n]) && BitValue(s) % 2 == s[n];
      assert s == s[..n] + [s[n]];
    }
  }

  lemma ValueSnoc(s: seq<Bit>, b: Bit)
    ensures BitValue(s + [b]) == 2 * BitValue(s) + b
  {
    assert (s + [b])[..|s|] == s;
  }

  /** A byte of bits is zero, or all ones, exactly when every bit is. */
  lemma {:induction false} UniformValue(s: seq<Bit>)
    ensures BitValue(s) == 0 <==> forall i :: 0 <= i < |s| ==> s[i] == 0
    ensures BitValue(s) == Pow2(|s|) - 1 <==> forall i :: 0 <= i < |s| ==> s[i] == 1
  {
    if s != [] {
      var n := |s| - 1;
      UniformValue(s[..n]);
      BitsOfValue(s[..n]);
      assert forall i :: 0 <= i < n ==> s[i] == s[..n][i];
    }
  }

  /** Bytes written out as eight binary digits each. */
  function BytesToBits(data: seq<Byte>): (r: seq<Bit>)
    ensures |r| == 8 * |data|
  {
    if data == [] then [] else BytesToBits(data[..|data| - 1]) + ToBits(data[|data| - 1], 8)
  }

  lemma {:induction false} ByteBits(data: seq<Byte>, j: nat)
    requires j < |data|
    ensures BytesToBits(data)[8 * j..8 * j + 8] == ToBits(data[j], 8)
  {
    hide ToBits;
    var n := |data| - 1;
    var r := BytesToBits(data[..n]);
    assert BytesToBits(data) == r + ToBits(data[n], 8);
    if j < n {
      ByteBits(data[..n], j);
      assert (r + ToBits(data[n], 8))[8 * j..8 * j + 8] == r[8 * j..8 * j + 8];
    } else {
      assert (r + ToBits(data[n], 8))[8 * n..8 * n + 8] == ToBits(data[n], 8);
    }
  }

  /** A bit field has the value v exactly if it is v in binary. */
  lemma FieldSpelled(s: seq<Bit>, v: nat)
    requires v < Pow2(|s|)
    ensures BitValue(s) == v <==> s == ToBits(v, |s|)
  {
    hide BitValue, ToBits, Pow2;
    BitsOfValue(s);
    ValueOfBits(v, |s|);
  }
}
