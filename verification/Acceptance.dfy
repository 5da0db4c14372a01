/** What the byte-oriented parsers share: each distinct packet of a block is examined once. */
module Acceptance {
  import opened Wrappers
  import opened Gf2Poly
  import opened Bits
  import opened Crc
  import D = Decoder

  /** Distinct packets, in order of first appearance, that pass the parser's checks. */
  ghost function Passed(keys: seq<seq<Byte>>, accept: seq<Byte> -> bool): seq<seq<Byte>> {
    if keys == [] then []
    else
      var n := |keys| - 1;
      Passed(keys[..n], accept) + (if keys[n] in keys[..n] || !accept(keys[n]) then [] else [keys[n]])
  }

  /** Exactly the packets that pass the checks are passed on. */
  lemma {:induction false} PassedMembers(keys: seq<seq<Byte>>, accept: seq<Byte> -> bool, k: seq<Byte>)
    ensures k in Passed(keys, accept) <==> k in keys && accept(k)
  {
    if keys != [] {
      var n := |keys| - 1;
      PassedMembers(keys[..n], accept, k);
      assert keys == keys[..n] + [keys[n]];
    }
  }

  /** Packets are passed on in the order in which they first appear. */
  lemma {:induction false} PassedInOrder(keys: seq<seq<Byte>>, accept: seq<Byte> -> bool, i: nat, j: nat)
    returns (k: nat, l: nat)
    requires i < j < |Passed(keys, accept)|
    ensures k < l < |keys| && keys[k] == Passed(keys, accept)[i] && keys[l] == Passed(keys, accept)[j]
    ensures Passed(keys, accept)[j] !in keys[..l]
  {
    var n := |keys| - 1;
    var before := Passed(keys[..n], accept);
    if j < |before| {
      k, l := PassedInOrder(keys[..n], accept, i, j);
      assert keys[..n][..l] == keys[..l];
    } else {
      assert before[i] in before;
      PassedMembers(keys[..n], accept, before[i]);
      k :| 0 <= k < n && keys[..n][k] == before[i];
      l := n;
    }
  }

  /** One more packet: passed on if it is new and passes the checks. */
  lemma PassedStep(keys: seq<seq<Byte>>, accept: seq<Byte> -> bool, k: nat)
    requires k < |keys|
    ensures Passed(keys[..k + 1], accept)
         == Passed(keys[..k], accept) + (if keys[k] in keys[..k] || !accept(keys[k]) then [] else [keys[k]])
  {
    assert keys[..k + 1][..k] == keys[..k];
  }

  /** seen is the set of the first k packets. */
  ghost predicate Seen(seen: set<seq<Byte>>, keys: seq<seq<Byte>>, k: nat)
    requires k <= |keys|
  {
    forall b :: b in seen <==> b in keys[..k]
  }

  lemma NoneSeen(keys: seq<seq<Byte>>)
    ensures Seen({}, keys, 0)
  {
  }

  lemma SeenStep(seen: set<seq<Byte>>, keys: seq<seq<Byte>>, k: nat)
    requires k < |keys| && Seen(seen, keys, k)
    ensures keys[k] in seen <==> keys[k] in keys[..k]
    ensures Seen(seen + {keys[k]}, keys, k + 1)
    ensures keys[k] in seen ==> seen + {keys[k]} == seen
  {
    assert keys[..k + 1] == keys[..k] + [keys[k]];
  }

  /** No packet is passed on twice. */
  lemma {:induction false} PassedDistinct(keys: seq<seq<Byte>>, accept: seq<Byte> -> bool, i: nat, j: nat)
    requires i < j < |Passed(keys, accept)|
    ensures Passed(keys, accept)[i] != Passed(keys, accept)[j]
  {
    var n := |keys| - 1;
    var before := Passed(keys[..n], accept);
    if j < |before| {
      PassedDistinct(keys[..n], accept, i, j);
    } else {
      assert before[i] in before;
      PassedMembers(keys[..n], accept, before[i]);
    }
  }

  /** The first n bytes of every packet. */
  function Keys(pkts: seq<D.Data>, n: nat): (r: seq<seq<Byte>>)
    requires forall k :: 0 <= k < |pkts| ==> |pkts[k].bytes| >= n
    ensures |r| == |pkts| && forall k :: 0 <= k < |r| ==> r[k] == pkts[k].bytes[..n]
  {
    seq(|pkts|, k requires 0 <= k < |pkts| => pkts[k].bytes[..n])
  }

  /** copy(dst, src) into a buffer that is not longer than the source. */
  method CopyBytes(dst: array<Byte>, src: seq<Byte>)
    requires dst.Length <= |src|
    modifies dst
    ensures dst[..] == src[..dst.Length]
  {
    var k := 0;
    while k < dst.Length
      invariant 0 <= k <= dst.Length && dst[..k] == src[..k]
    {
      dst[k] := src[k];
      k := k + 1;
    }
  }

  /** The text of a prefix is a prefix of the text. */
  lemma {:induction false} PrefixBits(bytes: seq<Byte>, n: nat)
    requires n <= |bytes|
    ensures BytesToBits(bytes)[..8 * n] == BytesToBits(bytes[..n])
  {
    hide ToBits;
    if n == |bytes| {
      assert bytes[..n] == bytes;
    } else {
      var m := |bytes| - 1;
      PrefixBits(bytes[..m], n);
      assert bytes[..m][..n] == bytes[..n];
    }
  }

  lemma LastText(a: seq<Byte>)
    requires a != []
    ensures var n := |a| - 1;
            BytesToBits(a)[..8 * n] == BytesToBits(a[..n]) && BytesToBits(a)[8 * n..] == ToBits(a[n], 8)
  {
    hide ToBits;
  }

  /** Equal texts come from equal bytes. */
  lemma {:induction false} TextInjective(a: seq<Byte>, b: seq<Byte>)
    requires |a| == |b| && BytesToBits(a) == BytesToBits(b)
    ensures a == b
  {
    hide *;
    if a != [] {
      var n := |a| - 1;
      LastText(a);
      LastText(b);
      TextInjective(a[..n], b[..n]);
      ShlByte(0);
      ValueOfBits(a[n], 8);
      ValueOfBits(b[n], 8);
      assert a == a[..n] + [a[n]] && b == b[..n] + [b[n]];
    }
  }

  /** Bit fields of equal length with equal values are equal. */
  lemma FieldInjective(s: seq<Bit>, t: seq<Bit>)
    requires |s| == |t| && BitValue(s) == BitValue(t)
    ensures s == t
  {
    BitsOfValue(s);
    BitsOfValue(t);
  }

  /** A field in two parts, the upper digits first, has a value exactly if the parts spell it. */
  lemma SplitSpelled(s: seq<Bit>, t: seq<Bit>, hi: nat, lo: nat)
    requires hi < Pow2(|s|) && lo < Pow2(|t|)
    ensures BitValue(s + t) == Shl(hi, |t|) + lo <==> s == ToBits(hi, |s|) && t == ToBits(lo, |t|)
  {
    hide *;
    ValueConcat(s, t);
    BitsOfValue(t);
    ShlUnique(BitValue(s), BitValue(t), hi, lo, |t|);
    FieldSpelled(s, hi);
    FieldSpelled(t, lo);
  }

  /** Digits shifted apart do not mix. */
  lemma {:induction false} ShlUnique(a: nat, b: nat, c: nat, d: nat, k: nat)
    requires b < Pow2(k) && d < Pow2(k)
    ensures Shl(a, k) + b == Shl(c, k) + d <==> a == c && b == d
    decreases k
  {
    if k > 0 {
      ShlUnique(a, b / 2, c, d / 2, k - 1);
    }
  }

  function WordValue(hi: nat, lo: nat): nat {
    256 * hi + lo
  }

  /** The big-endian value of two bytes is that of their sixteen digits. */
  lemma WordText(b: seq<Byte>)
    requires |b| == 2
    ensures BitValue(BytesToBits(b)) == WordValue(b[0], b[1]) < 65536
    ensures BE(WordValue(b[0], b[1])) == b
  {
    hide BytesToBits, BitValue;
    var hi: Byte, lo: Byte := b[0], b[1];
    assert b == [hi, lo];
    ShiftText(hi, lo);
    assert WordValue(hi, lo) / 256 == hi && WordValue(hi, lo) % 256 == lo;
  }

  /** Appending k digits multiplies by 2^k. */
  lemma {:induction false} ValueConcat(s: seq<Bit>, t: seq<Bit>)
    ensures BitValue(s + t) == Shl(BitValue(s), |t|) + BitValue(t)
  {
    if t == [] {
      assert s + t == s;
    } else {
      var n := |t| - 1;
      ValueConcat(s, t[..n]);
      assert (s + t)[..|s| + n] == s + t[..n];
    }
  }

  lemma ShiftText(hi: Byte, lo: Byte)
    ensures BitValue(BytesToBits([hi, lo])) == WordValue(hi, lo)
  {
    hide ToBits, BitValue;
    assert [hi, lo][..1] == [hi] && [hi][..0] == [];
    assert BytesToBits([hi]) == ToBits(hi, 8);
    ValueConcat(ToBits(hi, 8), ToBits(lo, 8));
    ShlByte(hi);
    ValueOfBits(hi, 8);
    ValueOfBits(lo, 8);
  }

  /** The text of a stretch of bytes. */
  lemma TextOfParts(a: seq<Byte>, b: seq<Byte>, c: seq<Byte>)
    ensures BytesToBits(a + (b + c))[8 * |a|..8 * (|a| + |b|)] == BytesToBits(b)
  {
    hide BytesToBits;
    TextConcat(a, b + c);
    TextConcat(b, c);
    MiddlePart(BytesToBits(a), BytesToBits(b), BytesToBits(c), 8 * |a|, 8 * |b|);
  }

  lemma MiddlePart(a: seq<Bit>, b: seq<Bit>, c: seq<Bit>, m: nat, n: nat)
    requires m == |a| && n == |b|
    ensures (a + (b + c))[m..m + n] == b
  {
  }

  lemma {:induction false} TextConcat(a: seq<Byte>, b: seq<Byte>)
    ensures BytesToBits(a + b) == BytesToBits(a) + BytesToBits(b)
  {
    hide ToBits;
    if b == [] {
      assert a + b == a;
    } else {
      var n := |b| - 1;
      TextConcat(a, b[..n]);
      assert (a + b)[..|a| + n] == a + b[..n];
    }
  }

  /** Big-endian value of a byte string. */
  function BigEndian(b: seq<Byte>): nat {
    if b == [] then 0 else WordValue(BigEndian(b[..|b| - 1]), b[|b| - 1])
  }

  lemma LastByte(x: nat, y: nat, i: Byte, j: Byte)
    ensures 256 * x + i == 256 * y + j <==> x == y && i == j
  {
  }

  lemma NoDigits()
    ensures BitValue([]) == 0
  {
  }

  /** The big-endian value of bytes is that of their text. */
  lemma {:induction false} BigEndianText(b: seq<Byte>)
    ensures BigEndian(b) == BitValue(BytesToBits(b))
  {
    hide ToBits, BitValue;
    if b != [] {
      var n := |b| - 1;
      BigEndianText(b[..n]);
      ValueConcat(BytesToBits(b[..n]), ToBits(b[n], 8));
      ShlByte(0);
      ValueOfBits(b[n], 8);
      ShlByte(BitValue(BytesToBits(b[..n])));
    } else {
      assert BytesToBits(b) == [];
      NoDigits();
    }
  }

  lemma {:induction false} BigEndianInjective(a: seq<Byte>, b: seq<Byte>)
    requires |a| == |b| && BigEndian(a) == BigEndian(b)
    ensures a == b
  {
    if a != [] {
      var n := |a| - 1;
      LastByte(BigEndian(a[..n]), BigEndian(b[..n]), a[n], b[n]);
      BigEndianInjective(a[..n], b[..n]);
      assert a == a[..n] + [a[n]] && b == b[..n] + [b[n]];
    }
  }

  lemma BigEndianWord(b: seq<Byte>)
    requires |b| == 2
    ensures BigEndian(b) == WordValue(b[0], b[1]) < 65536 && BE(BigEndian(b)) == b
  {
    hide BytesToBits, BitValue;
    WordText(b);
    assert b[..1][..0] == [] && b[..1] == [b[0]];
    assert BigEndian(b[..1]) == b[0];
  }

  /** The n big-endian bytes of v. */
  function BytesOf(v: nat, n: nat): (r: seq<Byte>)
    ensures |r| == n
    decreases n
  {
    if n == 0 then [] else BytesOf(v / 256, n - 1) + [v % 256]
  }

  /** A byte field has the value v exactly if it is v written big-endian. */
  lemma {:induction false} BytesSpelled(b: seq<Byte>, v: nat)
    requires v < Pow2(8 * |b|)
    ensures BigEndian(b) == v <==> b == BytesOf(v, |b|)
    decreases |b|
  {
    hide Pow2;
    if b == [] {
      EightMore(0);
    } else {
      var n := |b| - 1;
      EightMore(n);
      BytesSpelled(b[..n], v / 256);
      LastByte(BigEndian(b[..n]), v / 256, b[n], v % 256);
      assert b == b[..n] + [b[n]];
    }
  }

  lemma EightMore(n: nat)
    ensures Pow2(8 * (n + 1)) == 256 * Pow2(8 * n) && Pow2(0) == 1
  {
    hide Pow2;
    ShlNext(0, 8 * n);
    ShlNext(0, 8 * n + 1);
    ShlNext(0, 8 * n + 2);
    ShlNext(0, 8 * n + 3);
    ShlNext(0, 8 * n + 4);
    ShlNext(0, 8 * n + 5);
    ShlNext(0, 8 * n + 6);
    ShlNext(0, 8 * n + 7);
    ShlNext(0, 0);
  }

  // ----- bits packed into bytes -----

  /** Every eight bits form a byte. */
  function PackBits(bits: seq<Bit>, n: nat): (r: seq<Byte>)
    requires |bits| == 8 * n
    ensures |r| == n
    decreases n
  {
    if n == 0 then [] else
      OctetBound(bits[8 * (n - 1)..]);
      PackBits(bits[..8 * (n - 1)], n - 1) + [BitValue(bits[8 * (n - 1)..])]
  }

  lemma OctetBound(s: seq<Bit>)
    requires |s| == 8
    ensures BitValue(s) < 256
  {
    hide Pow2, BitValue;
    BitsOfValue(s);
    ShlByte(0);
  }

  lemma {:induction false} PackedText(bits: seq<Bit>, n: nat)
    requires |bits| == 8 * n
    ensures BytesToBits(PackBits(bits, n)) == bits
    decreases n
  {
    hide BitValue, ToBits;
    if n > 0 {
      var front, last := bits[..8 * (n - 1)], bits[8 * (n - 1)..];
      PackedText(front, n - 1);
      OctetBound(last);
      BitsOfValue(last);
      LastText(PackBits(bits, n));
      assert PackBits(bits, n)[..n - 1] == PackBits(front, n - 1);
      JoinText(BytesToBits(PackBits(bits, n)), bits, 8 * (n - 1));
    }
  }

  lemma JoinText(u: seq<Bit>, v: seq<Bit>, n: nat)
    requires n <= |u| && n <= |v| && u[..n] == v[..n] && u[n..] == v[n..]
    ensures u == v
  {
    assert u == u[..n] + u[n..] && v == v[..n] + v[n..];
  }
}
