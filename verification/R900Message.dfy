/** R900 payloads: fields, 5-bit symbols and base-6 digits, in both directions. */
module R900Message {
  import opened Wrappers
  import opened Gf2Poly
  import opened Bits
  import opened R900Filter

  // ----- fields and bits -----

  datatype Fields = Fields(id: nat, unkn1: nat, noUse: nat, backFlow: nat,
                           consumption: nat, unkn3: nat, leak: nat, leakNow: nat)

  /** Each field fits the number of digits it is printed with. */
  ghost predicate InRange(f: Fields) {
    && f.id < Pow2(32) && f.unkn1 < Pow2(8) && f.noUse < Pow2(6) && f.backFlow < Pow2(2)
    && f.consumption < Pow2(24) && f.unkn3 < Pow2(2) && f.leak < Pow2(4) && f.leakNow < Pow2(2)
  }

  function FieldBits(f: Fields): (r: seq<Bit>)
    ensures |r| == 80
  {
    ToBits(f.id, 32) + ToBits(f.unkn1, 8) + ToBits(f.noUse, 6) + ToBits(f.backFlow, 2)
    + ToBits(f.consumption, 24) + ToBits(f.unkn3, 2) + ToBits(f.leak, 4) + ToBits(f.leakNow, 2)
  }

  function ParseFields(bits: seq<Bit>): Fields
    requires |bits| >= 80
  {
    Fields(BitValue(bits[..32]), BitValue(bits[32..40]), BitValue(bits[40..46]), BitValue(bits[46..48]),
           BitValue(bits[48..72]), BitValue(bits[72..74]), BitValue(bits[74..78]), BitValue(bits[78..80]))
  }

  /** Where the fields stand: the parser reads f exactly from the bits that spell every field at its place. */
  lemma FieldPlaces(bits: seq<Bit>, f: Fields)
    requires |bits| >= 80 && InRange(f)
    ensures ParseFields(bits) == f <==>
            && bits[..32] == ToBits(f.id, 32) && bits[32..40] == ToBits(f.unkn1, 8) && bits[40..46] == ToBits(f.noUse, 6)
            && bits[46..48] == ToBits(f.backFlow, 2) && bits[48..72] == ToBits(f.consumption, 24)
            && bits[72..74] == ToBits(f.unkn3, 2) && bits[74..78] == ToBits(f.leak, 4)
            && bits[78..80] == ToBits(f.leakNow, 2)
  {
    hide Pow2, ToBits, BitValue;
    FieldSpelled(bits[..32], f.id);
    FieldSpelled(bits[32..40], f.unkn1);
    FieldSpelled(bits[40..46], f.noUse);
    FieldSpelled(bits[46..48], f.backFlow);
    FieldSpelled(bits[48..72], f.consumption);
    FieldSpelled(bits[72..74], f.unkn3);
    FieldSpelled(bits[74..78], f.leak);
    FieldSpelled(bits[78..80], f.leakNow);
  }

  /** Parsing undoes printing. */
  lemma FieldsRoundTrip(f: Fields, rest: seq<Bit>)
    requires InRange(f)
    ensures ParseFields(FieldBits(f) + rest) == f
  {
    hide Pow2, ToBits, BitValue;
    var b := FieldBits(f) + rest;
    assert b[..32] == ToBits(f.id, 32) && b[32..40] == ToBits(f.unkn1, 8) && b[40..46] == ToBits(f.noUse, 6)
        && b[46..48] == ToBits(f.backFlow, 2) && b[48..72] == ToBits(f.consumption, 24)
        && b[72..74] == ToBits(f.unkn3, 2) && b[74..78] == ToBits(f.leak, 4) && b[78..80] == ToBits(f.leakNow, 2);
    ValueOfBits(f.id, 32);
    ValueOfBits(f.unkn1, 8);
    ValueOfBits(f.noUse, 6);
    ValueOfBits(f.backFlow, 2);
    ValueOfBits(f.consumption, 24);
    ValueOfBits(f.unkn3, 2);
    ValueOfBits(f.leak, 4);
    ValueOfBits(f.leakNow, 2);
  }

  /** Printing undoes parsing: the fields determine the 80 data bits. */
  lemma BitsRoundTrip(b: seq<Bit>)
    requires |b| >= 80
    ensures InRange(ParseFields(b)) && FieldBits(ParseFields(b)) == b[..80]
  {
    hide Pow2, ToBits, BitValue;
    BitsOfValue(b[..32]);
    BitsOfValue(b[32..40]);
    BitsOfValue(b[40..46]);
    BitsOfValue(b[46..48]);
    BitsOfValue(b[48..72]);
    BitsOfValue(b[72..74]);
    BitsOfValue(b[74..78]);
    BitsOfValue(b[78..80]);
    assert b[..80] == b[..32] + b[32..40] + b[40..46] + b[46..48] + b[48..72] + b[72..74] + b[74..78] + b[78..80];
  }

  // ----- symbols -----

  /** Each symbol written as five bits. */
  function SymbolBits(s: seq<Byte>): (r: seq<Bit>)
    ensures |r| == 5 * |s|
  {
    if s == [] then [] else SymbolBits(s[..|s| - 1]) + ToBits(s[|s| - 1], 5)
  }

  /** Bits grouped by five. */
  function GroupBits(b: seq<Bit>, n: nat): (r: seq<Byte>)
    requires |b| == 5 * n
    ensures |r| == n && forall i :: 0 <= i < n ==> r[i] < 32
  {
    if n == 0 then [] else
      GroupBound(b[5 * (n - 1)..]);
      GroupBits(b[..5 * (n - 1)], n - 1) + [BitValue(b[5 * (n - 1)..])]
  }

  lemma GroupBound(s: seq<Bit>)
    requires |s| == 5
    ensures BitValue(s) < 32
  {
    BitsOfValue(s);
    assert Pow2(5) == 32;
  }

  /** Symbol k stands in bits 5k to 5k + 4, its most significant bit first. */
  lemma {:induction false} SymbolPlaces(s: seq<Byte>, k: nat)
    requires k < |s|
    ensures SymbolBits(s)[5 * k..5 * k + 5] == ToBits(s[k], 5)
    decreases |s|
  {
    hide ToBits;
    var n := |s| - 1;
    if k < n {
      SymbolPlaces(s[..n], k);
      assert SymbolBits(s)[5 * k..5 * k + 5] == SymbolBits(s[..n])[5 * k..5 * k + 5];
    }
  }

  lemma {:induction false} GroupThenPrint(b: seq<Bit>, n: nat)
    requires |b| == 5 * n
    ensures SymbolBits(GroupBits(b, n)) == b
  {
    hide ToBits, BitValue;
    if n > 0 {
      var m := 5 * (n - 1);
      GroupThenPrint(b[..m], n - 1);
      BitsOfValue(b[m..]);
      var g := GroupBits(b, n);
      assert g[..n - 1] == GroupBits(b[..m], n - 1);
      assert b == b[..m] + b[m..];
    }
  }

  lemma {:induction false} PrintThenGroup(s: seq<Byte>)
    requires forall i :: 0 <= i < |s| ==> s[i] < 32
    ensures GroupBits(SymbolBits(s), |s|) == s
  {
    hide ToBits, BitValue;
    if s != [] {
      var n := |s| - 1;
      PrintThenGroup(s[..n]);
      assert Pow2(5) == 32;
      ValueOfBits(s[n], 5);
      var b := SymbolBits(s);
      assert b[..5 * n] == SymbolBits(s[..n]) && b[5 * n..] == ToBits(s[n], 5);
      assert s == s[..n] + [s[n]];
    }
  }

  /** Distinct symbol sequences print to distinct bit strings. */
  lemma SymbolBitsInjective(s: seq<Byte>, t: seq<Byte>)
    requires |s| == |t| && (forall i :: 0 <= i < |s| ==> s[i] < 32) && (forall i :: 0 <= i < |t| ==> t[i] < 32)
    ensures SymbolBits(s) == SymbolBits(t) <==> s == t
  {
    PrintThenGroup(s);
    PrintThenGroup(t);
  }

  lemma {:induction false} SymbolBitsConcat(s: seq<Byte>, t: seq<Byte>)
    ensures SymbolBits(s + t) == SymbolBits(s) + SymbolBits(t)
  {
    hide ToBits;
    if t == [] {
      assert s + t == s;
    } else {
      var n := |t| - 1;
      SymbolBitsConcat(s, t[..n]);
      assert (s + t)[..|s| + n] == s + t[..n];
    }
  }

  /** 21 symbols are determined by their fields and their five parity symbols. */
  lemma WordFromFields(s: seq<Byte>, t: seq<Byte>)
    requires |s| == 21 && |t| == 21 && (forall i :: 0 <= i < 21 ==> s[i] < 32) && (forall i :: 0 <= i < 21 ==> t[i] < 32)
    requires ParseFields(SymbolBits(s)) == ParseFields(SymbolBits(t)) && s[16..] == t[16..]
    ensures s == t
  {
    hide ParseFields, SymbolBits, FieldBits;
    BitsRoundTrip(SymbolBits(s));
    BitsRoundTrip(SymbolBits(t));
    assert s == s[..16] + s[16..] && t == t[..16] + t[16..];
    SymbolBitsConcat(s[..16], s[16..]);
    SymbolBitsConcat(t[..16], t[16..]);
    assert SymbolBits(s[..16]) == SymbolBits(s)[..80] && SymbolBits(t[..16]) == SymbolBits(t)[..80];
    SymbolBitsInjective(s[..16], t[..16]);
  }

  /** A word carries f when its first 16 symbols spell out the field bits. */
  lemma WordCarries(f: Fields, parity: seq<Byte>)
    requires InRange(f)
    ensures ParseFields(SymbolBits(GroupBits(FieldBits(f), 16) + parity)) == f
  {
    hide ParseFields, SymbolBits, FieldBits, InRange, GroupBits;
    SymbolBitsConcat(GroupBits(FieldBits(f), 16), parity);
    GroupThenPrint(FieldBits(f), 16);
    FieldsRoundTrip(f, SymbolBits(parity));
  }

  // ----- digits -----

  /** Two base-6 digits per symbol, the more significant one first. */
  function DigitsOf(s: seq<Byte>): (r: seq<Digit>)
    requires forall i :: 0 <= i < |s| ==> s[i] < 32
    ensures |r| == 2 * |s|
  {
    if s == [] then [] else
      DigitRange(s[|s| - 1]);
      DigitsOf(s[..|s| - 1]) + [s[|s| - 1] / 6, s[|s| - 1] % 6]
  }

  /** Symbol k is sent as digits 2k and 2k + 1, the sixes first. */
  lemma {:induction false} DigitPlaces(s: seq<Byte>, k: nat)
    requires k < |s| && forall i :: 0 <= i < |s| ==> s[i] < 32
    ensures DigitsOf(s)[2 * k] == s[k] / 6 && DigitsOf(s)[2 * k + 1] == s[k] % 6
    decreases |s|
  {
    if k < |s| - 1 {
      DigitPlaces(s[..|s| - 1], k);
    }
  }

  lemma DigitRange(v: nat)
    requires v < 32
    ensures 0 <= v / 6 < 6 && 0 <= v % 6 < 6 && 6 * (v / 6) + v % 6 == v
  {
  }

  /** Value of digit pair k. */
  function PairValue(digits: seq<Digit>, k: nat): nat
    requires 2 * k + 1 < |digits|
  {
    (digits[2 * k] as int) * 6 + digits[2 * k + 1] as int
  }

  /** The symbols, unless a digit pair exceeds five bits. */
  function PairDigits(digits: seq<Digit>): (r: Option<seq<Byte>>)
    requires |digits| % 2 == 0
    ensures r.Some? <==> forall k :: 0 <= k < |digits| / 2 ==> PairValue(digits, k) <= 31
    ensures r.Some? ==> 2 * |r.value| == |digits|
                        && forall k :: 0 <= k < |r.value| ==> r.value[k] == PairValue(digits, k)
  {
    if exists k :: 0 <= k < |digits| / 2 && PairValue(digits, k) > 31 then None
    else Some(seq(|digits| / 2, k requires 0 <= k < |digits| / 2 => PairByte(digits, k)))
  }

  function PairByte(digits: seq<Digit>, k: nat): (r: Byte)
    requires 2 * k + 1 < |digits|
    ensures r == PairValue(digits, k)
  {
    PairValue(digits, k)
  }

  /** Pairing undoes the expansion into digits. */
  lemma DigitsRoundTrip(s: seq<Byte>)
    requires forall i :: 0 <= i < |s| ==> s[i] < 32
    ensures PairDigits(DigitsOf(s)) == Some(s)
  {
    hide PairValue, DigitsOf, PairDigits;
    var d, n := DigitsOf(s), |s|;
    assert |d| / 2 == n;
    forall k | 0 <= k < n
      ensures PairValue(d, k) == s[k]
    {
      PairOf(s, k);
    }
    var p := PairDigits(d);
    assert p.Some? && |p.value| == n;
    assert p.value == s;
  }

  lemma {:induction false} PairOf(s: seq<Byte>, k: nat)
    requires k < |s| && forall i :: 0 <= i < |s| ==> s[i] < 32
    ensures PairValue(DigitsOf(s), k) == s[k]
    decreases |s|
  {
    var n := |s| - 1;
    if k < n {
      PairOf(s[..n], k);
    } else {
      DigitRange(s[n]);
    }
  }
}
