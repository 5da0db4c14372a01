/** The table-driven CRC, MSB first, with a 16-bit register. */
module Crc {
  import opened Wrappers
  import opened Gf2Poly

  /** An unsigned 16-bit value. */
  type Word = w: nat | w < 65536 witness 0

  /** x^16 + poly, the divisor behind the register. */
  function Generator(poly: Word): nat {
    65536 + poly
  }

  lemma GeneratorSize(poly: Word)
    ensures NBit(Generator(poly)) == 17
    ensures forall r: nat :: NBit(r) < 17 <==> r < 65536
  {
    Powers();
    NBitBounds(Generator(poly), 17);
    NBitBounds(Generator(poly), 16);
    forall r: nat
      ensures NBit(r) < 17 <==> r < 65536
    {
      NBitBounds(r, 16);
    }
  }

  lemma Powers()
    ensures Pow2(8) == 256 && Pow2(16) == 65536 && Pow2(17) == 131072
  {
    assert Pow2(8) == 256;
    assert Pow2(12) == 4096;
  }

  // ----- what a checksum is -----

  /** A byte string as a polynomial, first byte leading. */
  function Val(data: seq<Byte>): nat {
    if data == [] then 0 else Shl(Val(data[..|data| - 1]), 8) + data[|data| - 1]
  }

  /** init aligned with the first 16 bits of the message, plus the message times x^16. */
  function Message(init: Word, data: seq<Byte>): nat {
    Xor(Shl(init, 8 * |data|), Shl(Val(data), 16))
  }

  /** The remainder that defines the checksum. */
  function CrcOf(init: Word, data: seq<Byte>, poly: Word): (r: Word)
  {
    GeneratorSize(poly);
    DivisionExists(Message(init, data), Generator(poly));
    Rem(Message(init, data), Generator(poly))
  }

  lemma ShlShl(p: nat, j: nat, k: nat)
    ensures Shl(Shl(p, j), k) == Shl(p, j + k)
  {
    ShlAdd(p, j, k);
  }

  /** Appending a byte multiplies the message by x^8 and adds the byte at x^16. */
  lemma MessageSnoc(init: Word, data: seq<Byte>, b: Byte)
    ensures Message(init, data + [b]) == Xor(Shl(Message(init, data), 8), Shl(b, 16))
  {
    hide Xor, Shl;
    var n := 8 * |data|;
    var v := Val(data);
    assert (data + [b])[..|data|] == data;
    ShlShl(init, n, 8);
    ShlPlus(v, b);
    ShlXor(Shl(v, 8), b, 16);
    ShlShl(v, 8, 16);
    ShlShl(v, 16, 8);
    ShlXor(Shl(init, n), Shl(v, 16), 8);
    XorAssoc(Shl(init, n + 8), Shl(v, 24), Shl(b, 16));
  }

  lemma ShlPlus(v: nat, b: Byte)
    ensures Shl(v, 8) + b == Xor(Shl(v, 8), b)
  {
    Powers();
    XorParts(v, 0, 0, b, 8);
    XorZero(v);
    XorZero(b);
    ShlZero(8);
  }

  /** A shifted dividend may be reduced before shifting. */
  lemma RemShl(p: nat, k: nat, g: nat)
    requires g > 0
    ensures Rem(Shl(Rem(p, g), k), g) == Rem(Shl(p, k), g)
  {
    CmulShift(p, k);
    CmulShift(Rem(p, g), k);
    RemCmul(Pow2(k), p, g);
  }

  /** One byte of input: the register takes the byte in at the top and is multiplied by x^8. */
  lemma CrcSnoc(init: Word, data: seq<Byte>, b: Byte, poly: Word)
    ensures CrcOf(init, data + [b], poly) == Rem(Shl(Xor(CrcOf(init, data, poly), Shl(b, 8)), 8), Generator(poly))
  {
    hide Xor, Shl, Rem, Message;
    var g, m, r := Generator(poly), Message(init, data), CrcOf(init, data, poly);
    MessageSnoc(init, data, b);
    RemXor(Shl(m, 8), Shl(b, 16), g);
    RemShl(m, 8, g);
    RemXor(Shl(r, 8), Shl(b, 16), g);
    ShlXor(r, Shl(b, 8), 8);
    ShlShl(b, 8, 8);
  }

  lemma CrcEmpty(init: Word, poly: Word)
    ensures CrcOf(init, [], poly) == init
  {
    XorZero(init);
    GeneratorSize(poly);
    ShlZero(16);
    assert Message(init, []) == init;
    RemSmall(init, Generator(poly));
  }

  /** The checksum of a concatenation continues from the checksum of its first part. */
  lemma {:induction false} CrcConcat(init: Word, d: seq<Byte>, e: seq<Byte>, poly: Word)
    ensures CrcOf(init, d + e, poly) == CrcOf(CrcOf(init, d, poly), e, poly)
    decreases |e|
  {
    hide CrcOf;
    if e == [] {
      assert d + e == d;
      CrcEmpty(CrcOf(init, d, poly), poly);
    } else {
      var n := |e| - 1;
      assert d + e == (d + e[..n]) + [e[n]] && e == e[..n] + [e[n]];
      CrcConcat(init, d, e[..n], poly);
      CrcSnoc(init, d + e[..n], e[n], poly);
      CrcSnoc(CrcOf(init, d, poly), e[..n], e[n], poly);
    }
  }

  // ----- the table -----

  /** One doubling of a 16-bit register. */
  lemma RegisterStep(c: Word, poly: Word)
    ensures Rem(2 * c, Generator(poly)) == if c >= 32768 then Xor((2 * c) % 65536, poly) else 2 * c
  {
    GeneratorSize(poly);
    var g := Generator(poly);
    if c >= 32768 {
      var a := 2 * c - 65536;
      assert (2 * c) % 65536 == a;
      CmulOne(g);
      RemAddMultiple(2 * c, g, 1);
      assert Xor(2 * c, g) == Xor(a, poly) < 65536 by {
        Powers();
        ShlIsProduct(1, 16);
        XorParts(1, a, 1, poly, 16);
        ShlZero(16);
      }
      RemSmall(Xor(a, poly), g);
    } else {
      RemSmall(2 * c, g);
    }
  }

  /** Entry t is t * x^16 reduced, for every table index. */
  ghost predicate TableFor(table: seq<Word>, poly: Word) {
    |table| == 256 && forall t :: 0 <= t < 256 ==> table[t] == Rem(Shl(t, 16), Generator(poly))
  }

  method NewTable(poly: Word) returns (table: array<Word>)
    ensures fresh(table) && TableFor(table[..], poly)
  {
    hide Shl, Rem, Xor;
    table := new Word[256](_ => 0);
    var tIdx := 0;
    while tIdx < 256
      invariant 0 <= tIdx <= 256
      invariant forall t :: 0 <= t < tIdx ==> table[t] == Rem(Shl(t, 16), Generator(poly))
    {
      var crc := TableEntry(tIdx, poly);
      table[tIdx] := crc;
      tIdx := tIdx + 1;
    }
  }

  /** Inner loop of NewTable: eight doublings of the index in the upper byte. */
  method TableEntry(tIdx: Byte, poly: Word) returns (crc: Word)
    ensures crc == Rem(Shl(tIdx, 16), Generator(poly))
  {
    ByteAtTop(tIdx, poly);
    hide Rem, Xor;
    crc := tIdx * 256;
    var bIdx := 0;
    while bIdx < 8
      invariant 0 <= bIdx <= 8
      invariant crc == Rem(Shl(tIdx, 8 + bIdx), Generator(poly))
    {
      RegisterStep(crc, poly);
      RemShl(Shl(tIdx, 8 + bIdx), 1, Generator(poly));
      DoubleShl(tIdx, bIdx, crc);
      RegisterBound(2 * crc, poly);
      if crc >= 32768 {
        crc := Xor((2 * crc) % 65536, poly);
      } else {
        crc := 2 * crc;
      }
      bIdx := bIdx + 1;
    }
  }

  lemma DoubleShl(t: nat, k: nat, c: nat)
    ensures Shl(Shl(t, 8 + k), 1) == Shl(t, 8 + (k + 1)) && Shl(c, 1) == 2 * c
  {
    ShlShl(t, 8 + k, 1);
  }

  lemma RegisterBound(p: nat, poly: Word)
    ensures Rem(p, Generator(poly)) < 65536
  {
    GeneratorSize(poly);
    DivisionExists(p, Generator(poly));
  }

  lemma ByteAtTop(t: Byte, poly: Word)
    ensures Shl(t, 8) == 256 * t && Rem(Shl(t, 8), Generator(poly)) == 256 * t
  {
    hide Shl, Rem, Generator;
    ShlByte(t);
    GeneratorSize(poly);
    RemSmall(256 * t, Generator(poly));
  }

  /** The incoming byte meets the upper half of the register. */
  lemma ByteMeetsTop(hi: Byte, lo: Byte, v: Byte)
    ensures Xor(hi, v) < 256
    ensures Xor(256 * hi + lo, Shl(v, 8)) == Shl(Xor(hi, v), 8) + lo
  {
    hide Shl, Xor, Pow2;
    ShlByte(hi);
    XorBound(hi, v, 8);
    XorParts(hi, lo, v, 0, 8);
    XorZero(lo);
  }

  /** Reducing the upper byte is the table's job; the lower byte moves up unchanged. */
  lemma ReduceTop(i: Byte, lo: Byte, table: seq<Word>, poly: Word)
    requires TableFor(table, poly)
    ensures Xor(256 * lo, table[i]) == Rem(Shl(Shl(i, 8) + lo, 8), Generator(poly)) < 65536
  {
    hide Xor, Rem, Shl;
    var g := Generator(poly);
    ShlPlus(i, lo);
    ShlXor(Shl(i, 8), lo, 8);
    ShlShl(i, 8, 8);
    RemXor(Shl(i, 16), Shl(lo, 8), g);
    ByteAtTop(lo, poly);
    XorComm(256 * lo, table[i]);
    RegisterBound(Shl(Shl(i, 8) + lo, 8), poly);
  }

  /** Folding one byte through the table is the same as dividing. */
  lemma TableStep(c: Word, v: Byte, table: seq<Word>, poly: Word)
    requires TableFor(table, poly)
    ensures Xor(c / 256, v) < 256
    ensures Xor((c * 256) % 65536, table[Xor(c / 256, v)]) == Rem(Shl(Xor(c, Shl(v, 8)), 8), Generator(poly)) < 65536
  {
    hide Xor, Rem, Shl, TableFor;
    TableLength(table, poly);
    var hi: Byte, lo: Byte := c / 256, c % 256;
    ByteMeetsTop(hi, lo, v);
    ReduceTop(Xor(hi, v), lo, table, poly);
    assert c == 256 * hi + lo && (c * 256) % 65536 == 256 * lo;
  }

  /** The table-driven checksum is the polynomial remainder. */
  method Checksum(init: Word, data: seq<Byte>, table: array<Word>, ghost poly: Word) returns (crc: Word)
    requires TableFor(table[..], poly)
    ensures crc == CrcOf(init, data, poly)
  {
    hide CrcOf, Xor, Shl, Rem, TableFor;
    crc := init;
    CrcEmpty(init, poly);
    var k := 0;
    assert data[..0] == [];
    while k < |data|
      invariant 0 <= k <= |data| && crc == CrcOf(init, data[..k], poly)
    {
      var v := data[k];
      assert data[..k + 1] == data[..k] + [v];
      CrcSnoc(init, data[..k], v, poly);
      TableStep(crc, v, table[..], poly);
      TableLength(table[..], poly);
      crc := Xor((crc * 256) % 65536, table[Xor(crc / 256, v)]);
      k := k + 1;
    }
    assert data[..k] == data;
  }

  lemma TableLength(table: seq<Word>, poly: Word)
    requires TableFor(table, poly)
    ensures |table| == 256
  {
  }

  // ----- the bit-serial register -----

  /** Feedback shift register: the incoming digit meets the digit leaving at the top. */
  function SerialStep(c: Word, bit: nat, poly: Word): (r: Word)
    requires bit < 2
  {
    WordsXor((2 * c) % 65536, poly);
    if (c >= 32768) != (bit == 1) then Xor((2 * c) % 65536, poly) else (2 * c) % 65536
  }

  /** The register after the k digits of v have been fed in, leading digit first. */
  function Serial(init: Word, v: nat, k: nat, poly: Word): Word
    decreases k
  {
    if k == 0 then init else SerialStep(Serial(init, v / 2, k - 1, poly), v % 2, poly)
  }

  lemma DoubleWraps(c: Word)
    ensures (2 * c) % 65536 == if c >= 32768 then 2 * c - 65536 else 2 * c
  {
  }

  lemma Fifteen()
    ensures Pow2(15) == 32768
  {
    assert Pow2(8) == 256;
    assert Pow2(12) == 4096;
    assert Pow2(15) == 32768;
  }

  lemma ShiftedOne()
    ensures Shl(1, 15) == 32768
  {
    hide Shl, Pow2;
    Fifteen();
    ShlIsProduct(1, 15);
  }

  lemma TopDigit(hi: nat, lo: nat, bit: nat)
    requires hi < 2 && lo < 32768 && bit < 2
    ensures Xor(32768 * hi + lo, Shl(bit, 15)) == (if hi == bit then lo else 32768 + lo)
  {
    hide Xor, Shl, Pow2;
    Fifteen();
    ShiftedOne();
    XorZero(0);
    XorDigit(0, 0, hi, bit);
    ShlZero(15);
    assert Xor(hi, bit) == if hi == bit then 0 else 1;
    XorParts(hi, lo, bit, 0, 15);
    XorZero(lo);
  }

  /** Feeding in a digit is adding it at x^16 after the doubling. */
  lemma SerialStepIsRem(c: Word, bit: nat, poly: Word)
    requires bit < 2
    ensures SerialStep(c, bit, poly) == Rem(Xor(2 * c, Shl(bit, 16)), Generator(poly))
  {
    hide Xor, Rem, Shl, Generator;
    ShlNext(bit, 15);
    var hi, lo := if c >= 32768 then 1 else 0, if c >= 32768 then c - 32768 else c;
    TopDigit(hi, lo, bit);
    var c' := if hi == bit then lo else 32768 + lo;
    XorDouble(c, Shl(bit, 15));
    DoubleWraps(c);
    DoubleWraps(c');
    RegisterStep(c', poly);
  }

  /** The checksum is the state of the bit-serial register after all the message's digits. */
  lemma {:induction false} SerialIsRemainder(init: Word, v: nat, k: nat, poly: Word)
    requires v < Pow2(k)
    ensures Serial(init, v, k, poly) == Rem(Xor(Shl(init, k), Shl(v, 16)), Generator(poly))
    decreases k
  {
    hide Rem, Xor, SerialStep;
    var g := Generator(poly);
    if k == 0 {
      ShlZero(16);
      XorZero(init);
      GeneratorSize(poly);
      RemSmall(init, g);
    } else {
      SerialIsRemainder(init, v / 2, k - 1, poly);
      var m := Xor(Shl(init, k - 1), Shl(v / 2, 16));
      SerialStepIsRem(Serial(init, v / 2, k - 1, poly), v % 2, poly);
      RemDouble(m, Shl(v % 2, 16), g);
      SplitDigit(v);
      XorDouble(Shl(init, k - 1), Shl(v / 2, 16));
      XorAssoc(Shl(init, k), 2 * Shl(v / 2, 16), Shl(v % 2, 16));
    }
  }

  lemma SplitDigit(v: nat)
    ensures Shl(v, 16) == Xor(2 * Shl(v / 2, 16), Shl(v % 2, 16))
  {
    LowDigit(v / 2, v % 2);
    hide Shl, Xor;
    ShlXor(2 * (v / 2), v % 2, 16);
    DoubleOut(v / 2, 16);
  }

  lemma {:induction false} DoubleOut(p: nat, k: nat)
    ensures Shl(2 * p, k) == 2 * Shl(p, k)
  {
    if k > 0 {
      DoubleOut(p, k - 1);
    }
  }

  lemma RemDouble(m: nat, a: nat, g: nat)
    requires g > 0
    ensures Rem(Xor(2 * Rem(m, g), a), g) == Rem(Xor(2 * m, a), g)
  {
    assert Shl(m, 1) == 2 * m && Shl(Rem(m, g), 1) == 2 * Rem(m, g);
    hide Shl, Rem, Xor;
    RemShl(m, 1, g);
    RemXor(2 * Rem(m, g), a, g);
    RemXor(2 * m, a, g);
  }

  lemma {:induction false} ValBound(data: seq<Byte>)
    ensures Val(data) < Pow2(8 * |data|)
  {
    if data != [] {
      ValBound(data[..|data| - 1]);
      Powers();
      var n := 8 * (|data| - 1);
      ShlIsProduct(Val(data[..|data| - 1]), 8);
      assert Pow2(n + 8) == 256 * Pow2(n) by {
        ShlIsProduct(1, n);
        ShlIsProduct(Pow2(n), 8);
        ShlAdd(1, n, 8);
        ShlIsProduct(1, n + 8);
      }
    }
  }

  lemma ChecksumIsSerial(init: Word, data: seq<Byte>, poly: Word)
    ensures CrcOf(init, data, poly) == Serial(init, Val(data), 8 * |data|, poly)
  {
    ValBound(data);
    SerialIsRemainder(init, Val(data), 8 * |data|, poly);
  }

  // ----- linearity and error detection -----

  function XorBytes(d: seq<Byte>, e: seq<Byte>): (r: seq<Byte>)
    requires |d| == |e|
    ensures |r| == |d| && forall i :: 0 <= i < |r| ==> r[i] == Xor(d[i], e[i])
  {
    seq(|d|, i requires 0 <= i < |d| => ByteXor(d[i], e[i]))
  }

  function ByteXor(a: Byte, b: Byte): Byte {
    BytesXor(a, b);
    Xor(a, b)
  }

  lemma BytesXor(a: Byte, b: Byte)
    ensures Xor(a, b) < 256
  {
    Powers();
    XorBound(a, b, 8);
  }

  lemma WordsXor(a: Word, b: Word)
    ensures Xor(a, b) < 65536
  {
    Powers();
    XorBound(a, b, 16);
  }

  lemma {:induction false} ValXor(d: seq<Byte>, e: seq<Byte>)
    requires |d| == |e|
    ensures Val(XorBytes(d, e)) == Xor(Val(d), Val(e))
  {
    hide Shl, Xor;
    if d == [] {
      XorZero(0);
    } else {
      var n := |d| - 1;
      ValXor(d[..n], e[..n]);
      assert XorBytes(d, e)[..n] == XorBytes(d[..n], e[..n]);
      Powers();
      XorParts(Val(d[..n]), d[n], Val(e[..n]), e[n], 8);
    }
  }

  /** The checksum is linear in the register and the message together. */
  lemma CrcLinear(i: Word, j: Word, d: seq<Byte>, e: seq<Byte>, poly: Word)
    requires |d| == |e|
    ensures Xor(i, j) < 65536
    ensures CrcOf(Xor(i, j), XorBytes(d, e), poly) == Xor(CrcOf(i, d, poly), CrcOf(j, e, poly))
  {
    WordsXor(i, j);
    hide Shl, Xor, Rem, Val;
    var n := 8 * |d|;
    ValXor(d, e);
    ShlXor(i, j, n);
    ShlXor(Val(d), Val(e), 16);
    XorSwap4(Shl(i, n), Shl(Val(d), 16), Shl(j, n), Shl(Val(e), 16));
    RemXor(Message(i, d), Message(j, e), Generator(poly));
  }

  /** The constant digit of a product with an odd factor is that of the other factor. */
  lemma OddFactor(g: nat, k: nat)
    requires g % 2 == 1
    ensures Cmul(g, k) % 2 == k % 2
  {
    XorDigitLow(k, 2 * Cmul(g / 2, k));
  }

  lemma XorDigitLow(a: nat, b: nat)
    ensures Xor(a, b) % 2 == if a % 2 == b % 2 then 0 else 1
  {
    hide Xor;
    var u, v, i, j := a / 2, b / 2, a % 2, b % 2;
    assert a == 2 * u + i && b == 2 * v + j;
    XorDigit(u, v, i, j);
  }

  /** An odd generator has no factor x, so powers of x can be cancelled. */
  lemma {:induction false} ShiftKeepsRemainder(p: nat, k: nat, g: nat)
    requires g % 2 == 1
    ensures Rem(Shl(p, k), g) == 0 <==> Rem(p, g) == 0
    decreases k
  {
    hide Rem, Shl;
    ShlNext(p, 0);
    if k > 0 {
      ShiftKeepsRemainder(p, k - 1, g);
      ShlNext(p, k - 1);
      DoubleKeepsRemainder(Shl(p, k - 1), g);
    }
  }

  lemma DoubleKeepsRemainder(a: nat, g: nat)
    requires g % 2 == 1
    ensures Rem(2 * a, g) == 0 <==> Rem(a, g) == 0
  {
    hide Rem, Cmul, Quot;
    RemZero(a, g);
    RemZero(2 * a, g);
    if Rem(a, g) == 0 {
      CmulDouble(g, Quot(a, g));
      assert 2 * a == Cmul(g, 2 * Quot(a, g));
    }
    if Rem(2 * a, g) == 0 {
      var q := Quot(2 * a, g);
      OddFactor(g, q);
      CmulDouble(g, q / 2);
      assert a == Cmul(g, q / 2);
    }
  }

  /** For an odd polynomial, changing a message by a burst of at most 16 bits changes its checksum. */
  lemma BurstDetected(init: Word, d: seq<Byte>, e: seq<Byte>, burst: Word, k: nat, poly: Word)
    requires poly % 2 == 1 && |d| == |e| && burst != 0
    requires Xor(Val(d), Val(e)) == Shl(burst, k)
    ensures CrcOf(init, d, poly) != CrcOf(init, e, poly)
  {
    hide Shl, Xor, Rem, Val;
    var n, g := 8 * |d|, Generator(poly);
    XorSwap4(Shl(init, n), Shl(Val(d), 16), Shl(init, n), Shl(Val(e), 16));
    XorSelf(Shl(init, n));
    ShlXor(Val(d), Val(e), 16);
    XorZero(Shl(Shl(burst, k), 16));
    ShlShl(burst, k, 16);
    RemXor(Message(init, d), Message(init, e), g);
    ShiftKeepsRemainder(burst, k + 16, g);
    GeneratorSize(poly);
    RemSmall(burst, g);
    XorIsZero(CrcOf(init, d, poly), CrcOf(init, e, poly));
  }

  // ----- embedded check fields -----

  /** Big-endian bytes of a 16-bit value. */
  function BE(t: Word): (r: seq<Byte>)
    ensures |r| == 2
  {
    [t / 256, t % 256]
  }

  lemma ValBE(t: Word)
    ensures Val(BE(t)) == t
  {
    Powers();
    ShlIsProduct(t / 256, 8);
    ShlZero(8);
    hide Shl;
    var b := BE(t);
    assert b[..1] == [t / 256] && b[..1][..0] == [];
    assert Val(b[..1]) == t / 256;
    assert Val(b) == Shl(Val(b[..1]), 8) + t % 256;
  }

  /** Running the checksum over a message and a check field leaves the field's error, shifted out. */
  lemma CheckField(init: Word, d: seq<Byte>, t: Word, poly: Word)
    ensures CrcOf(init, d + BE(t), poly) == Rem(Shl(Xor(CrcOf(init, d, poly), t), 16), Generator(poly))
  {
    hide Shl, Xor, Rem, Val;
    CrcConcat(init, d, BE(t), poly);
    var c := CrcOf(init, d, poly);
    ValBE(t);
    ShlXor(c, t, 16);
  }

  /** Two register values with the same residue are equal when the polynomial is odd. */
  lemma ResidueInjective(u: Word, v: Word, poly: Word)
    requires poly % 2 == 1
    ensures Rem(Shl(u, 16), Generator(poly)) == Rem(Shl(v, 16), Generator(poly)) <==> u == v
  {
    hide Shl, Xor, Rem;
    var g := Generator(poly);
    ShlXor(u, v, 16);
    RemXor(Shl(u, 16), Shl(v, 16), g);
    XorIsZero(Rem(Shl(u, 16), g), Rem(Shl(v, 16), g));
    ShiftKeepsRemainder(Xor(u, v), 16, g);
    GeneratorSize(poly);
    WordsXor(u, v);
    RemSmall(Xor(u, v), g);
    XorIsZero(u, v);
  }

  /** With an odd polynomial a message passes with residue zero exactly when its check field is the
      checksum of what precedes it. */
  lemma ZeroResidue(init: Word, d: seq<Byte>, t: Word, poly: Word)
    requires poly % 2 == 1
    ensures CrcOf(init, d + BE(t), poly) == 0 <==> t == CrcOf(init, d, poly)
  {
    hide Shl, Xor, Rem;
    CheckField(init, d, t, poly);
    var c := CrcOf(init, d, poly);
    WordsXor(c, t);
    ResidueInjective(Xor(c, t), 0, poly);
    ShlZero(16);
    GeneratorSize(poly);
    RemSmall(0, Generator(poly));
    XorIsZero(c, t);
  }

  /** Every even polynomial accepts a wrong check field for every message: the condition that the
      polynomial is odd is needed as well as sufficient. */
  lemma EvenPolynomialFails(init: Word, d: seq<Byte>, poly: Word)
    requires poly % 2 == 0
    ensures var t := Xor(CrcOf(init, d, poly), Generator(poly) / 2);
            t < 65536 && t != CrcOf(init, d, poly) && CrcOf(init, d + BE(t), poly) == 0
  {
    hide Shl, Xor, Rem, CrcOf;
    var c, h, g := CrcOf(init, d, poly), Generator(poly) / 2, Generator(poly);
    WordsXor(c, h);
    var t := Xor(c, h);
    CheckField(init, d, t, poly);
    XorCancel(c, h);
    XorSelf(c);
    assert g == 2 * h;
    ShiftOfDouble(h);
    CmulShift(g, 15);
    RemZero(Shl(g, 15), g);
  }

  lemma ShiftOfDouble(h: nat)
    ensures Shl(h, 16) == Shl(2 * h, 15)
  {
    ShlAdd(h, 1, 15);
    assert Shl(h, 1) == 2 * h;
  }

  // ----- the CCITT residue -----

  const CCITT: Word := 0x1021
  const CCITT_INIT: Word := 0xFFFF
  const CCITT_RESIDUE: Word := 0x1D0F

  /** a with the binary digit of weight p inverted. */
  function Flip(a: nat, p: nat): nat
    requires p > 0
  {
    if a / p % 2 == 1 then a - p else a + p
  }

  lemma XorAt(h: nat, v: nat, k: nat)
    requires v < Pow2(k)
    ensures Xor(Shl(h, k) + v, Pow2(k)) == Shl(if h % 2 == 1 then h - 1 else h + 1, k) + v
  {
    hide Xor, Shl, Pow2;
    ShlIsProduct(1, k);
    assert 2 * (h / 2) + h % 2 == h;
    XorDigit(h / 2, 0, h % 2, 1);
    XorZero(h / 2);
    XorZero(v);
    XorParts(h, v, 1, 0, k);
  }

  lemma Twelve()
    ensures Pow2(12) == 4096
  {
  }

  lemma FlipTwelve(a: nat)
    ensures Xor(a, 4096) == Flip(a, 4096)
  {
    var h, v := a / 4096, a % 4096;
    hide Xor, Pow2, Shl;
    Twelve();
    XorAt(h, v, 12);
    ShlIsProduct(h, 12);
    ShlIsProduct(if h % 2 == 1 then h - 1 else h + 1, 12);
  }

  lemma FlipFive(a: nat)
    ensures Xor(a, 32) == Flip(a, 32)
  {
    var h, v := a / 32, a % 32;
    assert Pow2(5) == 32;
    hide Xor, Pow2;
    XorAt(h, v, 5);
    ShlIsProduct(h, 5);
    ShlIsProduct(if h % 2 == 1 then h - 1 else h + 1, 5);
  }

  lemma FlipZero(a: nat)
    ensures Xor(a, 1) == Flip(a, 1)
  {
    XorDigit(a / 2, 0, a % 2, 1);
    XorZero(a / 2);
  }

  /** Doubling the CCITT register: shift, and invert digits 12, 5 and 0 when the top digit leaves. */
  function CcittStep(c: Word): nat {
    if c >= 32768 then Flip(Flip(Flip(2 * c - 65536, 4096), 32), 1) else 2 * c
  }

  lemma XorCcitt(a: nat)
    ensures Xor(a, CCITT) == Flip(Flip(Flip(a, 4096), 32), 1)
  {
    hide Xor;
    FlipFive(4096);
    FlipZero(4128);
    FlipTwelve(a);
    FlipFive(Xor(a, 4096));
    FlipZero(Xor(Xor(a, 4096), 32));
    XorAssoc(a, 4096, 32);
    XorAssoc(a, 4128, 1);
  }

  lemma CcittStepIsRem(c: Word)
    ensures Rem(2 * c, Generator(CCITT)) == CcittStep(c) < 65536
  {
    hide Xor, Flip, Rem;
    RegisterStep(c, CCITT);
    RegisterBound(2 * c, CCITT);
    if c >= 32768 {
      assert (2 * c) % 65536 == 2 * c - 65536;
      XorCcitt(2 * c - 65536);
    }
  }

  lemma CcittAdvance(k: nat, c: Word)
    requires Rem(Shl(CCITT_INIT, k), Generator(CCITT)) == c
    ensures Rem(Shl(CCITT_INIT, k + 1), Generator(CCITT)) == CcittStep(c)
  {
    hide Rem, CcittStep;
    CcittStepIsRem(c);
    RemShl(Shl(CCITT_INIT, k), 1, Generator(CCITT));
    ShlAdd(CCITT_INIT, k, 1);
    assert Shl(c, 1) == 2 * c && Shl(Shl(CCITT_INIT, k), 1) == 2 * Shl(CCITT_INIT, k);
  }

  /** The register after each of the first rounds, starting from all ones. */
  lemma Rounds0()
    ensures CcittStep(0xFFFF) == 0xEFDF && CcittStep(0xEFDF) == 0xCF9F
  {
  }

  lemma Rounds1()
    ensures CcittStep(0xCF9F) == 0x8F1F && CcittStep(0x8F1F) == 0x0E1F
  {
  }

  lemma Rounds2()
    ensures CcittStep(0x0E1F) == 0x1C3E && CcittStep(0x1C3E) == 0x387C
  {
  }

  lemma Rounds3()
    ensures CcittStep(0x387C) == 0x70F8 && CcittStep(0x70F8) == 0xE1F0
  {
  }

  lemma Rounds4()
    ensures CcittStep(0xE1F0) == 0xD3C1 && CcittStep(0xD3C1) == 0xB7A3
  {
  }

  lemma Rounds5()
    ensures CcittStep(0xB7A3) == 0x7F67 && CcittStep(0x7F67) == 0xFECE
  {
  }

  lemma Rounds6()
    ensures CcittStep(0xFECE) == 0xEDBD && CcittStep(0xEDBD) == 0xCB5B
  {
  }

  lemma Rounds7()
    ensures CcittStep(0xCB5B) == 0x8697 && CcittStep(0x8697) == 0x1D0F
  {
  }

  lemma CcittResidue()
    ensures Rem(Shl(CCITT_INIT, 16), Generator(CCITT)) == CCITT_RESIDUE
  {
    GeneratorSize(CCITT);
    RemSmall(CCITT_INIT, Generator(CCITT));
    assert Shl(CCITT_INIT, 0) == CCITT_INIT;
    hide Rem, Shl, CcittStep;
    Rounds0();
    CcittAdvance(0, 0xFFFF);
    CcittAdvance(1, 0xEFDF);
    Rounds1();
    CcittAdvance(2, 0xCF9F);
    CcittAdvance(3, 0x8F1F);
    Rounds2();
    CcittAdvance(4, 0x0E1F);
    CcittAdvance(5, 0x1C3E);
    Rounds3();
    CcittAdvance(6, 0x387C);
    CcittAdvance(7, 0x70F8);
    Rounds4();
    CcittAdvance(8, 0xE1F0);
    CcittAdvance(9, 0xD3C1);
    Rounds5();
    CcittAdvance(10, 0xB7A3);
    CcittAdvance(11, 0x7F67);
    Rounds6();
    CcittAdvance(12, 0xFECE);
    CcittAdvance(13, 0xEDBD);
    Rounds7();
    CcittAdvance(14, 0xCB5B);
    CcittAdvance(15, 0x8697);
  }

  lemma {:induction false} Complement(a: nat, k: nat)
    requires a < Pow2(k)
    ensures Xor(a, Pow2(k) - 1) == Pow2(k) - 1 - a
  {
    hide Xor;
    if k == 0 {
      XorZero(0);
    } else {
      assert 2 * (a / 2) + a % 2 == a;
      Complement(a / 2, k - 1);
      XorDigit(a / 2, Pow2(k - 1) - 1, a % 2, 1);
    }
  }

  /** With the CCITT polynomial a message passes with residue 0x1D0F exactly when its check field is
      the complement of the checksum of what precedes it. */
  lemma ComplementResidue(init: Word, d: seq<Byte>, t: Word)
    ensures CrcOf(init, d + BE(t), CCITT) == CCITT_RESIDUE <==> t == 0xFFFF - CrcOf(init, d, CCITT)
  {
    hide Rem, Shl, CrcOf, Xor;
    CheckField(init, d, t, CCITT);
    CcittResidue();
    var c := CrcOf(init, d, CCITT);
    WordsXor(c, t);
    ResidueInjective(Xor(c, t), CCITT_INIT, CCITT);
    XorCancel(c, t);
    XorCancel(c, 0xFFFF);
    Powers();
    Complement(c, 16);
  }
}
