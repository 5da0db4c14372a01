/** Standard Consumption Messages: acceptance by zero residue and split bit fields. */
module Scm {
  import opened Wrappers
  import opened Gf2Poly
  import opened Bits
  import opened Crc
  import opened Acceptance
  import D = Decoder

  const POLY: Word := 0x6F63
  const PACKET_BYTES: nat := 12

  datatype Message = Message(id: nat, typ: nat, tamperPhy: nat, tamperEnc: nat, consumption: nat, checksum: nat)

  /** Fields of the 96 packet bits; the meter id is split in two. */
  function NewSCM(bits: seq<Bit>): Message
    requires |bits| >= 96
  {
    Message(BitValue(bits[21..23] + bits[56..80]), BitValue(bits[26..30]), BitValue(bits[24..26]),
            BitValue(bits[30..32]), BitValue(bits[32..56]), BitValue(bits[80..96]))
  }

  /** The weight of the meter id's upper two bits, 2^24. */
  const ID_LOW: nat := 0x1000000

  /** Each field fits its digits. */
  ghost predicate InRange(m: Message) {
    m.id < Pow2(26) && m.typ < Pow2(4) && m.tamperPhy < Pow2(2) && m.tamperEnc < Pow2(2)
    && m.consumption < Pow2(24) && m.checksum < Pow2(16)
  }

  /** The packet bits spell m: every field stands in binary at its place, the meter id with its upper two bits
      before the rest. */
  ghost predicate Spells(bits: seq<Bit>, m: Message)
    requires |bits| >= 96
  {
    && bits[21..23] == ToBits(m.id / ID_LOW, 2) && bits[56..80] == ToBits(m.id % ID_LOW, 24)
    && bits[24..26] == ToBits(m.tamperPhy, 2)
    && bits[26..30] == ToBits(m.typ, 4)
    && bits[30..32] == ToBits(m.tamperEnc, 2)
    && bits[32..56] == ToBits(m.consumption, 24)
    && bits[80..96] == ToBits(m.checksum, 16)
  }

  lemma IdParts(id: nat)
    requires id < Pow2(26)
    ensures id / ID_LOW < Pow2(2) && id % ID_LOW < Pow2(24) && Shl(id / ID_LOW, 24) + id % ID_LOW == id
  {
    assert Pow2(2) == 4;
    assert Pow2(8) == 256;
    assert Pow2(16) == 65536;
    assert Pow2(24) == 16777216;
    assert Pow2(26) == 67108864;
    hide Shl, Pow2;
    ShlIsProduct(id / ID_LOW, 24);
  }

  /** The parser reads m exactly from the bits that spell it. */
  lemma FieldPlaces(bits: seq<Bit>, m: Message)
    requires |bits| >= 96 && InRange(m)
    ensures NewSCM(bits) == m <==> Spells(bits, m)
  {
    hide Pow2, ToBits, BitValue;
    FieldSpelled(bits[24..26], m.tamperPhy);
    FieldSpelled(bits[26..30], m.typ);
    FieldSpelled(bits[30..32], m.tamperEnc);
    FieldSpelled(bits[32..56], m.consumption);
    FieldSpelled(bits[80..96], m.checksum);
    IdParts(m.id);
    SplitSpelled(bits[21..23], bits[56..80], m.id / ID_LOW, m.id % ID_LOW);
  }

  /** What the parser reads is in range, so its bits spell it. */
  lemma ParsedSpelled(bits: seq<Bit>)
    requires |bits| >= 96
    ensures InRange(NewSCM(bits)) && Spells(bits, NewSCM(bits))
  {
    hide Pow2, ToBits, BitValue, Spells;
    BitsOfValue(bits[24..26]);
    BitsOfValue(bits[26..30]);
    BitsOfValue(bits[30..32]);
    BitsOfValue(bits[32..56]);
    BitsOfValue(bits[80..96]);
    BitsOfValue(bits[21..23] + bits[56..80]);
    FieldPlaces(bits, NewSCM(bits));
  }

  /** A packet for every message, sync word and spare bit. */
  function Layout(sync: seq<Bit>, spare: Bit, m: Message): seq<Bit> {
    sync + (ToBits(m.id / ID_LOW, 2) + ([spare] + (ToBits(m.tamperPhy, 2) + (ToBits(m.typ, 4) + (ToBits(m.tamperEnc, 2)
    + (ToBits(m.consumption, 24) + (ToBits(m.id % ID_LOW, 24) + ToBits(m.checksum, 16))))))))
  }

  lemma LayoutRoundTrip(sync: seq<Bit>, spare: Bit, m: Message)
    requires |sync| == 21 && InRange(m)
    ensures |Layout(sync, spare, m)| == 96 && sync <= Layout(sync, spare, m) && NewSCM(Layout(sync, spare, m)) == m
  {
    hide Pow2, ToBits, BitValue, NewSCM;
    FieldPlaces(Layout(sync, spare, m), m);
  }

  /** What the parser checks. */
  ghost predicate Accepts(bytes: seq<Byte>) {
    |bytes| == PACKET_BYTES && CrcOf(0, bytes[2..12], POLY) == 0 && NewSCM(BytesToBits(bytes)).id != 0
  }

  /** A packet passes exactly when its last two bytes are the checksum of bytes 2 to 9 and its meter id is
      not zero, and then that checksum is the one reported. */
  lemma AcceptedMeans(bytes: seq<Byte>)
    requires |bytes| == PACKET_BYTES
    ensures Accepts(bytes) <==>
            bytes[10..12] == BE(CrcOf(0, bytes[2..10], POLY)) && NewSCM(BytesToBits(bytes)).id != 0
    ensures Accepts(bytes) ==> NewSCM(BytesToBits(bytes)).checksum == CrcOf(0, bytes[2..10], POLY)
  {
    hide CrcOf, BytesToBits, BitValue;
    var d, t := bytes[2..10], bytes[10..12];
    WordText(t);
    var v: Word := WordValue(t[0], t[1]);
    assert bytes[2..12] == d + BE(v);
    ZeroResidue(0, d, v, POLY);
    ChecksumField(bytes);
  }

  /** A packet that spells m passes exactly when m's checksum is right and its meter id is not zero. */
  lemma SpelledAccepted(bytes: seq<Byte>, m: Message)
    requires |bytes| == PACKET_BYTES && InRange(m) && Spells(BytesToBits(bytes), m)
    ensures NewSCM(BytesToBits(bytes)) == m
    ensures Accepts(bytes) <==> m.checksum == CrcOf(0, bytes[2..10], 0x6F63) && m.id != 0
  {
    hide CrcOf, BytesToBits, BitValue, ToBits, Pow2, Spells;
    FieldPlaces(BytesToBits(bytes), m);
    AcceptedMeans(bytes);
    ChecksumField(bytes);
    WordText(bytes[10..12]);
    ValBE(CrcOf(0, bytes[2..10], POLY));
    CheckValue(bytes[10..12], CrcOf(0, bytes[2..10], POLY));
  }

  lemma CheckValue(b: seq<Byte>, v: Word)
    requires |b| == 2
    ensures b == BE(v) <==> WordValue(b[0], b[1]) == v
  {
    WordText(b);
  }

  lemma ChecksumField(bytes: seq<Byte>)
    requires |bytes| == PACKET_BYTES
    ensures BytesToBits(bytes)[80..96] == BytesToBits(bytes[10..12])
  {
    hide ToBits;
    var a, b := bytes[10], bytes[11];
    assert bytes[..11][..10] == bytes[..10];
    assert bytes[10..12][..1] == [a] && [a][..0] == [];
    assert BytesToBits([a]) == ToBits(a, 8);
    assert BytesToBits(bytes) == BytesToBits(bytes[..11]) + ToBits(b, 8);
    assert BytesToBits(bytes[..11]) == BytesToBits(bytes[..10]) + ToBits(a, 8);
  }

  /** The message determines the packet up to the sync bits 0 to 20 and the unused bit 23. */
  lemma MessageDeterminesPacket(a: seq<Byte>, b: seq<Byte>)
    requires |a| == PACKET_BYTES && |b| == PACKET_BYTES
    requires NewSCM(BytesToBits(a)) == NewSCM(BytesToBits(b))
    requires BytesToBits(a)[..21] == BytesToBits(b)[..21] && BytesToBits(a)[23] == BytesToBits(b)[23]
    ensures a == b
  {
    hide BytesToBits, BitValue;
    var u, v := BytesToBits(a), BytesToBits(b);
    var p, q := u[21..23] + u[56..80], v[21..23] + v[56..80];
    FieldInjective(p, q);
    assert u[21..23] == p[..2] && u[56..80] == p[2..] && v[21..23] == q[..2] && v[56..80] == q[2..];
    FieldInjective(u[26..30], v[26..30]);
    FieldInjective(u[24..26], v[24..26]);
    FieldInjective(u[30..32], v[30..32]);
    FieldInjective(u[32..56], v[32..56]);
    FieldInjective(u[80..96], v[80..96]);
    PiecesOf(u);
    PiecesOf(v);
    TextInjective(a, b);
  }

  lemma PiecesOf(u: seq<Bit>)
    requires |u| == 96
    ensures u == u[..21] + u[21..23] + [u[23]] + u[24..26] + u[26..30] + u[30..32] + u[32..56] + u[56..80] + u[80..96]
  {
  }

  function Messages(passed: seq<seq<Byte>>): (r: seq<Message>)
    requires forall k :: 0 <= k < |passed| ==> |passed[k]| == PACKET_BYTES
    ensures |r| == |passed| && forall k :: 0 <= k < |r| ==> r[k] == NewSCM(BytesToBits(passed[k]))
  {
    seq(|passed|, k requires 0 <= k < |passed| => NewSCM(BytesToBits(passed[k])))
  }

  lemma PassedLengths(keys: seq<seq<Byte>>)
    ensures forall k :: 0 <= k < |Passed(keys, Accepts)| ==> |Passed(keys, Accepts)[k]| == PACKET_BYTES
  {
    hide CrcOf;
    forall k | 0 <= k < |Passed(keys, Accepts)|
      ensures |Passed(keys, Accepts)[k]| == PACKET_BYTES
    {
      PassedMembers(keys, Accepts, Passed(keys, Accepts)[k]);
    }
  }

  /** Checks one distinct packet and builds its message. */
  method Examine(s: seq<Byte>, bits: seq<Bit>, table: array<Word>) returns (m: Option<Message>)
    requires |s| == PACKET_BYTES && bits == BytesToBits(s) && TableFor(table[..], POLY)
    ensures m == if Accepts(s) then Some(NewSCM(BytesToBits(s))) else None
  {
    hide CrcOf, BytesToBits, TableFor, BitValue;
    var check := Checksum(0, s[2..12], table, POLY);
    if check != 0 {
      return None;
    }
    var scm := NewSCM(bits);
    if scm.id == 0 {
      return None;
    }
    return Some(scm);
  }

  /** msgs are the messages of the first k packets. */
  ghost predicate Announced(msgs: seq<Message>, keys: seq<seq<Byte>>, k: nat)
    requires k <= |keys|
  {
    var passed := Passed(keys[..k], Accepts);
    (forall i :: 0 <= i < |passed| ==> |passed[i]| == PACKET_BYTES) && msgs == Messages(passed)
  }

  lemma AnnounceStep(msgs: seq<Message>, keys: seq<seq<Byte>>, k: nat)
    requires k < |keys| && |keys[k]| == PACKET_BYTES && Announced(msgs, keys, k)
    ensures Announced(if keys[k] !in keys[..k] && Accepts(keys[k]) then msgs + [NewSCM(BytesToBits(keys[k]))] else msgs, keys, k + 1)
  {
    hide Accepts, Passed, NewSCM, BytesToBits;
    PassedStep(keys, Accepts, k);
    var passed := Passed(keys[..k], Accepts);
    assert passed + [] == passed;
  }

  lemma AnnounceStart(keys: seq<seq<Byte>>)
    ensures Announced([], keys, 0)
  {
    assert keys[..0] == [];
  }

  lemma AnnounceEnd(msgs: seq<Message>, keys: seq<seq<Byte>>)
    requires Announced(msgs, keys, |keys|)
    ensures var passed := Passed(keys, Accepts);
            (forall k :: 0 <= k < |passed| ==> |passed[k]| == PACKET_BYTES) && msgs == Messages(passed)
  {
    assert keys[..|keys|] == keys;
  }

  /** The parser; its packet buffer is reused from candidate to candidate. */
  class Parser {
    const table: array<Word>
    const data: array<Byte>

    ghost predicate Valid()
      reads this, table
    {
      TableFor(table[..], POLY) && data.Length == PACKET_BYTES && data as object != table
    }

    constructor ()
      ensures Valid() && fresh(table) && fresh(data)
    {
      var t := NewTable(POLY);
      table := t;
      data := new Byte[PACKET_BYTES](_ => 0);
    }

    /** Sends a message for every distinct acceptable packet of the block, in order. */
    method Parse(pkts: seq<D.Data>) returns (msgs: seq<Message>)
      requires Valid()
      requires forall k :: 0 <= k < |pkts| ==> |pkts[k].bytes| >= PACKET_BYTES && pkts[k].bits == BytesToBits(pkts[k].bytes)
      modifies data
      ensures Valid()
      ensures var keys := Keys(pkts, PACKET_BYTES);
              (forall k :: 0 <= k < |Passed(keys, Accepts)| ==> |Passed(keys, Accepts)[k]| == PACKET_BYTES)
              && msgs == Messages(Passed(keys, Accepts))
    {
      hide CrcOf, BytesToBits, TableFor, Accepts, NewSCM, Passed, Seen, Announced, Messages, Valid;
      ghost var keys := Keys(pkts, PACKET_BYTES);
      var seen: set<seq<Byte>> := {};
      msgs := [];
      NoneSeen(keys);
      AnnounceStart(keys);
      var k := 0;
      while k < |pkts|
        invariant 0 <= k <= |pkts| && Valid() && Seen(seen, keys, k) && Announced(msgs, keys, k)
      {
        var s := Load(pkts[k].bytes);
        SeenStep(seen, keys, k);
        AnnounceStep(msgs, keys, k);
        if s !in seen {
          seen := seen + {s};
          PrefixBits(pkts[k].bytes, PACKET_BYTES);
          var m := Examine(s, pkts[k].bits[..96], table);
          if m.Some? {
            msgs := msgs + [m.value];
          }
        }
        k := k + 1;
      }
      AnnounceEnd(msgs, keys);
    }

    /** Copies a packet into the buffer. */
    method Load(bytes: seq<Byte>) returns (s: seq<Byte>)
      requires Valid() && |bytes| >= PACKET_BYTES
      modifies data
      ensures Valid() && TableFor(table[..], POLY) && s == bytes[..PACKET_BYTES]
    {
      hide TableFor;
      CopyBytes(data, bytes);
      s := data[..];
    }
  }
}
