/** Interval Data Messages: two embedded checks and 47 nine-bit intervals. */
module Idm {
  import opened Wrappers
  import opened Gf2Poly
  import opened Bits
  import opened Crc
  import opened Acceptance
  import D = Decoder

  const PACKET_BYTES: nat := 92
  const INTERVALS: nat := 47

  datatype Message = Message(preamble: nat, packetTypeID: nat, packetLength: nat, hammingCode: nat,
                             applicationVersion: nat, ertType: nat, ertSerialNumber: nat,
                             consumptionIntervalCount: nat, moduleProgrammingState: nat,
                             tamperCounters: seq<Byte>, asynchronousCounters: nat, powerOutageFlags: seq<Byte>,
                             lastConsumptionCount: nat, intervals: seq<nat>, transmitTimeOffset: nat,
                             serialNumberCRC: nat, packetCRC: nat)

  /** The 47 nine-bit fields that follow one another from bit 264 on. */
  function Intervals(bits: seq<Bit>): (r: seq<nat>)
    requires |bits| >= 687
    ensures |r| == INTERVALS && forall k :: 0 <= k < INTERVALS ==> r[k] == BitValue(bits[264 + 9 * k..273 + 9 * k])
  {
    seq(INTERVALS, k requires 0 <= k < INTERVALS => BitValue(bits[264 + 9 * k..273 + 9 * k]))
  }

  function IdmOf(b: seq<Byte>): Message
    requires |b| == PACKET_BYTES
  {
    Message(BigEndian(b[0..4]), b[4], b[5], b[6], b[7], b[8] % 16, BigEndian(b[9..13]), b[13], b[14], b[15..21],
            BigEndian(b[21..23]), b[23..29], BigEndian(b[29..33]), Intervals(BytesToBits(b)),
            BigEndian(b[86..88]), BigEndian(b[88..90]), BigEndian(b[90..92]))
  }

  /** Builds the message; the interval fields are read with a running offset. */
  method NewIDM(b: seq<Byte>, bits: seq<Bit>) returns (m: Message)
    requires |b| == PACKET_BYTES && bits == BytesToBits(b)
    ensures m == IdmOf(b)
  {
    hide BitValue, BytesToBits;
    var intervals: seq<nat> := [];
    var offset := 264;
    var idx := 0;
    while idx < INTERVALS
      invariant 0 <= idx <= INTERVALS && offset == 264 + 9 * idx
      invariant intervals == Intervals(bits)[..idx]
    {
      intervals := intervals + [BitValue(bits[offset..offset + 9])];
      offset := offset + 9;
      idx := idx + 1;
    }
    return Message(BigEndian(b[0..4]), b[4], b[5], b[6], b[7], b[8] % 16, BigEndian(b[9..13]), b[13], b[14], b[15..21],
                   BigEndian(b[21..23]), b[23..29], BigEndian(b[29..33]), intervals,
                   BigEndian(b[86..88]), BigEndian(b[88..90]), BigEndian(b[90..92]));
  }

  /** Each field fits its place. */
  ghost predicate InRange(m: Message) {
    && m.preamble < Pow2(32) && m.packetTypeID < 256 && m.packetLength < 256 && m.hammingCode < 256
    && m.applicationVersion < 256 && m.ertType < 16 && m.ertSerialNumber < Pow2(32)
    && m.consumptionIntervalCount < 256 && m.moduleProgrammingState < 256
    && |m.tamperCounters| == 6 && m.asynchronousCounters < Pow2(16) && |m.powerOutageFlags| == 6
    && m.lastConsumptionCount < Pow2(32)
    && |m.intervals| == INTERVALS && (forall k :: 0 <= k < INTERVALS ==> m.intervals[k] < Pow2(9))
    && m.transmitTimeOffset < Pow2(16) && m.serialNumberCRC < Pow2(16) && m.packetCRC < Pow2(16)
  }

  /** The packet spells m: every field stands at its place, numbers big-endian, the type in the lower half of
      byte 8, the intervals as nine-bit numbers one after the other from bit 264 on. */
  ghost predicate Spells(b: seq<Byte>, m: Message)
    requires |b| == PACKET_BYTES
  {
    && b[0..4] == BytesOf(m.preamble, 4)
    && b[4] == m.packetTypeID && b[5] == m.packetLength && b[6] == m.hammingCode && b[7] == m.applicationVersion
    && b[8] % 16 == m.ertType
    && b[9..13] == BytesOf(m.ertSerialNumber, 4)
    && b[13] == m.consumptionIntervalCount && b[14] == m.moduleProgrammingState
    && b[15..21] == m.tamperCounters
    && b[21..23] == BytesOf(m.asynchronousCounters, 2)
    && b[23..29] == m.powerOutageFlags
    && b[29..33] == BytesOf(m.lastConsumptionCount, 4)
    && SpellsIntervals(BytesToBits(b), m.intervals)
    && b[86..88] == BytesOf(m.transmitTimeOffset, 2)
    && b[88..90] == BytesOf(m.serialNumberCRC, 2)
    && b[90..92] == BytesOf(m.packetCRC, 2)
  }

  ghost predicate SpellsIntervals(bits: seq<Bit>, intervals: seq<nat>)
    requires |bits| >= 687
  {
    |intervals| == INTERVALS
    && forall k :: 0 <= k < INTERVALS ==> bits[264 + 9 * k..264 + 9 * k + 9] == ToBits(intervals[k], 9)
  }

  lemma IntervalsSpelled(bits: seq<Bit>, intervals: seq<nat>)
    requires |bits| >= 687 && |intervals| == INTERVALS && forall k :: 0 <= k < INTERVALS ==> intervals[k] < Pow2(9)
    ensures Intervals(bits) == intervals <==> SpellsIntervals(bits, intervals)
  {
    hide ToBits, BitValue, Pow2;
    forall k | 0 <= k < INTERVALS
      ensures Intervals(bits)[k] == intervals[k] <==> bits[264 + 9 * k..264 + 9 * k + 9] == ToBits(intervals[k], 9)
    {
      FieldSpelled(bits[264 + 9 * k..264 + 9 * k + 9], intervals[k]);
    }
  }

  /** The parser reads m exactly from the packets that spell it. */
  lemma FieldPlaces(b: seq<Byte>, m: Message)
    requires |b| == PACKET_BYTES && InRange(m)
    ensures IdmOf(b) == m <==> Spells(b, m)
  {
    hide BigEndian, BytesOf, Pow2, Intervals, SpellsIntervals, BytesToBits;
    BytesSpelled(b[0..4], m.preamble);
    BytesSpelled(b[9..13], m.ertSerialNumber);
    BytesSpelled(b[21..23], m.asynchronousCounters);
    BytesSpelled(b[29..33], m.lastConsumptionCount);
    BytesSpelled(b[86..88], m.transmitTimeOffset);
    BytesSpelled(b[88..90], m.serialNumberCRC);
    BytesSpelled(b[90..92], m.packetCRC);
    IntervalsSpelled(BytesToBits(b), m.intervals);
  }

  lemma FieldBound(b: seq<Byte>, n: nat)
    requires |b| == n
    ensures BigEndian(b) < Pow2(8 * n)
  {
    hide *;
    BigEndianText(b);
    BitsOfValue(BytesToBits(b));
    TextLength(b);
  }

  lemma TextLength(b: seq<Byte>)
    ensures |BytesToBits(b)| == 8 * |b|
  {
  }

  lemma IntervalBounds(bits: seq<Bit>)
    requires |bits| >= 687
    ensures forall k :: 0 <= k < INTERVALS ==> Intervals(bits)[k] < Pow2(9)
  {
    hide BitValue, Pow2;
    forall k | 0 <= k < INTERVALS
      ensures Intervals(bits)[k] < Pow2(9)
    {
      BitsOfValue(bits[264 + 9 * k..273 + 9 * k]);
    }
  }

  /** What the parser reads is in range, so the packet spells it. */
  lemma ParsedSpelled(b: seq<Byte>)
    requires |b| == PACKET_BYTES
    ensures InRange(IdmOf(b)) && Spells(b, IdmOf(b))
  {
    hide BigEndian, Pow2, Intervals, BytesToBits, Spells;
    FieldBound(b[0..4], 4);
    FieldBound(b[9..13], 4);
    FieldBound(b[21..23], 2);
    FieldBound(b[29..33], 4);
    FieldBound(b[86..88], 2);
    FieldBound(b[88..90], 2);
    FieldBound(b[90..92], 2);
    IntervalBounds(BytesToBits(b));
    FieldPlaces(b, IdmOf(b));
  }

  function IntervalBits(intervals: seq<nat>): (r: seq<Bit>)
    ensures |r| == 9 * |intervals|
  {
    if intervals == [] then [] else IntervalBits(intervals[..|intervals| - 1]) + ToBits(intervals[|intervals| - 1], 9)
  }

  lemma {:induction false} IntervalAt(intervals: seq<nat>, k: nat)
    requires k < |intervals|
    ensures IntervalBits(intervals)[9 * k..9 * k + 9] == ToBits(intervals[k], 9)
    decreases |intervals|
  {
    hide ToBits;
    var n := |intervals| - 1;
    var front, all := IntervalBits(intervals[..n]), IntervalBits(intervals);
    if k < n {
      IntervalAt(intervals[..n], k);
      assert all[9 * k..9 * k + 9] == front[9 * k..9 * k + 9];
    } else {
      assert all[9 * k..9 * k + 9] == all[9 * n..];
    }
  }

  /** The first 33 bytes: the fields before the intervals. */
  ghost function Head(m: Message, upper: nat): (r: seq<Byte>)
    requires InRange(m) && upper < 16
    ensures |r| == 33
  {
    hide Pow2, BytesOf;
    var front: seq<Byte> := BytesOf(m.preamble, 4)
      + [m.packetTypeID, m.packetLength, m.hammingCode, m.applicationVersion, 16 * upper + m.ertType];
    var middle: seq<Byte> := BytesOf(m.ertSerialNumber, 4) + [m.consumptionIntervalCount, m.moduleProgrammingState];
    var rest: seq<Byte> := m.tamperCounters + (BytesOf(m.asynchronousCounters, 2)
      + (m.powerOutageFlags + BytesOf(m.lastConsumptionCount, 4)));
    front + (middle + rest)
  }

  lemma HeadPlaces(m: Message, upper: nat)
    requires InRange(m) && upper < 16
    ensures var h := Head(m, upper);
            && h[0..4] == BytesOf(m.preamble, 4) && h[4] == m.packetTypeID && h[5] == m.packetLength
            && h[6] == m.hammingCode && h[7] == m.applicationVersion && h[8] % 16 == m.ertType
            && h[9..13] == BytesOf(m.ertSerialNumber, 4)
            && h[13] == m.consumptionIntervalCount && h[14] == m.moduleProgrammingState
            && h[15..21] == m.tamperCounters && h[21..23] == BytesOf(m.asynchronousCounters, 2)
            && h[23..29] == m.powerOutageFlags && h[29..33] == BytesOf(m.lastConsumptionCount, 4)
  {
    hide Pow2, BytesOf;
  }

  /** A packet for every message, with any upper half of byte 8 and any spare bit. */
  ghost function Layout(m: Message, upper: nat, spare: Bit): (r: seq<Byte>)
    requires InRange(m) && upper < 16
    ensures |r| == PACKET_BYTES
  {
    hide Pow2, BytesOf, Head, PackBits, IntervalBits;
    Head(m, upper) + (PackBits(IntervalBits(m.intervals) + [spare], 53)
      + (BytesOf(m.transmitTimeOffset, 2) + (BytesOf(m.serialNumberCRC, 2) + BytesOf(m.packetCRC, 2))))
  }

  /** Every message in range is read back from its packet. */
  lemma LayoutRoundTrip(m: Message, upper: nat, spare: Bit)
    requires upper < 16 && InRange(m)
    ensures IdmOf(Layout(m, upper, spare)) == m
  {
    hide BytesOf, PackBits, IntervalBits, IdmOf, BytesToBits, Pow2, ToBits, Head, SpellsIntervals;
    var b, h := Layout(m, upper, spare), Head(m, upper);
    HeadPlaces(m, upper);
    assert forall i :: 0 <= i < 33 ==> b[i] == h[i];
    assert b[0..4] == h[0..4] && b[9..13] == h[9..13] && b[15..21] == h[15..21] && b[21..23] == h[21..23]
        && b[23..29] == h[23..29] && b[29..33] == h[29..33];
    assert b[33..86] == PackBits(IntervalBits(m.intervals) + [spare], 53);
    IntervalsPacked(b, m.intervals, spare);
    FieldPlaces(b, m);
  }

  lemma IntervalsPacked(b: seq<Byte>, intervals: seq<nat>, spare: Bit)
    requires |b| == PACKET_BYTES && |intervals| == INTERVALS
    requires b[33..86] == PackBits(IntervalBits(intervals) + [spare], 53)
    ensures SpellsIntervals(BytesToBits(b), intervals)
  {
    hide PackBits, IntervalBits, BytesToBits, ToBits;
    var text := IntervalBits(intervals) + [spare];
    PackedText(text, 53);
    assert b == b[..33] + (b[33..86] + b[86..]);
    TextOfParts(b[..33], b[33..86], b[86..]);
    var u := BytesToBits(b);
    assert u[264..688] == text;
    forall k | 0 <= k < INTERVALS
      ensures u[264 + 9 * k..264 + 9 * k + 9] == ToBits(intervals[k], 9)
    {
      IntervalAt(intervals, k);
      PartOf(u, 264, text, 9 * k, 9 * k + 9);
      PartOf(text, 0, IntervalBits(intervals), 9 * k, 9 * k + 9);
    }
  }

  /** A stretch of a stretch. */
  lemma PartOf(u: seq<Bit>, at: nat, text: seq<Bit>, lo: nat, hi: nat)
    requires lo <= hi <= |text| && at + |text| <= |u| && u[at..at + |text|] == text
    ensures u[at + lo..at + hi] == text[lo..hi]
  {
    var r, l := u[at + lo..at + hi], text[lo..hi];
    forall i | 0 <= i < hi - lo
      ensures r[i] == l[i]
    {
      assert u[at..at + |text|][lo + i] == text[lo + i];
    }
  }

  /** What the parser checks: the packet check, the serial number check, a non-zero serial number. */
  ghost predicate Accepts(b: seq<Byte>) {
    |b| == PACKET_BYTES
    && CrcOf(CCITT_INIT, b[4..92], CCITT) == CCITT_RESIDUE
    && CrcOf(CCITT_INIT, b[9..13] + b[88..90], CCITT) == CCITT_RESIDUE
    && IdmOf(b).ertSerialNumber != 0
  }

  /** A packet passes exactly when both check fields are the complements of the checksums of what they
      cover (the second over the serial number, which is not adjacent to it) and the serial number is not
      zero. */
  lemma AcceptedMeans(b: seq<Byte>)
    requires |b| == PACKET_BYTES
    ensures Accepts(b) <==>
            && IdmOf(b).packetCRC == 0xFFFF - CrcOf(CCITT_INIT, b[4..90], CCITT)
            && IdmOf(b).serialNumberCRC == 0xFFFF - CrcOf(CCITT_INIT, b[9..13], CCITT)
            && IdmOf(b).ertSerialNumber != 0
  {
    hide CrcOf, BigEndian, Intervals, BytesToBits;
    BigEndianWord(b[90..92]);
    assert b[4..92] == b[4..90] + b[90..92];
    ComplementResidue(CCITT_INIT, b[4..90], BigEndian(b[90..92]));
    BigEndianWord(b[88..90]);
    ComplementResidue(CCITT_INIT, b[9..13], BigEndian(b[88..90]));
  }

  /** A packet that spells m passes exactly when m's check fields are right and its serial number is not zero. */
  lemma SpelledAccepted(b: seq<Byte>, m: Message)
    requires |b| == PACKET_BYTES && InRange(m) && Spells(b, m)
    ensures IdmOf(b) == m
    ensures Accepts(b) <==>
            && m.packetCRC == 0xFFFF - CrcOf(0xFFFF, b[4..90], 0x1021)
            && m.serialNumberCRC == 0xFFFF - CrcOf(0xFFFF, b[9..13], 0x1021)
            && m.ertSerialNumber != 0
  {
    hide CrcOf, Spells, IdmOf, Accepts, InRange;
    FieldPlaces(b, m);
    AcceptedMeans(b);
  }

  /** The message determines the packet up to the upper half of byte 8 and the spare bit 687. */
  lemma MessageDeterminesPacket(a: seq<Byte>, b: seq<Byte>)
    requires |a| == PACKET_BYTES && |b| == PACKET_BYTES && IdmOf(a) == IdmOf(b)
    requires a[8] / 16 == b[8] / 16 && BytesToBits(a)[687] == BytesToBits(b)[687]
    ensures a == b
  {
    hide BitValue, BytesToBits, Intervals, BigEndian;
    BigEndianInjective(a[0..4], b[0..4]);
    BigEndianInjective(a[9..13], b[9..13]);
    BigEndianInjective(a[21..23], b[21..23]);
    BigEndianInjective(a[29..33], b[29..33]);
    BigEndianInjective(a[86..88], b[86..88]);
    BigEndianInjective(a[88..90], b[88..90]);
    BigEndianInjective(a[90..92], b[90..92]);
    IntervalsDetermine(BytesToBits(a), BytesToBits(b), INTERVALS);
    IntervalBytes(a, b);
    Upper(a[8], b[8]);
    Pieces(a);
    Pieces(b);
  }

  lemma Upper(x: nat, y: nat)
    requires x / 16 == y / 16 && x % 16 == y % 16
    ensures x == y
  {
  }

  lemma Pieces(a: seq<Byte>)
    requires |a| == PACKET_BYTES
    ensures a == a[0..4] + [a[4], a[5], a[6], a[7], a[8]] + a[9..13] + [a[13], a[14]] + a[15..21] + a[21..23] + a[23..29]
                 + a[29..33] + a[33..86] + a[86..88] + a[88..90] + a[90..92]
  {
  }

  lemma {:induction false} IntervalsDetermine(u: seq<Bit>, v: seq<Bit>, n: nat)
    requires |u| == 736 && |v| == 736 && n <= INTERVALS && Intervals(u)[..n] == Intervals(v)[..n]
    ensures u[264..264 + 9 * n] == v[264..264 + 9 * n]
  {
    hide BitValue;
    if n > 0 {
      var k := n - 1;
      assert Intervals(u)[..k] == Intervals(u)[..n][..k] && Intervals(v)[..k] == Intervals(v)[..n][..k];
      IntervalsDetermine(u, v, k);
      assert Intervals(u)[..n][k] == Intervals(v)[..n][k];
      FieldInjective(u[264 + 9 * k..273 + 9 * k], v[264 + 9 * k..273 + 9 * k]);
      assert u[264..264 + 9 * n] == u[264..264 + 9 * k] + u[264 + 9 * k..273 + 9 * k];
      assert v[264..264 + 9 * n] == v[264..264 + 9 * k] + v[264 + 9 * k..273 + 9 * k];
    }
  }

  lemma IntervalBytes(a: seq<Byte>, b: seq<Byte>)
    requires |a| == PACKET_BYTES && |b| == PACKET_BYTES
    requires BytesToBits(a)[264..687] == BytesToBits(b)[264..687] && BytesToBits(a)[687] == BytesToBits(b)[687]
    ensures a[33..86] == b[33..86]
  {
    hide BytesToBits;
    var u, v := BytesToBits(a), BytesToBits(b);
    assert u[264..688] == u[264..687] + [u[687]] && v[264..688] == v[264..687] + [v[687]];
    assert a == a[..33] + (a[33..86] + a[86..]) && b == b[..33] + (b[33..86] + b[86..]);
    TextOfParts(a[..33], a[33..86], a[86..]);
    TextOfParts(b[..33], b[33..86], b[86..]);
    TextInjective(a[33..86], b[33..86]);
  }

  ghost function Messages(passed: seq<seq<Byte>>): (r: seq<Message>)
    requires forall k :: 0 <= k < |passed| ==> |passed[k]| == PACKET_BYTES
    ensures |r| == |passed| && forall k :: 0 <= k < |r| ==> r[k] == IdmOf(passed[k])
  {
    seq(|passed|, k requires 0 <= k < |passed| => IdmOf(passed[k]))
  }

  lemma PassedLengths(keys: seq<seq<Byte>>)
    ensures forall k :: 0 <= k < |Passed(keys, Accepts)| ==> |Passed(keys, Accepts)[k]| == PACKET_BYTES
  {
    hide CrcOf, IdmOf;
    forall k | 0 <= k < |Passed(keys, Accepts)|
      ensures |Passed(keys, Accepts)[k]| == PACKET_BYTES
    {
      PassedMembers(keys, Accepts, Passed(keys, Accepts)[k]);
    }
  }

  /** Checks one distinct packet and builds its message. */
  method Examine(s: seq<Byte>, bits: seq<Bit>, table: array<Word>) returns (m: Option<Message>)
    requires |s| == PACKET_BYTES && bits == BytesToBits(s) && TableFor(table[..], CCITT)
    ensures m == if Accepts(s) then Some(IdmOf(s)) else None
  {
    hide CrcOf, BytesToBits, TableFor, BigEndian, Intervals;
    var residue := Checksum(CCITT_INIT, s[4..92], table, CCITT);
    if residue != CCITT_RESIDUE {
      return None;
    }
    residue := Checksum(CCITT_INIT, s[9..13] + s[88..90], table, CCITT);
    if residue != CCITT_RESIDUE {
      return None;
    }
    var idm := NewIDM(s, bits);
    if idm.ertSerialNumber == 0 {
      return None;
    }
    return Some(idm);
  }

  /** msgs are the messages of the first k packets. */
  ghost predicate Announced(msgs: seq<Message>, keys: seq<seq<Byte>>, k: nat)
    requires k <= |keys|
  {
    var passed := Passed(keys[..k], Accepts);
    (forall i :: 0 <= i < |passed| ==> |passed[i]| == PACKET_BYTES) && msgs == Messages(passed)
  }

  lemma AnnounceStep(msgs: seq<Message>, keys: seq<seq<Byte>>, k: nat)
    requires k < |keys| && |keys[k]| == PACKET_BYTES && Announced(msgs, keys, k)
    ensures Announced(if keys[k] !in keys[..k] && Accepts(keys[k]) then msgs + [IdmOf(keys[k])] else msgs, keys, k + 1)
  {
    hide Accepts, Passed, IdmOf;
    PassedStep(keys, Accepts, k);
    var passed := Passed(keys[..k], Accepts);
    assert passed + [] == passed;
  }

  lemma AnnounceStart(keys: seq<seq<Byte>>)
    ensures Announced([], keys, 0)
  {
    assert keys[..0] == [];
  }

  lemma AnnounceEnd(msgs: seq<Message>, keys: seq<seq<Byte>>)
    requires Announced(msgs, keys, |keys|)
    ensures var passed := Passed(keys, Accepts);
            (forall k :: 0 <= k < |passed| ==> |passed[k]| == PACKET_BYTES) && msgs == Messages(passed)
  {
    assert keys[..|keys|] == keys;
  }

  /** The parser; its packet buffer is reused from candidate to candidate. */
  class Parser {
    const table: array<Word>
    const data: array<Byte>

    ghost predicate Valid()
      reads this, table
    {
      TableFor(table[..], CCITT) && data.Length == PACKET_BYTES && data as object != table
    }

    constructor ()
      ensures Valid() && fresh(table) && fresh(data)
    {
      var t := NewTable(CCITT);
      table := t;
      data := new Byte[PACKET_BYTES](_ => 0);
    }

    /** Sends a message for every distinct acceptable packet of the block, in order. */
    method Parse(pkts: seq<D.Data>) returns (msgs: seq<Message>)
      requires Valid()
      requires forall k :: 0 <= k < |pkts| ==> |pkts[k].bytes| >= PACKET_BYTES && pkts[k].bits == BytesToBits(pkts[k].bytes)
      modifies data
      ensures Valid()
      ensures var keys := Keys(pkts, PACKET_BYTES);
              (forall k :: 0 <= k < |Passed(keys, Accepts)| ==> |Passed(keys, Accepts)[k]| == PACKET_BYTES)
              && msgs == Messages(Passed(keys, Accepts))
    {
      hide CrcOf, BytesToBits, TableFor, Accepts, IdmOf, Passed, Seen, Announced, Messages, Valid;
      ghost var keys := Keys(pkts, PACKET_BYTES);
      var seen: set<seq<Byte>> := {};
      msgs := [];
      NoneSeen(keys);
      AnnounceStart(keys);
      var k := 0;
      while k < |pkts|
        invariant 0 <= k <= |pkts| && Valid() && Seen(seen, keys, k) && Announced(msgs, keys, k)
      {
        var s := Load(pkts[k].bytes);
        SeenStep(seen, keys, k);
        AnnounceStep(msgs, keys, k);
        if s !in seen {
          seen := seen + {s};
          PrefixBits(pkts[k].bytes, PACKET_BYTES);
          var m := Examine(s, pkts[k].bits[..736], table);
          if m.Some? {
            msgs := msgs + [m.value];
          }
        }
        k := k + 1;
      }
      AnnounceEnd(msgs, keys);
    }

    /** Copies a packet into the buffer. */
    method Load(bytes: seq<Byte>) returns (s: seq<Byte>)
      requires Valid() && |bytes| >= PACKET_BYTES
      modifies data
      ensures Valid() && TableFor(table[..], CCITT) && s == bytes[..PACKET_BYTES]
    {
      hide TableFor;
      CopyBytes(data, bytes);
      s := data[..];
    }
  }
}
