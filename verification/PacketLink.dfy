/** The byte-oriented chain end to end: a packet anywhere in the sample stream becomes its message. */
module PacketLink {
  import opened Wrappers
  import opened Bits
  import opened Geometry
  import opened Acceptance
  import opened Crc
  import D = Decoder
  import Scm
  import Idm

  lemma WholePacket(cfg: Config, n: nat)
    requires 8 * n <= cfg.packetSymbols
    ensures (cfg.packetSymbols + 7) / 8 >= n && D.WholeBits(cfg, 8 * n) == 8 * n
  {
  }

  lemma CarriedPacket(d: D.Data, packet: seq<Byte>, cfg: Config)
    requires d.bits == BytesToBits(d.bytes) && |d.bytes| == (cfg.packetSymbols + 7) / 8
    requires 8 * |packet| <= cfg.packetSymbols && D.Carries(d, BytesToBits(packet), cfg)
    ensures |d.bytes| >= |packet| && d.bytes[..|packet|] == packet
  {
    hide BytesToBits, D.WholeBits;
    WholePacket(cfg, |packet|);
    PrefixBits(d.bytes, |packet|);
    TextInjective(d.bytes[..|packet|], packet);
  }

  ghost predicate Texts(batch: seq<D.Data>, cfg: Config) {
    forall k :: 0 <= k < |batch| ==>
      batch[k].bits == BytesToBits(batch[k].bytes) && |batch[k].bytes| == (cfg.packetSymbols + 7) / 8
  }

  lemma BatchTexts(batch: seq<D.Data>, s: seq<int>, n: nat, preamble: seq<Bit>, cfg: Config)
    requires D.BatchOfCall(batch, s, n, preamble, cfg)
    ensures Texts(batch, cfg)
  {
    hide BytesToBits, D.Matches, D.Sampled;
  }

  ghost predicate LongEnough(batch: seq<D.Data>, n: nat) {
    forall k :: 0 <= k < |batch| ==> |batch[k].bytes| >= n
  }

  lemma TextsLong(batch: seq<D.Data>, cfg: Config, n: nat)
    requires Texts(batch, cfg) && 8 * n <= cfg.packetSymbols
    ensures LongEnough(batch, n)
  {
    hide BytesToBits;
    WholePacket(cfg, n);
  }

  lemma DeliveredAt(batch: seq<D.Data>, i: nat, packet: seq<Byte>, cfg: Config) returns (k: nat)
    requires Texts(batch, cfg) && D.Delivered(batch, i, BytesToBits(packet), cfg) && 8 * |packet| <= cfg.packetSymbols
    ensures k < |batch| && |batch[k].bytes| >= |packet| && batch[k].bytes[..|packet|] == packet
  {
    hide BytesToBits, D.Carries;
    k :| 0 <= k < |batch| && batch[k].idx == i && D.Carries(batch[k], BytesToBits(packet), cfg);
    CarriedPacket(batch[k], packet, cfg);
  }

  lemma KeyAt(batch: seq<D.Data>, k: nat, n: nat)
    requires LongEnough(batch, n) && k < |batch|
    ensures batch[k].bytes[..n] in Keys(batch, n)
  {
    assert Keys(batch, n)[k] == batch[k].bytes[..n];
  }

  /** A packet of whole bytes sent anywhere in the stream is among the packets its call hands over. */
  lemma PacketArrives(s: seq<int>, a: nat, packet: seq<Byte>, preamble: seq<Bit>, cfg: Config, n: nat, batch: seq<D.Data>)
    requires Sound(cfg) && cfg.blockSize > 0 && 8 * |packet| <= cfg.packetSymbols
    requires D.Sent(s, a, BytesToBits(packet), cfg.chipLength) && preamble <= BytesToBits(packet)
    requires D.BatchOfCall(batch, s, n, preamble, cfg) && n == D.CallFor(cfg, a + cfg.symbolLength)
    ensures LongEnough(batch, |packet|) && packet in Keys(batch, |packet|)
  {
    hide *;
    var i := Delivery(s, a, packet, preamble, cfg, n, batch);
    BatchTexts(batch, s, n, preamble, cfg);
    TextsLong(batch, cfg, |packet|);
    var k := DeliveredAt(batch, i, packet, cfg);
    KeyAt(batch, k, |packet|);
  }

  lemma Delivery(s: seq<int>, a: nat, packet: seq<Byte>, preamble: seq<Bit>, cfg: Config, n: nat, batch: seq<D.Data>)
    returns (i: nat)
    requires Sound(cfg) && cfg.blockSize > 0 && 8 * |packet| <= cfg.packetSymbols
    requires D.Sent(s, a, BytesToBits(packet), cfg.chipLength) && preamble <= BytesToBits(packet)
    requires D.BatchOfCall(batch, s, n, preamble, cfg) && n == D.CallFor(cfg, a + cfg.symbolLength)
    ensures D.Delivered(batch, i, BytesToBits(packet), cfg)
  {
    hide Sound, D.Sent, D.BatchOfCall, D.Position, D.CallFor, BytesToBits, D.Delivered;
    D.LinkTheorem(s, a, BytesToBits(packet), preamble, cfg, n, batch);
    i := a + cfg.symbolLength - D.Position(cfg, n, 0);
  }

  /** A consumption message with a right checksum and a meter id, sent anywhere in the stream, is announced
      in the call for its position with all its fields, whichever other parsers are registered. */
  lemma ScmReceived(s: seq<int>, a: nat, packet: seq<Byte>, m: Scm.Message, cfg: Config, n: nat, batch: seq<D.Data>)
    requires Sound(cfg) && cfg.blockSize > 0 && cfg.packetSymbols >= 96
    requires |packet| == Scm.PACKET_BYTES && Scm.InRange(m) && Scm.Spells(BytesToBits(packet), m)
    requires m.checksum == CrcOf(0, packet[2..10], 0x6F63) && m.id != 0
    requires D.ScmSync() <= BytesToBits(packet) && D.Sent(s, a, BytesToBits(packet), cfg.chipLength)
    requires D.BatchOfCall(batch, s, n, D.ScmSync(), cfg)
    requires n == D.CallFor(cfg, a + cfg.symbolLength)
    ensures LongEnough(batch, Scm.PACKET_BYTES)
    ensures var passed := Passed(Keys(batch, Scm.PACKET_BYTES), Scm.Accepts);
            (forall k :: 0 <= k < |passed| ==> |passed[k]| == Scm.PACKET_BYTES) && m in Scm.Messages(passed)
  {
    hide Sound, D.Sent, D.BatchOfCall, D.CallFor, BytesToBits, Scm.Accepts, Scm.NewSCM, Scm.Spells, Scm.InRange, CrcOf,
      Passed, Keys, D.ScmSync;
    Scm.SpelledAccepted(packet, m);
    PacketArrives(s, a, packet, D.ScmSync(), cfg, n, batch);
    var keys := Keys(batch, Scm.PACKET_BYTES);
    PassedMembers(keys, Scm.Accepts, packet);
    Scm.PassedLengths(keys);
    var passed := Passed(keys, Scm.Accepts);
    var j :| 0 <= j < |passed| && passed[j] == packet;
    assert Scm.Messages(passed)[j] == m;
  }

  /** Likewise for an interval message with both check fields right and a serial number. */
  lemma IdmReceived(s: seq<int>, a: nat, packet: seq<Byte>, m: Idm.Message, cfg: Config, n: nat, batch: seq<D.Data>)
    requires Sound(cfg) && cfg.blockSize > 0 && cfg.packetSymbols >= 736
    requires |packet| == Idm.PACKET_BYTES && Idm.InRange(m) && Idm.Spells(packet, m)
    requires m.packetCRC == 0xFFFF - CrcOf(0xFFFF, packet[4..90], 0x1021)
    requires m.serialNumberCRC == 0xFFFF - CrcOf(0xFFFF, packet[9..13], 0x1021) && m.ertSerialNumber != 0
    requires D.IdmSync() <= BytesToBits(packet) && D.Sent(s, a, BytesToBits(packet), cfg.chipLength)
    requires D.BatchOfCall(batch, s, n, D.IdmSync(), cfg)
    requires n == D.CallFor(cfg, a + cfg.symbolLength)
    ensures LongEnough(batch, Idm.PACKET_BYTES)
    ensures var passed := Passed(Keys(batch, Idm.PACKET_BYTES), Idm.Accepts);
            (forall k :: 0 <= k < |passed| ==> |passed[k]| == Idm.PACKET_BYTES) && m in Idm.Messages(passed)
  {
    hide Sound, D.Sent, D.BatchOfCall, D.CallFor, BytesToBits, Idm.Accepts, Idm.IdmOf, Idm.Spells, Idm.InRange, CrcOf,
      Passed, Keys, D.IdmSync;
    Idm.SpelledAccepted(packet, m);
    PacketArrives(s, a, packet, D.IdmSync(), cfg, n, batch);
    var keys := Keys(batch, Idm.PACKET_BYTES);
    PassedMembers(keys, Idm.Accepts, packet);
    Idm.PassedLengths(keys);
    var passed := Passed(keys, Idm.Accepts);
    var j :| 0 <= j < |passed| && passed[j] == packet;
    assert Idm.Messages(passed)[j] == m;
  }
}
