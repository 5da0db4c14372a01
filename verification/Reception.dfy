/** From the air to the output: what the receiver reports of a packet, however its matching offsets fall into
    blocks. */
module Reception {
  import opened Wrappers
  import opened Bits
  import opened Geometry
  import opened Acceptance
  import opened Crc
  import opened R900Code
  import opened R900Message
  import opened R900Parser
  import opened R900Link
  import opened R900EndToEnd
  import opened PacketLink
  import opened Runs
  import Scm
  import Idm
  import D = Decoder
  import F = FanIn
  import R = Receiver

  // ----- decoded messages as the receiver sees them -----

  /** A 16-bit check value as its two bytes. */
  function TwoBytes(v: nat): seq<Byte> {
    [(v / 256) % 256, v % 256]
  }

  function FromScm(m: Scm.Message): R.Message {
    R.Message("SCM", m.typ, m.id, TwoBytes(m.checksum), [m.id, m.typ, m.tamperPhy, m.tamperEnc, m.consumption, m.checksum])
  }

  function FromIdm(m: Idm.Message): R.Message {
    R.Message("IDM", m.ertType, m.ertSerialNumber, TwoBytes(m.packetCRC),
              [m.preamble, m.packetTypeID, m.packetLength, m.hammingCode, m.applicationVersion, m.ertType, m.ertSerialNumber,
               m.consumptionIntervalCount, m.moduleProgrammingState] + m.tamperCounters + [m.asynchronousCounters]
              + m.powerOutageFlags + [m.lastConsumptionCount] + m.intervals
              + [m.transmitTimeOffset, m.serialNumberCRC, m.packetCRC])
  }

  function FromR900(m: Reading): R.Message {
    var f := m.fields;
    R.Message("R900", f.unkn1, f.id, m.checksum,
              [f.id, f.unkn1, f.noUse, f.backFlow, f.consumption, f.unkn3, f.leak, f.leakNow, m.sigSum, m.noiseSum])
  }

  function R900Messages(ms: seq<Reading>): (r: seq<R.Message>)
    ensures |r| == |ms|
  {
    seq(|ms|, k requires 0 <= k < |ms| => FromR900(ms[k]))
  }

  function FromBcd(m: Reading): R.Message {
    var f := m.fields;
    R.Message("R900BCD", f.unkn1, f.id, m.checksum,
              [f.id, f.unkn1, f.noUse, f.backFlow, F.BcdConsumption(f.consumption), f.unkn3, f.leak, f.leakNow,
               m.sigSum, m.noiseSum])
  }

  function BcdMessages(ms: seq<Reading>): (r: seq<R.Message>)
    ensures |r| == |ms|
  {
    seq(|ms|, k requires 0 <= k < |ms| => FromBcd(ms[k]))
  }

  /** The relay changes the message type and the consumption, and nothing else. */
  lemma RelayedReading(m: Reading)
    ensures F.Relayed(FromR900(m)) == FromBcd(m)
  {
    hide F.BcdConsumption;
    var f := m.fields;
    var r: seq<int> := [f.id, f.unkn1, f.noUse, f.backFlow, f.consumption, f.unkn3, f.leak, f.leakNow, m.sigSum, m.noiseSum];
    assert FromR900(m).record == r && r[4] == f.consumption;
  }

  lemma {:induction false} RelayedReadings(ms: seq<Reading>)
    ensures F.RelayedAll(R900Messages(ms)) == BcdMessages(ms)
  {
    hide F.Relayed, FromR900, FromBcd;
    if ms != [] {
      RelayedReading(ms[0]);
      RelayedReadings(ms[1..]);
      assert R900Messages(ms)[1..] == R900Messages(ms[1..]);
      assert BcdMessages(ms) == [FromBcd(ms[0])] + BcdMessages(ms[1..]);
    }
  }

  /** The block's messages of one type are those its parser sends, in order, whatever comes between them. */
  ghost predicate Announces(block: seq<R.Message>, typ: string, msgs: seq<R.Message>) {
    F.OfType(block, typ) == F.OfType(msgs, typ)
  }

  /** What the fan-in hands to the consumer is announced: after a finished run, in whatever order the parsers'
      goroutines interleaved, the block holds exactly the messages of the one parser of that type, in order. */
  lemma FanInAnnounces(groups: seq<seq<F.Proc>>, steps: seq<F.Step>, g: nat, i: nat, typ: string, msgs: seq<R.Message>)
    requires F.Ready(groups) && F.Run(F.Begin(groups), steps).Some?
    requires forall step :: F.Apply(F.Run(F.Begin(groups), steps).value, step).None?
    requires F.OnlyFrom(groups, g, i, typ) && groups[g][i] == F.Direct(msgs, false)
    ensures Announces(F.Run(F.Begin(groups), steps).value.received, typ, msgs)
  {
    hide F.Run, F.Apply, F.Ready, F.OnlyFrom, F.OfType;
    F.ParserDelivered(groups, steps, g, i, typ);
  }

  /** Behind the relay the R900 parser's messages arrive in order as R900BCD messages, alike in everything but the
      consumption, whose hexadecimal digits are read as decimal ones. */
  lemma RelayAnnounces(groups: seq<seq<F.Proc>>, steps: seq<F.Step>, g: nat, i: nat, inner: seq<Reading>)
    requires F.Ready(groups) && F.Run(F.Begin(groups), steps).Some?
    requires forall step :: F.Apply(F.Run(F.Begin(groups), steps).value, step).None?
    requires F.OnlyFrom(groups, g, i, "R900BCD")
    requires groups[g][i] == F.Relay(R900Messages(inner), false, false, Option.None, false)
    ensures Announces(F.Run(F.Begin(groups), steps).value.received, "R900BCD", BcdMessages(inner))
  {
    hide F.Run, F.Apply, F.Ready, F.OnlyFrom, F.OfType, R900Messages, BcdMessages, F.RelayedAll;
    F.ParserDelivered(groups, steps, g, i, "R900BCD");
    RelayedReadings(inner);
    assert [] + F.RelayedAll(R900Messages(inner)) == F.RelayedAll(R900Messages(inner));
  }

  // ----- reported once -----

  /** Message m is accepted in block c, and over the stretch of blocks around c that accept messages like it (same
      type, meter type, meter id and checksum), however far the stretch goes on, one is output in its first block
      and in no other. */
  ghost predicate Reported(fs: seq<R.FilterState>, blocks: seq<seq<R.Message>>, m: R.Message, c: nat)
    requires c < |blocks|
  {
    m in R.AcceptedIn(fs, blocks, c) && exists b :: 0 <= b <= c && ReportedBy(fs, blocks, m, b, c)
  }

  /** The stretch begins with block b; if that is block c, the message itself is output. */
  ghost predicate ReportedBy(fs: seq<R.FilterState>, blocks: seq<seq<R.Message>>, m: R.Message, b: nat, c: nat)
    requires c < |blocks|
  {
    && (forall e :: c <= e < |blocks| && (forall k :: c <= k <= e ==> R.AcceptsLike(fs, blocks, k, m)) ==>
          R.ReportedFrom(fs, blocks, m, b, e))
    && (b == c ==> m in R.Unseen(R.AcceptedIn(fs, blocks, c), R.Before(fs, blocks, c)))
  }

  /** Every announced message that the identifier and type filters want is reported. */
  lemma AnnouncedIsReported(ids: Option<set<nat>>, types: Option<set<nat>>, blocks: seq<seq<R.Message>>, c: nat,
                            msgs: seq<R.Message>, m: R.Message)
    requires c < |blocks| && Announces(blocks[c], m.msgType, msgs) && m in msgs
    requires (ids.None? || m.meterId in ids.value) && (types.None? || m.meterType in types.value)
    ensures Reported(R.Chain(ids, types, false), blocks, m, c)
  {
    var fs := R.Plain(ids, types);
    assert R.Chain(ids, types, false) == fs;
    assert R.Wanted(m, ids, types);
    hide *;
    WantedIsAccepted(ids, types, blocks, c, msgs, m);
    AcceptedIsReported(fs, blocks, c, m);
  }

  lemma WantedIsAccepted(ids: Option<set<nat>>, types: Option<set<nat>>, blocks: seq<seq<R.Message>>, c: nat,
                         msgs: seq<R.Message>, m: R.Message)
    requires c < |blocks| && Announces(blocks[c], m.msgType, msgs) && m in msgs && R.Wanted(m, ids, types)
    ensures m in R.AcceptedIn(R.Plain(ids, types), blocks, c)
  {
    hide R.Plain, R.Wanted, R.Accepted, R.StatesBefore, F.OfType;
    F.OfTypeMembers(msgs, m.msgType, m);
    F.OfTypeMembers(blocks[c], m.msgType, m);
    R.PlainStates(ids, types, blocks, c);
    R.PlainMembers(ids, types, blocks[c], m);
    assert m in multiset(R.AcceptedIn(R.Plain(ids, types), blocks, c));
  }

  lemma AcceptedIsReported(fs: seq<R.FilterState>, blocks: seq<seq<R.Message>>, c: nat, m: R.Message)
    requires c < |blocks| && m in R.AcceptedIn(fs, blocks, c)
    ensures Reported(fs, blocks, m, c)
  {
    hide R.AcceptedIn, R.Before, R.Unseen, R.AcceptsLike, R.ReportedFrom;
    var b := R.ReportedOnce(fs, blocks, m, c);
    assert ReportedBy(fs, blocks, m, b, c);
  }

  // ----- packets sent over the air -----

  /** A set-up decoder meets what the theorems below ask for: with its parser among them, each kind of packet is
      searched for by its sync word and fits. */
  lemma Heard(ps: seq<ParserCfg>, chip: nat)
    requires |ps| > 0 && forall i :: 0 <= i < |ps| ==> Shipped(ps[i], chip)
    requires chip > 0 && chip % 4 == 0
    ensures RegisteredAll(ps).chipLength > 0 && RegisteredAll(ps).preambleSymbols > 0
    ensures Sound(Allocated(RegisteredAll(ps))) && Allocated(RegisteredAll(ps)).blockSize > 0
    ensures ScmCfg(chip) in ps ==>
              D.ScmSync() in RegisteredPreambles(ps) && Allocated(RegisteredAll(ps)).packetSymbols >= 8 * Scm.PACKET_BYTES
    ensures IdmCfg(chip) in ps ==>
              D.IdmSync() in RegisteredPreambles(ps) && Allocated(RegisteredAll(ps)).packetSymbols >= 8 * Idm.PACKET_BYTES
    ensures R900Cfg(chip) in ps ==>
              D.R900Sync() in RegisteredPreambles(ps) && Fits(Allocated(RegisteredAll(ps)))
              && Allocated(RegisteredAll(ps)).preambleSymbols == |D.R900Sync()|
  {
    hide RegisteredAll, Shipped, RegisteredPreambles, D.ScmSync, D.IdmSync, D.R900Sync, D.ScmPlusSync, D.PreambleBits;
    ShippedSettings(ps, chip);
    ShippedGeometry(ps, chip);
    ShippedPreambles(ps, chip);
    D.R900SyncWord(chip);
    if R900Cfg(chip) in ps {
      LargestPreamble(ps, chip);
    }
  }

  lemma LargestPreamble(ps: seq<ParserCfg>, chip: nat)
    requires |ps| > 0 && (forall i :: 0 <= i < |ps| ==> Shipped(ps[i], chip)) && R900Cfg(chip) in ps
    ensures RegisteredAll(ps).preambleSymbols == 32
  {
    hide RegisteredAll, Shipped;
    ShippedSettings(ps, chip);
  }

  /** What the SCM parser sends for a batch. */
  ghost function ScmMessages(batch: seq<D.Data>): (r: seq<R.Message>)
    requires LongEnough(batch, Scm.PACKET_BYTES)
  {
    Scm.PassedLengths(Keys(batch, Scm.PACKET_BYTES));
    var ms := Scm.Messages(Passed(Keys(batch, Scm.PACKET_BYTES), Scm.Accepts));
    seq(|ms|, k requires 0 <= k < |ms| => FromScm(ms[k]))
  }

  ghost function IdmMessages(batch: seq<D.Data>): (r: seq<R.Message>)
    requires LongEnough(batch, Idm.PACKET_BYTES)
  {
    Idm.PassedLengths(Keys(batch, Idm.PACKET_BYTES));
    var ms := Idm.Messages(Passed(Keys(batch, Idm.PACKET_BYTES), Idm.Accepts));
    seq(|ms|, k requires 0 <= k < |ms| => FromIdm(ms[k]))
  }

  lemma CallInRun(calls: seq<seq<D.Data>>, s: seq<int>, preamble: seq<Bit>, cfg: Config, n: nat)
    requires CallsOf(calls, s, preamble, cfg) && 1 <= n <= |calls|
    ensures D.BatchOfCall(calls[n - 1], s, n, preamble, cfg)
  {
    hide D.BatchOfCall;
    assert D.BatchOfCall(calls[n - 1], s, (n - 1) + 1, preamble, cfg);
  }

  /** Every block holds what the SCM parser sends for its batch. */
  ghost predicate ScmBlocks(blocks: seq<seq<R.Message>>, calls: seq<seq<D.Data>>) {
    |blocks| == |calls| && forall k :: 0 <= k < |calls| ==>
      LongEnough(calls[k], Scm.PACKET_BYTES) && Announces(blocks[k], "SCM", ScmMessages(calls[k]))
  }

  lemma ScmBlock(blocks: seq<seq<R.Message>>, calls: seq<seq<D.Data>>, k: nat)
    requires ScmBlocks(blocks, calls) && k < |calls|
    ensures |blocks| == |calls| && LongEnough(calls[k], Scm.PACKET_BYTES)
    ensures Announces(blocks[k], "SCM", ScmMessages(calls[k]))
  {
    hide LongEnough, Announces, ScmMessages;
  }

  /** What the receiver sees of a consumption message. */
  lemma ScmSeen(m: Scm.Message, packet: seq<Byte>)
    requires |packet| == Scm.PACKET_BYTES && Scm.InRange(m) && Scm.Spells(BytesToBits(packet), m)
    ensures FromScm(m) == R.Message("SCM", m.typ, m.id, packet[10..12],
                                    [m.id, m.typ, m.tamperPhy, m.tamperEnc, m.consumption, m.checksum])
  {
    hide Scm.Spells, Scm.InRange, BytesToBits, BitValue;
    Scm.FieldPlaces(BytesToBits(packet), m);
    Scm.ChecksumField(packet);
    WordText(packet[10..12]);
  }

  lemma ScmAnnounced(s: seq<int>, a: nat, packet: seq<Byte>, m: Scm.Message, cfg: Config, n: nat, batch: seq<D.Data>)
    requires Sound(cfg) && cfg.blockSize > 0 && cfg.packetSymbols >= 96
    requires |packet| == Scm.PACKET_BYTES && Scm.InRange(m) && Scm.Spells(BytesToBits(packet), m)
    requires m.checksum == CrcOf(0, packet[2..10], 0x6F63) && m.id != 0
    requires D.ScmSync() <= BytesToBits(packet) && D.Sent(s, a, BytesToBits(packet), cfg.chipLength)
    requires D.BatchOfCall(batch, s, n, D.ScmSync(), cfg)
    requires n == D.CallFor(cfg, a + cfg.symbolLength)
    ensures LongEnough(batch, Scm.PACKET_BYTES) && FromScm(m) in ScmMessages(batch)
  {
    hide Sound, D.Sent, D.BatchOfCall, D.CallFor, D.ScmSync, BytesToBits, Scm.Accepts, Scm.NewSCM, Scm.Spells,
      Scm.InRange, CrcOf, Passed, Keys, FromScm;
    ScmReceived(s, a, packet, m, cfg, n, batch);
    var ms := Scm.Messages(Passed(Keys(batch, Scm.PACKET_BYTES), Scm.Accepts));
    var j :| 0 <= j < |ms| && ms[j] == m;
    assert ScmMessages(batch)[j] == FromScm(m);
  }

  /** An SCM packet sent anywhere in the stream of a run is announced in the call for its position and reported once
      with its fields, also when its matching offsets straddle two blocks. */
  lemma ScmReported(s: seq<int>, a: nat, packet: seq<Byte>, m: Scm.Message, cfg: Config, calls: seq<seq<D.Data>>,
                    ids: Option<set<nat>>, types: Option<set<nat>>, blocks: seq<seq<R.Message>>)
    requires Sound(cfg) && cfg.blockSize > 0 && cfg.packetSymbols >= 96
    requires |packet| == Scm.PACKET_BYTES && Scm.InRange(m) && Scm.Spells(BytesToBits(packet), m)
    requires m.checksum == CrcOf(0, packet[2..10], 0x6F63) && m.id != 0
    requires D.ScmSync() <= BytesToBits(packet) && D.Sent(s, a, BytesToBits(packet), cfg.chipLength)
    requires CallsOf(calls, s, D.ScmSync(), cfg)
    requires a + cfg.symbolLength + cfg.bufferLength < D.Taken(cfg, |calls| + 1)
    requires ScmBlocks(blocks, calls)
    requires (ids.None? || m.id in ids.value) && (types.None? || m.typ in types.value)
    ensures var c := D.CallFor(cfg, a + cfg.symbolLength);
            && 1 <= c <= |blocks|
            && Reported(R.Chain(ids, types, false), blocks,
                        R.Message("SCM", m.typ, m.id, packet[10..12],
                                  [m.id, m.typ, m.tamperPhy, m.tamperEnc, m.consumption, m.checksum]), c - 1)
  {
    hide *;
    ScmSeen(m, packet);
    CallExists(cfg, a + cfg.symbolLength, |calls|);
    var c := D.CallFor(cfg, a + cfg.symbolLength);
    ScmBlock(blocks, calls, c - 1);
    CallInRun(calls, s, D.ScmSync(), cfg, c);
    ScmAnnounced(s, a, packet, m, cfg, c, calls[c - 1]);
    AnnouncedIsReported(ids, types, blocks, c - 1, ScmMessages(calls[c - 1]), FromScm(m));
  }

  /** Every block holds what the IDM parser sends for its batch. */
  ghost predicate IdmBlocks(blocks: seq<seq<R.Message>>, calls: seq<seq<D.Data>>) {
    |blocks| == |calls| && forall k :: 0 <= k < |calls| ==>
      LongEnough(calls[k], Idm.PACKET_BYTES) && Announces(blocks[k], "IDM", IdmMessages(calls[k]))
  }

  lemma IdmBlock(blocks: seq<seq<R.Message>>, calls: seq<seq<D.Data>>, k: nat)
    requires IdmBlocks(blocks, calls) && k < |calls|
    ensures |blocks| == |calls| && LongEnough(calls[k], Idm.PACKET_BYTES)
    ensures Announces(blocks[k], "IDM", IdmMessages(calls[k]))
  {
    hide LongEnough, Announces, IdmMessages;
  }

  lemma IdmSeen(m: Idm.Message, packet: seq<Byte>)
    requires |packet| == Idm.PACKET_BYTES && Idm.InRange(m) && Idm.Spells(packet, m)
    ensures FromIdm(m)
         == R.Message("IDM", m.ertType, m.ertSerialNumber, packet[90..92],
                      [m.preamble, m.packetTypeID, m.packetLength, m.hammingCode, m.applicationVersion, m.ertType,
                       m.ertSerialNumber, m.consumptionIntervalCount, m.moduleProgrammingState] + m.tamperCounters
                      + [m.asynchronousCounters] + m.powerOutageFlags + [m.lastConsumptionCount] + m.intervals
                      + [m.transmitTimeOffset, m.serialNumberCRC, m.packetCRC])
  {
    hide Idm.Spells, Idm.InRange, BytesToBits, BigEndian, Idm.Intervals;
    Idm.FieldPlaces(packet, m);
    BigEndianWord(packet[90..92]);
  }

  lemma IdmAnnounced(s: seq<int>, a: nat, packet: seq<Byte>, m: Idm.Message, cfg: Config, n: nat, batch: seq<D.Data>)
    requires Sound(cfg) && cfg.blockSize > 0 && cfg.packetSymbols >= 736
    requires |packet| == Idm.PACKET_BYTES && Idm.InRange(m) && Idm.Spells(packet, m)
    requires m.packetCRC == 0xFFFF - CrcOf(0xFFFF, packet[4..90], 0x1021)
    requires m.serialNumberCRC == 0xFFFF - CrcOf(0xFFFF, packet[9..13], 0x1021) && m.ertSerialNumber != 0
    requires D.IdmSync() <= BytesToBits(packet) && D.Sent(s, a, BytesToBits(packet), cfg.chipLength)
    requires D.BatchOfCall(batch, s, n, D.IdmSync(), cfg)
    requires n == D.CallFor(cfg, a + cfg.symbolLength)
    ensures LongEnough(batch, Idm.PACKET_BYTES) && FromIdm(m) in IdmMessages(batch)
  {
    hide Sound, D.Sent, D.BatchOfCall, D.CallFor, D.IdmSync, BytesToBits, Idm.Accepts, Idm.IdmOf, Idm.Spells,
      Idm.InRange, CrcOf, Passed, Keys, FromIdm;
    IdmReceived(s, a, packet, m, cfg, n, batch);
    var ms := Idm.Messages(Passed(Keys(batch, Idm.PACKET_BYTES), Idm.Accepts));
    var j :| 0 <= j < |ms| && ms[j] == m;
    assert IdmMessages(batch)[j] == FromIdm(m);
  }

  /** Likewise for an IDM packet. */
  lemma IdmReported(s: seq<int>, a: nat, packet: seq<Byte>, m: Idm.Message, cfg: Config, calls: seq<seq<D.Data>>,
                    ids: Option<set<nat>>, types: Option<set<nat>>, blocks: seq<seq<R.Message>>)
    requires Sound(cfg) && cfg.blockSize > 0 && cfg.packetSymbols >= 736
    requires |packet| == Idm.PACKET_BYTES && Idm.InRange(m) && Idm.Spells(packet, m)
    requires m.packetCRC == 0xFFFF - CrcOf(0xFFFF, packet[4..90], 0x1021)
    requires m.serialNumberCRC == 0xFFFF - CrcOf(0xFFFF, packet[9..13], 0x1021) && m.ertSerialNumber != 0
    requires D.IdmSync() <= BytesToBits(packet) && D.Sent(s, a, BytesToBits(packet), cfg.chipLength)
    requires CallsOf(calls, s, D.IdmSync(), cfg)
    requires a + cfg.symbolLength + cfg.bufferLength < D.Taken(cfg, |calls| + 1)
    requires IdmBlocks(blocks, calls)
    requires (ids.None? || m.ertSerialNumber in ids.value) && (types.None? || m.ertType in types.value)
    ensures var c := D.CallFor(cfg, a + cfg.symbolLength);
            && 1 <= c <= |blocks|
            && Reported(R.Chain(ids, types, false), blocks,
                        R.Message("IDM", m.ertType, m.ertSerialNumber, packet[90..92],
                                  [m.preamble, m.packetTypeID, m.packetLength, m.hammingCode, m.applicationVersion, m.ertType,
                                   m.ertSerialNumber, m.consumptionIntervalCount, m.moduleProgrammingState]
                                  + m.tamperCounters + [m.asynchronousCounters] + m.powerOutageFlags
                                  + [m.lastConsumptionCount] + m.intervals
                                  + [m.transmitTimeOffset, m.serialNumberCRC, m.packetCRC]), c - 1)
  {
    hide *;
    IdmSeen(m, packet);
    CallExists(cfg, a + cfg.symbolLength, |calls|);
    var c := D.CallFor(cfg, a + cfg.symbolLength);
    IdmBlock(blocks, calls, c - 1);
    CallInRun(calls, s, D.IdmSync(), cfg, c);
    IdmAnnounced(s, a, packet, m, cfg, c, calls[c - 1]);
    AnnouncedIsReported(ids, types, blocks, c - 1, IdmMessages(calls[c - 1]), FromIdm(m));
  }

  /** Every block holds what the R900 parser sends in its call, directly or behind the relay. */
  ghost predicate R900Blocks(blocks: seq<seq<R.Message>>, msgs: seq<seq<Reading>>, bcd: bool) {
    |blocks| == |msgs| && forall k :: 0 <= k < |msgs| ==>
      if bcd then Announces(blocks[k], "R900BCD", BcdMessages(msgs[k])) else Announces(blocks[k], "R900", R900Messages(msgs[k]))
  }

  lemma R900Block(blocks: seq<seq<R.Message>>, msgs: seq<seq<Reading>>, bcd: bool, k: nat, reading: Reading)
    returns (sent: seq<R.Message>)
    requires R900Blocks(blocks, msgs, bcd) && k < |msgs| && reading in msgs[k]
    ensures |blocks| == |msgs|
    ensures var m := if bcd then FromBcd(reading) else FromR900(reading);
            m in sent && Announces(blocks[k], m.msgType, sent)
  {
    hide Announces;
    sent := if bcd then BcdMessages(msgs[k]) else R900Messages(msgs[k]);
    var j :| 0 <= j < |msgs[k]| && msgs[k][j] == reading;
    assert sent[j] == if bcd then FromBcd(reading) else FromR900(reading);
  }

  /** Likewise for an R900 packet, read by the R900 parser or, behind the relay, with a binary-coded consumption: some
      message with its fields and parity is reported once. */
  lemma R900Reported(s: seq<int>, a: nat, f: Fields, parity: seq<Byte>, cfg: Config,
                     calls: seq<seq<D.Data>>, msgs: seq<seq<Reading>>, bcd: bool,
                     ids: Option<set<nat>>, types: Option<set<nat>>, blocks: seq<seq<R.Message>>)
    returns (sig: int, noise: int)
    requires Fits(cfg) && |D.R900Sync()| == cfg.preambleSymbols && D.Sent(s, a, D.R900Sync(), cfg.chipLength)
    requires InRange(f) && |parity| == 5 && Symbols(WordFor(f, parity)) && Accepted(WordFor(f, parity))
    requires PayloadDominates(s, a + cfg.preambleLength, cfg.chipLength, DigitsOf(WordFor(f, parity)))
    requires cfg.blockSize > 0 && CallsOf(calls, s, D.R900Sync(), cfg) && MessagesOfRun(msgs, calls, s, cfg)
    requires a + cfg.symbolLength + cfg.bufferLength < D.Taken(cfg, |calls| + 1)
    requires R900Blocks(blocks, msgs, bcd)
    requires (ids.None? || f.id in ids.value) && (types.None? || f.unkn1 in types.value)
    ensures var c := D.CallFor(cfg, a + cfg.symbolLength);
            && 1 <= c <= |blocks|
            && Reported(R.Chain(ids, types, false), blocks,
                        R.Message(if bcd then "R900BCD" else "R900", f.unkn1, f.id, parity,
                                  [f.id, f.unkn1, f.noUse, f.backFlow,
                                   if bcd then F.BcdConsumption(f.consumption) else f.consumption,
                                   f.unkn3, f.leak, f.leakNow, sig, noise]), c - 1)
  {
    hide *;
    var c, reading := R900Call(s, a, f, parity, cfg, calls, msgs);
    var sent := R900Block(blocks, msgs, bcd, c - 1, reading);
    var m := if bcd then FromBcd(reading) else FromR900(reading);
    R900Seen(reading, f, parity);
    sig, noise := reading.sigSum, reading.noiseSum;
    AnnouncedIsReported(ids, types, blocks, c - 1, sent, m);
  }

  lemma R900Call(s: seq<int>, a: nat, f: Fields, parity: seq<Byte>, cfg: Config, calls: seq<seq<D.Data>>,
                 msgs: seq<seq<Reading>>) returns (c: nat, reading: Reading)
    requires Fits(cfg) && |D.R900Sync()| == cfg.preambleSymbols && D.Sent(s, a, D.R900Sync(), cfg.chipLength)
    requires InRange(f) && |parity| == 5 && Symbols(WordFor(f, parity)) && Accepted(WordFor(f, parity))
    requires PayloadDominates(s, a + cfg.preambleLength, cfg.chipLength, DigitsOf(WordFor(f, parity)))
    requires cfg.blockSize > 0 && CallsOf(calls, s, D.R900Sync(), cfg) && MessagesOfRun(msgs, calls, s, cfg)
    requires a + cfg.symbolLength + cfg.bufferLength < D.Taken(cfg, |calls| + 1)
    ensures c == D.CallFor(cfg, a + cfg.symbolLength) && 1 <= c <= |msgs|
    ensures reading in msgs[c - 1] && reading.fields == f && reading.checksum == parity
  {
    hide *;
    ReceivedInRun(s, a, D.R900Sync(), f, parity, cfg, calls, msgs);
    c := D.CallFor(cfg, a + cfg.symbolLength);
    reading := OneDelivered(msgs[c - 1], f, parity);
  }

  lemma OneDelivered(msgs: seq<Reading>, f: Fields, parity: seq<Byte>) returns (reading: Reading)
    requires DeliveredOnce(msgs, f, parity)
    ensures reading in msgs && reading.fields == f && reading.checksum == parity
  {
    var j :| 0 <= j < |msgs| && Carries(msgs[j], f, parity);
    reading := msgs[j];
  }

  lemma R900Seen(m: Reading, f: Fields, parity: seq<Byte>)
    requires m.fields == f && m.checksum == parity
    ensures FromR900(m) == R.Message("R900", f.unkn1, f.id, parity,
                                     [f.id, f.unkn1, f.noUse, f.backFlow, f.consumption, f.unkn3, f.leak, f.leakNow,
                                      m.sigSum, m.noiseSum])
    ensures FromBcd(m) == R.Message("R900BCD", f.unkn1, f.id, parity,
                                    [f.id, f.unkn1, f.noUse, f.backFlow, F.BcdConsumption(f.consumption), f.unkn3, f.leak,
                                     f.leakNow, m.sigSum, m.noiseSum])
  {
    hide F.BcdConsumption;
  }
}
