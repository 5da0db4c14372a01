/** Whole runs of the decoder: set-up, any number of calls of Decode, and what they deliver together. */
module Runs {
  import opened Wrappers
  import opened Bits
  import opened Stream
  import opened Geometry
  import opened Demod
  import opened Decoder

  // ----- set-up -----

  /** The parsers of each preamble after registering ps in order. */
  function RegisteredPreambles(ps: seq<ParserCfg>): map<seq<Bit>, seq<ParserCfg>> {
    if ps == [] then map[] else AddParser(RegisteredPreambles(ps[..|ps| - 1]), ps[|ps| - 1])
  }

  /** The registered preambles are exactly those of the parsers, and each leads to its parsers. */
  lemma {:induction false} PreamblesOf(ps: seq<ParserCfg>, p: seq<Bit>, q: ParserCfg)
    ensures p in RegisteredPreambles(ps) <==> exists i :: 0 <= i < |ps| && PreambleBits(ps[i].preamble) == p
    ensures q in ps <==>
            PreambleBits(q.preamble) in RegisteredPreambles(ps) && q in RegisteredPreambles(ps)[PreambleBits(q.preamble)]
  {
    hide PreambleBits;
    if ps != [] {
      var n := |ps| - 1;
      PreamblesOf(ps[..n], p, q);
      assert forall i :: 0 <= i < n ==> ps[..n][i] == ps[i];
      assert ps == ps[..n] + [ps[n]];
      if p in RegisteredPreambles(ps) {
        assert p == PreambleBits(ps[n].preamble) || p in RegisteredPreambles(ps[..n]);
      }
    }
  }

  /** The parsers with this preamble, in order. */
  function WithPreamble(ps: seq<ParserCfg>, p: seq<Bit>): seq<ParserCfg> {
    if ps == [] then []
    else if PreambleBits(ps[0].preamble) == p then [ps[0]] + WithPreamble(ps[1..], p) else WithPreamble(ps[1..], p)
  }

  lemma {:induction false} WithSnoc(ps: seq<ParserCfg>, q: ParserCfg, p: seq<Bit>)
    ensures WithPreamble(ps + [q], p) == WithPreamble(ps, p) + (if PreambleBits(q.preamble) == p then [q] else [])
  {
    hide PreambleBits;
    if ps == [] {
      assert [q][1..] == [];
    } else {
      assert (ps + [q])[1..] == ps[1..] + [q];
      WithSnoc(ps[1..], q, p);
    }
  }

  /** Each preamble leads to all its parsers, in the order of registration. */
  lemma {:induction false} PreambleParsers(ps: seq<ParserCfg>, p: seq<Bit>)
    ensures (if p in RegisteredPreambles(ps) then RegisteredPreambles(ps)[p] else []) == WithPreamble(ps, p)
  {
    hide PreambleBits, WithPreamble;
    if ps != [] {
      var n := |ps| - 1;
      PreambleParsers(ps[..n], p);
      WithSnoc(ps[..n], ps[n], p);
      assert ps == ps[..n] + [ps[n]];
    } else {
      NonePreamble(p);
    }
  }

  lemma NonePreamble(p: seq<Bit>)
    ensures WithPreamble([], p) == []
  {
  }

  /** The preambles that shipped parsers are registered under, bit by bit. */
  ghost predicate UnderSyncWords(m: map<seq<Bit>, seq<ParserCfg>>, ps: seq<ParserCfg>, chip: nat) {
    && (ScmCfg(chip) in ps <==> ScmSync() in m && ScmCfg(chip) in m[ScmSync()])
    && (ScmPlusCfg(chip) in ps <==> ScmPlusSync() in m && ScmPlusCfg(chip) in m[ScmPlusSync()])
    && (IdmCfg(chip) in ps <==> IdmSync() in m && IdmCfg(chip) in m[IdmSync()])
    && (NetIdmCfg(chip) in ps <==> IdmSync() in m && NetIdmCfg(chip) in m[IdmSync()])
    && (R900Cfg(chip) in ps <==> R900Sync() in m && R900Cfg(chip) in m[R900Sync()])
    && forall p :: p in m ==> p == ScmSync() || p == ScmPlusSync() || p == IdmSync() || p == R900Sync()
  }

  lemma ShippedPreambles(ps: seq<ParserCfg>, chip: nat)
    requires forall i :: 0 <= i < |ps| ==> Shipped(ps[i], chip)
    ensures UnderSyncWords(RegisteredPreambles(ps), ps, chip)
  {
    hide PreambleBits, RegisteredPreambles, ScmSync, ScmPlusSync, IdmSync, R900Sync, ScmCfg, ScmPlusCfg, IdmCfg, NetIdmCfg,
      R900Cfg, Shipped;
    SyncWords(chip);
    PreamblesOf(ps, [], ScmCfg(chip));
    PreamblesOf(ps, [], ScmPlusCfg(chip));
    PreamblesOf(ps, [], IdmCfg(chip));
    PreamblesOf(ps, [], NetIdmCfg(chip));
    PreamblesOf(ps, [], R900Cfg(chip));
    forall p | p in RegisteredPreambles(ps)
      ensures p == ScmSync() || p == ScmPlusSync() || p == IdmSync() || p == R900Sync()
    {
      KnownPreamble(ps, chip, p);
    }
  }

  lemma SyncWords(chip: nat)
    ensures PreambleBits(ScmCfg(chip).preamble) == ScmSync() && PreambleBits(ScmPlusCfg(chip).preamble) == ScmPlusSync()
    ensures PreambleBits(IdmCfg(chip).preamble) == IdmSync() && PreambleBits(NetIdmCfg(chip).preamble) == IdmSync()
    ensures PreambleBits(R900Cfg(chip).preamble) == R900Sync()
  {
    hide PreambleBits, ScmSync, ScmPlusSync, IdmSync, R900Sync;
    ScmSyncWord(chip);
    ScmPlusSyncWord(chip);
    IdmSyncWord(chip);
    R900SyncWord(chip);
  }

  lemma KnownPreamble(ps: seq<ParserCfg>, chip: nat, p: seq<Bit>)
    requires (forall i :: 0 <= i < |ps| ==> Shipped(ps[i], chip)) && p in RegisteredPreambles(ps)
    ensures p == ScmSync() || p == ScmPlusSync() || p == IdmSync() || p == R900Sync()
  {
    hide PreambleBits, RegisteredPreambles, ScmSync, ScmPlusSync, IdmSync, R900Sync, ScmCfg, ScmPlusCfg, IdmCfg, NetIdmCfg,
      R900Cfg;
    SyncWords(chip);
    PreamblesOf(ps, p, ScmCfg(chip));
    var i :| 0 <= i < |ps| && PreambleBits(ps[i].preamble) == p;
    assert Shipped(ps[i], chip);
  }

  /** Shipped parsers with symbols of whole bytes make the decoder receivable. */
  lemma ShippedReceivable(ps: seq<ParserCfg>, chip: nat)
    requires |ps| > 0 && forall i :: 0 <= i < |ps| ==> Shipped(ps[i], chip)
    requires chip > 0 && chip % 4 == 0
    ensures Receivable(RegisteredAll(ps), RegisteredPreambles(ps))
  {
    hide RegisteredAll, Shipped, PreambleBits, RegisteredPreambles;
    ShippedSettings(ps, chip);
    forall p | p in RegisteredPreambles(ps)
      ensures 0 < |p| <= RegisteredAll(ps).preambleSymbols
    {
      PreamblesOf(ps, p, ps[0]);
      var i :| 0 <= i < |ps| && PreambleBits(ps[i].preamble) == p;
      ShippedFacts(ps[i], chip);
    }
  }

  /** Registers the parsers and allocates. Any non-empty choice of shipped parsers, in any order, gives a
      decoder that is ready to receive. */
  method SetUp(ps: seq<ParserCfg>, chip: nat) returns (d: Decoder)
    requires |ps| > 0 && forall i :: 0 <= i < |ps| ==> Shipped(ps[i], chip)
    requires chip > 0 && chip % 4 == 0
    ensures fresh(d) && fresh(d.signal) && fresh(d.quantized) && fresh(d.csum) && fresh(d.pkt) && fresh(d.packed)
    ensures d.Tracks([]) && d.preambles == RegisteredPreambles(ps)
    ensures UnderSyncWords(d.preambles, ps, chip)
    ensures RegisteredAll(ps).chipLength > 0 && RegisteredAll(ps).preambleSymbols > 0
    ensures d.cfg == Allocated(RegisteredAll(ps)) && SetFor(d.cfg, ps) && Sized(d.cfg)
  {
    hide Shipped, Receivable, Allocated, Registered, AddParser, UnderSyncWords, SetFor, Sized;
    d := new Decoder();
    var i := 0;
    assert ps[..0] == [];
    while i < |ps|
      invariant 0 <= i <= |ps| && fresh(d)
      invariant d.cfg == RegisteredAll(ps[..i]) && d.preambles == RegisteredPreambles(ps[..i])
    {
      assert ps[..i + 1][..i] == ps[..i];
      d.RegisterProtocol(ps[i]);
      i := i + 1;
    }
    assert ps[..i] == ps;
    ShippedSettings(ps, chip);
    ShippedReceivable(ps, chip);
    ShippedPreambles(ps, chip);
    RegisteredSettings(ps);
    AllocatedLengths(RegisteredAll(ps), ps);
    d.Allocate();
  }

  // ----- the stream of a run -----

  /** Enough bytes for a block. */
  predicate FullBlocks(inputs: seq<seq<Byte>>, size: nat) {
    forall k :: 0 <= k < |inputs| ==> 2 * size <= |inputs[k]|
  }

  /** The power of the first n blocks. */
  function Received(inputs: seq<seq<Byte>>, size: nat, n: nat): (s: seq<int>)
    requires n <= |inputs| && FullBlocks(inputs, size)
    ensures |s| == n * size
  {
    if n == 0 then [] else Received(inputs, size, n - 1) + Power(inputs[n - 1], size)
  }

  /** What has been received is a prefix of what will have been. */
  lemma {:induction false} ReceivedPrefix(inputs: seq<seq<Byte>>, size: nat, n: nat, m: nat)
    requires n <= m <= |inputs| && FullBlocks(inputs, size)
    ensures n * size <= m * size && Received(inputs, size, m)[..n * size] == Received(inputs, size, n)
    decreases m
  {
    hide Power;
    if n < m {
      ReceivedPrefix(inputs, size, n, m - 1);
      ScaleMono(n, m - 1, size);
      ScaleMono(m - 1, m, size);
    }
  }

  /** The stream is the blocks one after the other: sample j of block k is the power of its IQ pair j. */
  lemma ReceivedAt(inputs: seq<seq<Byte>>, size: nat, n: nat, k: nat, j: nat)
    requires k < n <= |inputs| && FullBlocks(inputs, size) && j < size
    ensures k * size + j < n * size
    ensures Received(inputs, size, n)[k * size + j] == Square(inputs[k][2 * j]) + Square(inputs[k][2 * j + 1])
  {
    hide Square;
    ScaleMono(k + 1, n, size);
    ReceivedPrefix(inputs, size, k + 1, n);
    assert Received(inputs, size, n)[..(k + 1) * size][k * size + j] == Received(inputs, size, k + 1)[k * size + j];
  }

  // ----- any number of calls -----

  /** calls[k] is what call k + 1 returns, over the stream s. */
  ghost predicate CallsOf(calls: seq<seq<Data>>, s: seq<int>, preamble: seq<Bit>, cfg: Config) {
    forall k :: 0 <= k < |calls| ==> BatchOfCall(calls[k], s, k + 1, preamble, cfg)
  }

  function CallsFor(calls: seq<map<seq<Bit>, seq<Data>>>, p: seq<Bit>): (r: seq<seq<Data>>)
    requires forall k :: 0 <= k < |calls| ==> p in calls[k]
    ensures |r| == |calls| && forall k :: 0 <= k < |r| ==> r[k] == calls[k][p]
  {
    seq(|calls|, k requires 0 <= k < |calls| => calls[k][p])
  }

  lemma CallIsOf(batch: seq<Data>, inputs: seq<seq<Byte>>, cfg: Config, n: nat, m: nat, p: seq<Bit>)
    requires n <= m <= |inputs| && FullBlocks(inputs, cfg.blockSize)
    requires BatchOf(batch, DecisionBuffer(Received(inputs, cfg.blockSize, n), cfg.chipLength, cfg.bufferLength), p, cfg)
    ensures BatchOfCall(batch, Received(inputs, cfg.blockSize, m), n, p, cfg)
  {
    hide BatchOf, DecisionBuffer, Received;
    ReceivedPrefix(inputs, cfg.blockSize, n, m);
  }

  /** What call n returned for each preamble. */
  ghost predicate CallReturns(batches: map<seq<Bit>, seq<Data>>, preambles: set<seq<Bit>>, s: seq<int>, cfg: Config) {
    batches.Keys == preambles
    && forall p :: p in preambles ==> BatchOf(batches[p], DecisionBuffer(s, cfg.chipLength, cfg.bufferLength), p, cfg)
  }

  /** Any number of calls of Decode: each returns, for every preamble, the packets of its block. */
  method DecodeRun(d: Decoder, inputs: seq<seq<Byte>>) returns (calls: seq<map<seq<Bit>, seq<Data>>>)
    requires d.Tracks([]) && FullBlocks(inputs, d.cfg.blockSize)
    modifies d.signal, d.quantized, d.csum, d.pkt, d.packed, d`sIdxA, d`sIdxB
    ensures d.Tracks(Received(inputs, d.cfg.blockSize, |inputs|))
    ensures |calls| == |inputs| && forall k :: 0 <= k < |calls| ==> calls[k].Keys == d.preambles.Keys
    ensures forall p :: p in d.preambles ==>
              CallsOf(CallsFor(calls, p), Received(inputs, d.cfg.blockSize, |inputs|), p, d.cfg)
  {
    hide Decoder.Tracks, BatchOf, CallsOf, DecisionBuffer, Power, FullBlocks, CallReturns;
    ghost var size := d.cfg.blockSize;
    calls := [];
    var n := 0;
    while n < |inputs|
      invariant 0 <= n <= |inputs| && |calls| == n
      invariant d.Tracks(Received(inputs, size, n))
      invariant forall k :: 0 <= k < n ==> CallReturns(calls[k], d.preambles.Keys, Received(inputs, size, k + 1), d.cfg)
    {
      EnoughBytes(inputs, size, n);
      var batches := DecodeOne(d, inputs[n], Received(inputs, size, n));
      calls := calls + [batches];
      n := n + 1;
    }
    RunReturns(calls, inputs, d.preambles.Keys, d.cfg);
  }

  lemma EnoughBytes(inputs: seq<seq<Byte>>, size: nat, n: nat)
    requires n < |inputs| && FullBlocks(inputs, size)
    ensures 2 * size <= |inputs[n]|
    ensures Received(inputs, size, n + 1) == Received(inputs, size, n) + Power(inputs[n], size)
  {
    hide Power;
  }

  /** One call, its result stated over the stream. */
  method DecodeOne(d: Decoder, input: seq<Byte>, ghost s: seq<int>) returns (batches: map<seq<Bit>, seq<Data>>)
    requires d.Tracks(s) && 2 * d.cfg.blockSize <= |input|
    modifies d.signal, d.quantized, d.csum, d.pkt, d.packed, d`sIdxA, d`sIdxB
    ensures d.Tracks(s + Power(input, d.cfg.blockSize))
    ensures CallReturns(batches, d.preambles.Keys, s + Power(input, d.cfg.blockSize), d.cfg)
  {
    hide BatchOf, DecisionBuffer, Power, Decoder.Valid, History;
    batches := d.Decode(input, s);
  }

  lemma RunReturns(calls: seq<map<seq<Bit>, seq<Data>>>, inputs: seq<seq<Byte>>, preambles: set<seq<Bit>>, cfg: Config)
    requires FullBlocks(inputs, cfg.blockSize) && |calls| == |inputs|
    requires forall k :: 0 <= k < |calls| ==> CallReturns(calls[k], preambles, Received(inputs, cfg.blockSize, k + 1), cfg)
    ensures forall k :: 0 <= k < |calls| ==> calls[k].Keys == preambles
    ensures forall p :: p in preambles ==>
              CallsOf(CallsFor(calls, p), Received(inputs, cfg.blockSize, |inputs|), p, cfg)
  {
    hide BatchOf, DecisionBuffer, Received, FullBlocks, CallsOf;
    forall p | p in preambles
      ensures CallsOf(CallsFor(calls, p), Received(inputs, cfg.blockSize, |inputs|), p, cfg)
    {
      RunReturnsFor(calls, inputs, preambles, cfg, p);
    }
  }

  lemma RunReturnsFor(calls: seq<map<seq<Bit>, seq<Data>>>, inputs: seq<seq<Byte>>, preambles: set<seq<Bit>>,
                      cfg: Config, p: seq<Bit>)
    requires FullBlocks(inputs, cfg.blockSize) && |calls| == |inputs| && p in preambles
    requires forall k :: 0 <= k < |calls| ==> CallReturns(calls[k], preambles, Received(inputs, cfg.blockSize, k + 1), cfg)
    requires forall k :: 0 <= k < |calls| ==> p in calls[k]
    ensures CallsOf(CallsFor(calls, p), Received(inputs, cfg.blockSize, |inputs|), p, cfg)
  {
    hide BatchOf, DecisionBuffer, Received, FullBlocks, BatchOfCall;
    forall k | 0 <= k < |calls|
      ensures BatchOfCall(calls[k][p], Received(inputs, cfg.blockSize, |inputs|), k + 1, p, cfg)
    {
      ReturnedFor(calls[k], preambles, Received(inputs, cfg.blockSize, k + 1), cfg, p);
      CallIsOf(calls[k][p], inputs, cfg, k + 1, |inputs|, p);
    }
  }

  lemma ReturnedFor(batches: map<seq<Bit>, seq<Data>>, preambles: set<seq<Bit>>, s: seq<int>, cfg: Config, p: seq<Bit>)
    requires CallReturns(batches, preambles, s, cfg) && p in preambles
    ensures p in batches && BatchOf(batches[p], DecisionBuffer(s, cfg.chipLength, cfg.bufferLength), p, cfg)
  {
    hide BatchOf, DecisionBuffer;
  }

  // ----- what a run delivers -----

  /** The call for a position is never before the first, and it is made once the samples that fill the buffer
      behind the position are in. */
  lemma CallExists(cfg: Config, t: nat, n: nat)
    requires Sound(cfg) && cfg.blockSize > 0
    ensures 1 <= CallFor(cfg, t)
    ensures CallFor(cfg, t) <= n <==> t + cfg.bufferLength < Taken(cfg, n + 1)
  {
    hide Sound;
    Lengths(cfg);
    ExactlyOnce(cfg, t, 0);
    var c := CallFor(cfg, t);
    QuotientBounds(t + cfg.bufferLength, cfg.blockSize, c);
    if c <= n {
      ScaleMono(c + 1, n + 1, cfg.blockSize);
    } else {
      ScaleMono(n + 1, c, cfg.blockSize);
    }
    assert c == 0 ==> c * cfg.blockSize == 0;
  }

  /** Exactly once over a whole run: of all the calls, the one for the packet's position delivers the packet
      with the sent bits, once, and no other call lists its position. */
  lemma LinkOverRun(calls: seq<seq<Data>>, s: seq<int>, a: nat, bits: seq<Bit>, preamble: seq<Bit>, cfg: Config)
    requires Sound(cfg) && cfg.blockSize > 0 && CallsOf(calls, s, preamble, cfg)
    requires Sent(s, a, bits, cfg.chipLength) && |bits| <= cfg.packetSymbols && preamble <= bits
    requires a + cfg.symbolLength + cfg.bufferLength < Taken(cfg, |calls| + 1)
    ensures var t := a + cfg.symbolLength;
            var c := CallFor(cfg, t);
            && 1 <= c <= |calls| && Position(cfg, c, 0) <= t
            && Delivered(calls[c - 1], t - Position(cfg, c, 0), bits, cfg)
            && forall k, l :: 0 <= k < |calls| && k + 1 != c && 0 <= l < |calls[k]| ==>
                 Position(cfg, k + 1, calls[k][l].idx) != t
  {
    hide Sound, Sent, BatchOfCall, CallFor, Position, Delivered, Taken;
    var t := a + cfg.symbolLength;
    CallExists(cfg, t, |calls|);
    forall k | 0 <= k < |calls|
      ensures LinkHolds(calls[k], cfg, k + 1, t, bits)
    {
      LinkTheorem(s, a, bits, preamble, cfg, k + 1, calls[k]);
    }
    assert LinkHolds(calls[CallFor(cfg, t) - 1], cfg, CallFor(cfg, t), t, bits);
    forall k, l | 0 <= k < |calls| && k + 1 != CallFor(cfg, t) && 0 <= l < |calls[k]|
      ensures Position(cfg, k + 1, calls[k][l].idx) != t
    {
      assert LinkHolds(calls[k], cfg, k + 1, t, bits);
    }
  }
}
