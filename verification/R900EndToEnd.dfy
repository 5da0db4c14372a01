/** The whole R900 chain: registration, decoder, parser. A packet anywhere in the sample stream becomes its
    message. */
module R900EndToEnd {
  import opened Wrappers
  import opened Bits
  import opened Stream
  import opened Geometry
  import opened R900Code
  import opened R900Filter
  import opened R900Message
  import opened R900Parser
  import opened R900Link
  import opened Runs
  import Demod
  import R900Encoder
  import D = Decoder

  // ----- geometry of the shipped parsers -----

  /** Whatever shipped parsers are registered, in whatever order, with symbols of whole bytes:
      all buffers are sound, the block is the least power of two that holds a preamble, and with R900 among
      them its payload fits. */
  lemma ShippedGeometry(ps: seq<ParserCfg>, chip: nat)
    requires |ps| > 0 && forall i :: 0 <= i < |ps| ==> Shipped(ps[i], chip)
    requires chip > 0 && chip % 4 == 0
    ensures var c := RegisteredAll(ps);
            && c.preambleSymbols > 0 && c.chipLength > 0
            && Sound(Allocated(c))
            && (forall k :: Gf2Poly.Pow2(k) >= Allocated(c).preambleLength ==> Gf2Poly.Pow2(k) >= Allocated(c).blockSize)
            && (R900Cfg(chip) in ps ==> Fits(Allocated(c)))
  {
    hide Sound, RegisteredAll, Shipped;
    ShippedSettings(ps, chip);
    AllocatedIsSound(RegisteredAll(ps));
  }

  // ----- from the stream to the history -----

  lemma ChipsLocal(x: seq<int>, i: nat, y: seq<int>, j: nat, chip: nat)
    requires i + 4 * chip <= |x| && j + 4 * chip <= |y|
    requires x[i..i + 4 * chip] == y[j..j + 4 * chip]
    ensures ChipsAt(x, i, chip) == ChipsAt(y, j, chip)
  {
    hide Sum;
    PartOfWindow(x, i, y, j, 4 * chip, 0, chip);
    PartOfWindow(x, i, y, j, 4 * chip, chip, 2 * chip);
    PartOfWindow(x, i, y, j, 4 * chip, 2 * chip, 3 * chip);
    PartOfWindow(x, i, y, j, 4 * chip, 3 * chip, 4 * chip);
  }

  /** The samples of the stream reappear in the history, offset by what has left the buffer. */
  lemma HistoryWindow(s: seq<int>, size: nat, n: nat, i: nat, a: nat, len: nat)
    requires size <= |s| && i + len <= n && size + i == a + n
    ensures a + len <= size && History(s[..size], n)[i..i + len] == s[a..a + len]
  {
    var h := History(s[..size], n);
    var u, v := h[i..i + len], s[a..a + len];
    forall j | 0 <= j < len
      ensures u[j] == v[j]
    {
      assert h[i + j] == (Quiet(n) + s[..size])[size + i + j];
    }
  }

  lemma PayloadInHistory(s: seq<int>, size: nat, n: nat, i: nat, a: nat, cl: nat, digits: seq<Digit>)
    requires size <= |s| && size + i == a + n && PayloadDominates(s, a, cl, digits)
    requires InBounds(n, i, |digits|, cl)
    ensures PayloadDominates(History(s[..size], n), i, cl, digits)
  {
    hide Chips.Dominates, ChipsAt, History;
    var x := History(s[..size], n);
    forall k | 0 <= k < |digits|
      ensures At(i, k, cl) + 4 * cl <= |x| && ChipsAt(x, At(i, k, cl), cl).Dominates(digits[k])
    {
      HistoryWindow(s, size, n, At(i, k, cl), At(a, k, cl), 4 * cl);
      ChipsLocal(x, At(i, k, cl), s, At(a, k, cl), cl);
    }
  }

  /** A preamble sent at sample a is among the candidates of the call for it. */
  lemma PreambleFound(s: seq<int>, a: nat, preamble: seq<Bit>, cfg: Config, n: nat, batch: seq<D.Data>) returns (k: nat)
    requires Sound(cfg) && cfg.blockSize > 0 && |preamble| <= cfg.packetSymbols
    requires D.Sent(s, a, preamble, cfg.chipLength)
    requires D.BatchOfCall(batch, s, n, preamble, cfg) && n == D.CallFor(cfg, a + cfg.symbolLength)
    ensures var idxs := D.Indices(batch);
            Considered(idxs, cfg.blockSize) == idxs && k < |idxs| && D.StartsAt(cfg, D.Taken(cfg, n), idxs[k], a)
  {
    hide Sound, D.Taken, D.At, D.Sent, DecisionBuffer, D.CallFor, D.PacketAt, D.Matches;
    var t, size, idxs := a + cfg.symbolLength, D.Taken(cfg, n), D.Indices(batch);
    D.ExactlyOnce(cfg, t, n);
    var i := t - D.Position(cfg, n, 0);
    D.PreambleOccurs(s, a, preamble, preamble, cfg, size, i);
    assert i in idxs;
    k :| 0 <= k < |idxs| && idxs[k] == i;
    forall l | 0 <= l < |idxs|
      ensures idxs[l] <= cfg.blockSize
    {
      assert idxs[l] in idxs;
    }
    ConsideredIs(idxs, |idxs|, cfg.blockSize);
  }

  /** The payload after a preamble that starts at sample a, seen in the history of the call for it. */
  lemma PayloadArrives(s: seq<int>, a: nat, cfg: Config, size: nat, i: nat, digits: seq<Digit>)
    requires Fits(cfg) && cfg.symbolLength <= cfg.preambleLength
    requires size <= |s| && D.StartsAt(cfg, size, i, a) && |digits| == PAYLOAD_SYMBOLS
    requires PayloadDominates(s, a + cfg.preambleLength, cfg.chipLength, digits)
    ensures PayloadDominates(History(s[..size], cfg.bufferLength), PayloadStart(cfg, i), cfg.chipLength, digits)
  {
    hide Fits, PayloadDominates, InBounds, History;
    PayloadInBounds(cfg, i);
    PayloadInHistory(s, size, cfg.bufferLength, PayloadStart(cfg, i), a + cfg.preambleLength, cfg.chipLength, digits);
  }

  lemma WordDigits(f: Fields, parity: seq<Byte>)
    requires |parity| == 5 && Symbols(WordFor(f, parity))
    ensures |DigitsOf(WordFor(f, parity))| == PAYLOAD_SYMBOLS
  {
    hide FieldBits, GroupBits, DigitsOf;
  }

  /** End to end. A preamble sent anywhere in the stream, followed by a payload that dominates chip by chip,
      is decoded in the call for its position: that block yields exactly one message with these fields and
      this parity, whatever else is in the stream and wherever the block boundaries are, and the message reports
      the energies of the payload. */
  lemma PacketReceived(s: seq<int>, a: nat, preamble: seq<Bit>, f: Fields, parity: seq<Byte>, cfg: Config, n: nat,
                       batch: seq<D.Data>, msgs: seq<Reading>)
    requires Fits(cfg) && |preamble| == cfg.preambleSymbols && D.Sent(s, a, preamble, cfg.chipLength)
    requires InRange(f) && |parity| == 5 && Symbols(WordFor(f, parity)) && Accepted(WordFor(f, parity))
    requires PayloadDominates(s, a + cfg.preambleLength, cfg.chipLength, DigitsOf(WordFor(f, parity)))
    requires cfg.blockSize > 0 && n == D.CallFor(cfg, a + cfg.symbolLength)
    requires D.BatchOfCall(batch, s, n, preamble, cfg)
    requires MessagesOf(msgs, s[..D.Taken(cfg, n)], cfg, D.Indices(batch))
    ensures DeliveredOnce(msgs, f, parity)
    ensures ReceivedMeasured(msgs, s, a, cfg, D.Taken(cfg, n), Considered(D.Indices(batch), cfg.blockSize), f, parity)
  {
    FitsSound(cfg);
    hide *;
    var idxs := D.Indices(batch);
    var size := TakenSize(batch, s, n, preamble, cfg);
    var k := PreambleFound(s, a, preamble, cfg, n, batch);
    WordDigits(f, parity);
    PayloadArrives(s, a, cfg, size, idxs[k], DigitsOf(WordFor(f, parity)));
    MessagesAre(msgs, s[..size], cfg, idxs);
    RoundTrip(History(s[..size], cfg.bufferLength), cfg, idxs, k, f, parity);
    MeasuredFrom(msgs, s, a, cfg, size, idxs, k, f, parity);
  }

  /** Seen in the history of the call, the message measures the payload of the first candidate to spell the sent
      word, which is the sent payload or one before it. If the sent payload is a waveform at full scale and no
      candidate before it spells the word, the signal is 84 chips and there is no noise. */
  ghost predicate ReceivedMeasured(msgs: seq<Reading>, s: seq<int>, a: nat, cfg: Config, size: nat, considered: seq<nat>,
                                   f: Fields, parity: seq<Byte>)
    requires Fits(cfg) && size <= |s| && forall l :: 0 <= l < |considered| ==> considered[l] <= cfg.blockSize
    requires |parity| == 5 && Symbols(WordFor(f, parity))
  {
    var x, word := History(s[..size], cfg.bufferLength), WordFor(f, parity);
    exists k :: 0 <= k < |considered| && D.StartsAt(cfg, size, considered[k], a)
      && DeliveredMeasured(msgs, x, cfg, considered, k, f, parity)
      && (PayloadWritten(s, a + cfg.preambleLength, cfg.chipLength, DigitsOf(word))
          && FirstReader(x, cfg, considered, k, word) ==>
            FullScaleMessage(msgs, cfg.chipLength, f, parity))
  }

  lemma MeasuredFrom(msgs: seq<Reading>, s: seq<int>, a: nat, cfg: Config, size: nat, considered: seq<nat>, k: nat,
                     f: Fields, parity: seq<Byte>)
    requires Fits(cfg) && size <= |s| && forall l :: 0 <= l < |considered| ==> considered[l] <= cfg.blockSize
    requires |parity| == 5 && Symbols(WordFor(f, parity))
    requires k < |considered| && D.StartsAt(cfg, size, considered[k], a)
    requires DeliveredMeasured(msgs, History(s[..size], cfg.bufferLength), cfg, considered, k, f, parity)
    ensures ReceivedMeasured(msgs, s, a, cfg, size, considered, f, parity)
  {
    hide Fits, WordFor, DigitsOf, History, PayloadWritten, D.StartsAt, DeliveredMeasured, FirstReader,
      FullScaleMessage;
    FitsSound(cfg);
    WordDigits(f, parity);
    var x, word := History(s[..size], cfg.bufferLength), WordFor(f, parity);
    if PayloadWritten(s, a + cfg.preambleLength, cfg.chipLength, DigitsOf(word)) && FirstReader(x, cfg, considered, k, word) {
      WrittenArrives(s, a, cfg, size, considered[k], DigitsOf(word));
      WrittenFirst(msgs, x, cfg, considered, k, f, parity, DigitsOf(word));
    }
  }

  /** A waveform written in the stream is found written in the history. */
  lemma WrittenArrives(s: seq<int>, a: nat, cfg: Config, size: nat, i: nat, digits: seq<Digit>)
    requires Fits(cfg) && cfg.symbolLength <= cfg.preambleLength
    requires size <= |s| && D.StartsAt(cfg, size, i, a) && |digits| == PAYLOAD_SYMBOLS
    requires PayloadWritten(s, a + cfg.preambleLength, cfg.chipLength, digits)
    ensures PayloadWritten(History(s[..size], cfg.bufferLength), PayloadStart(cfg, i), cfg.chipLength, digits)
  {
    hide Fits, History, On, SymbolWritten;
    PayloadInBounds(cfg, i);
    var x, start, at, cl := History(s[..size], cfg.bufferLength), PayloadStart(cfg, i), a + cfg.preambleLength, cfg.chipLength;
    forall k | 0 <= k < |digits|
      ensures SymbolWritten(x, At(start, k, cl), cl, digits[k])
    {
      HistoryWindow(s, size, cfg.bufferLength, At(start, k, cl), At(at, k, cl), 4 * cl);
      WrittenMoves(s, At(at, k, cl), x, At(start, k, cl), cl, digits[k]);
    }
  }

  lemma WrittenMoves(x: seq<int>, i: nat, y: seq<int>, j: nat, cl: nat, d: Digit)
    requires SymbolWritten(x, i, cl, d) && j + 4 * cl <= |y| && x[i..i + 4 * cl] == y[j..j + 4 * cl]
    ensures SymbolWritten(y, j, cl, d)
  {
    hide On;
    forall c | 0 <= c < 4
      ensures ChipWritten(y, j + c * cl, cl, if On(d, c) then 1 else 0)
    {
      ChipOffset(c, cl);
      var v := if On(d, c) then 1 else 0;
      assert ChipWritten(x, i + c * cl, cl, v);
      forall t | j + c * cl <= t < j + c * cl + cl
        ensures y[t] == v
      {
        assert y[j..j + 4 * cl][t - j] == x[i..i + 4 * cl][t - j];
        assert x[i + (t - j)] == v;
      }
    }
  }

  lemma TakenSize(batch: seq<D.Data>, s: seq<int>, n: nat, preamble: seq<Bit>, cfg: Config) returns (size: nat)
    requires D.BatchOfCall(batch, s, n, preamble, cfg)
    ensures size == D.Taken(cfg, n) <= |s|
  {
    size := D.Taken(cfg, n);
  }

  lemma MessagesAre(msgs: seq<Reading>, s: seq<int>, cfg: Config, idxs: seq<nat>)
    requires MessagesOf(msgs, s, cfg, idxs)
    ensures Fits(cfg) && msgs == Emitted(History(s, cfg.bufferLength), cfg, idxs)
  {
  }

  lemma FitsSound(cfg: Config)
    requires Fits(cfg)
    ensures Sound(cfg) && cfg.preambleSymbols <= cfg.packetSymbols && cfg.symbolLength <= cfg.preambleLength
  {
    ScaleMono(1, cfg.preambleSymbols, cfg.symbolLength);
  }

  // ----- decoder and parser together -----

  /** Decoder and parser share no buffers and agree on the settings. */
  ghost predicate Apart(d: D.Decoder, r: Parser)
    reads d, r
  {
    Fits(d.cfg) && (r.once ==> r.cfg == d.cfg)
    && {d.signal as object, d.quantized, d.csum, d.pkt, d.packed, d} !! r.Repr
  }

  /** The decoder's part of a block; the parser is not touched. */
  method TakeIn(d: D.Decoder, r: Parser, preamble: seq<Bit>, input: seq<Byte>, ghost s: seq<int>)
    returns (batch: seq<D.Data>)
    requires d.Tracks(s) && r.Tracks(s) && Apart(d, r) && preamble in d.preambles && 2 * d.cfg.blockSize <= |input|
    modifies d.signal, d.quantized, d.csum, d.pkt, d.packed, d`sIdxA, d`sIdxB
    ensures d.Tracks(s + Demod.Power(input, d.cfg.blockSize)) && r.Tracks(s) && Apart(d, r)
    ensures D.BatchOf(batch, d.quantized[..], preamble, d.cfg)
  {
    hide D.Decoder.Tracks, Parser.Tracks, Fits, D.BatchOf, Demod.Power;
    r.TracksOwner(s);
    var batches := d.Decode(input, s);
    batch := batches[preamble];
  }

  /** The parser's part of a block; the decoder is not touched. */
  method HandOn(d: D.Decoder, r: Parser, batch: seq<D.Data>, ghost s: seq<int>, ghost block: seq<int>)
    returns (msgs: seq<Reading>)
    requires d.Tracks(s + block) && r.Tracks(s) && Apart(d, r) && |block| == d.cfg.blockSize
    modifies r.Repr
    ensures d.Tracks(s + block) && r.Tracks(s + block) && Apart(d, r) && d.quantized[..] == old(d.quantized[..])
    ensures fresh(r.Repr - old(r.Repr))
    ensures MessagesOf(msgs, s + block, d.cfg, D.Indices(batch))
  {
    hide D.Decoder.Tracks, Parser.Tracks, Fits, SampleBuffer, MessagesOf;
    DecoderSampleBuffer(d, s + block);
    msgs := r.Parse(batch, d.cfg, d.signal, s, block);
  }

  /** One block through the decoder and the R900 parser: what Decode leaves behind is what Parse needs, and
      both stay in step with the stream. */
  method Block(d: D.Decoder, r: Parser, preamble: seq<Bit>, input: seq<Byte>, ghost s: seq<int>)
    returns (msgs: seq<Reading>, batch: seq<D.Data>)
    requires d.Tracks(s) && r.Tracks(s) && Apart(d, r) && preamble in d.preambles && 2 * d.cfg.blockSize <= |input|
    modifies d.signal, d.quantized, d.csum, d.pkt, d.packed, d`sIdxA, d`sIdxB, r.Repr
    ensures var s' := s + Demod.Power(input, d.cfg.blockSize);
            && d.Tracks(s') && r.Tracks(s') && Apart(d, r)
            && D.BatchOf(batch, d.quantized[..], preamble, d.cfg)
            && MessagesOf(msgs, s', d.cfg, D.Indices(batch))
    ensures fresh(r.Repr - old(r.Repr))
  {
    hide D.Decoder.Tracks, Parser.Tracks, Fits, D.BatchOf, MessagesOf, Demod.Power;
    batch := TakeIn(d, r, preamble, input, s);
    msgs := HandOn(d, r, batch, s, Demod.Power(input, d.cfg.blockSize));
  }

  // ----- whole runs -----

  /** What call n yields for its candidates. */
  ghost predicate MessagesOfCall(msgs: seq<Reading>, batch: seq<D.Data>, s: seq<int>, n: nat, cfg: Config) {
    D.Taken(cfg, n) <= |s| && MessagesOf(msgs, s[..D.Taken(cfg, n)], cfg, D.Indices(batch))
  }

  /** msgs[k] is what call k + 1 yields. */
  ghost predicate MessagesOfRun(msgs: seq<seq<Reading>>, calls: seq<seq<D.Data>>, s: seq<int>, cfg: Config) {
    |msgs| == |calls| && forall k :: 0 <= k < |msgs| ==> MessagesOfCall(msgs[k], calls[k], s, k + 1, cfg)
  }

  /** What one call returned and yielded, over the stream up to and including its block. */
  ghost predicate OneCall(batch: seq<D.Data>, msgs: seq<Reading>, s: seq<int>, preamble: seq<Bit>, cfg: Config) {
    && D.BatchOf(batch, DecisionBuffer(s, cfg.chipLength, cfg.bufferLength), preamble, cfg)
    && MessagesOf(msgs, s, cfg, D.Indices(batch))
  }

  lemma BlockIsCall(d: D.Decoder, batch: seq<D.Data>, msgs: seq<Reading>, s: seq<int>, preamble: seq<Bit>)
    requires d.Tracks(s) && D.BatchOf(batch, d.quantized[..], preamble, d.cfg)
    requires MessagesOf(msgs, s, d.cfg, D.Indices(batch))
    ensures OneCall(batch, msgs, s, preamble, d.cfg)
  {
    hide D.BatchOf, MessagesOf, DecisionBuffer, History, D.Decoder.Valid;
  }

  /** Any number of blocks through the decoder and the R900 parser, from the start. */
  method Run(d: D.Decoder, r: Parser, preamble: seq<Bit>, inputs: seq<seq<Byte>>)
    returns (calls: seq<seq<D.Data>>, msgs: seq<seq<Reading>>)
    requires d.Tracks([]) && r.Tracks([]) && Apart(d, r) && preamble in d.preambles
    requires FullBlocks(inputs, d.cfg.blockSize)
    modifies d.signal, d.quantized, d.csum, d.pkt, d.packed, d`sIdxA, d`sIdxB, r.Repr
    ensures fresh(r.Repr - old(r.Repr))
    ensures var s := Received(inputs, d.cfg.blockSize, |inputs|);
            && d.Tracks(s) && r.Tracks(s) && Apart(d, r)
            && |calls| == |inputs| && CallsOf(calls, s, preamble, d.cfg)
            && MessagesOfRun(msgs, calls, s, d.cfg)
  {
    hide D.Decoder.Tracks, Parser.Tracks, Fits, OneCall, CallsOf, MessagesOfRun, Demod.Power, FullBlocks,
      D.BatchOf, MessagesOf;
    ghost var size := d.cfg.blockSize;
    calls, msgs := [], [];
    var n := 0;
    while n < |inputs|
      invariant 0 <= n <= |inputs| && |calls| == |msgs| == n
      invariant fresh(r.Repr - old(r.Repr))
      invariant d.Tracks(Received(inputs, size, n)) && r.Tracks(Received(inputs, size, n)) && Apart(d, r)
      invariant forall k :: 0 <= k < n ==> OneCall(calls[k], msgs[k], Received(inputs, size, k + 1), preamble, d.cfg)
    {
      EnoughBytes(inputs, size, n);
      var m, batch := Block(d, r, preamble, inputs[n], Received(inputs, size, n));
      BlockIsCall(d, batch, m, Received(inputs, size, n + 1), preamble);
      calls, msgs := calls + [batch], msgs + [m];
      n := n + 1;
    }
    RunIsCalls(calls, msgs, inputs, preamble, d.cfg);
  }

  lemma RunIsCalls(calls: seq<seq<D.Data>>, msgs: seq<seq<Reading>>, inputs: seq<seq<Byte>>, preamble: seq<Bit>, cfg: Config)
    requires FullBlocks(inputs, cfg.blockSize) && |calls| == |msgs| == |inputs|
    requires forall k :: 0 <= k < |calls| ==>
               OneCall(calls[k], msgs[k], Received(inputs, cfg.blockSize, k + 1), preamble, cfg)
    ensures CallsOf(calls, Received(inputs, cfg.blockSize, |inputs|), preamble, cfg)
    ensures MessagesOfRun(msgs, calls, Received(inputs, cfg.blockSize, |inputs|), cfg)
  {
    hide OneCall, Received, FullBlocks, D.BatchOfCall, MessagesOfCall;
    var s := Received(inputs, cfg.blockSize, |inputs|);
    forall k | 0 <= k < |calls|
      ensures D.BatchOfCall(calls[k], s, k + 1, preamble, cfg) && MessagesOfCall(msgs[k], calls[k], s, k + 1, cfg)
    {
      CallInRun(calls[k], msgs[k], inputs, preamble, cfg, k + 1);
    }
  }

  lemma CallInRun(batch: seq<D.Data>, msgs: seq<Reading>, inputs: seq<seq<Byte>>, preamble: seq<Bit>, cfg: Config, n: nat)
    requires n <= |inputs| && FullBlocks(inputs, cfg.blockSize)
    requires OneCall(batch, msgs, Received(inputs, cfg.blockSize, n), preamble, cfg)
    ensures var s := Received(inputs, cfg.blockSize, |inputs|);
            D.BatchOfCall(batch, s, n, preamble, cfg) && MessagesOfCall(msgs, batch, s, n, cfg)
  {
    hide Received, FullBlocks, D.BatchOf, DecisionBuffer, MessagesOf;
    ReceivedPrefix(inputs, cfg.blockSize, n, |inputs|);
    CallIsOf(batch, inputs, cfg, n, |inputs|, preamble);
  }

  lemma CallOfRun(msgs: seq<seq<Reading>>, calls: seq<seq<D.Data>>, s: seq<int>, preamble: seq<Bit>, cfg: Config, n: nat)
    requires CallsOf(calls, s, preamble, cfg) && MessagesOfRun(msgs, calls, s, cfg) && 1 <= n <= |calls|
    ensures |msgs| == |calls| && D.BatchOfCall(calls[n - 1], s, n, preamble, cfg)
    ensures D.Taken(cfg, n) <= |s| && MessagesOf(msgs[n - 1], s[..D.Taken(cfg, n)], cfg, D.Indices(calls[n - 1]))
  {
    hide D.BatchOfCall, MessagesOf, D.Taken;
    assert D.BatchOfCall(calls[n - 1], s, (n - 1) + 1, preamble, cfg);
    assert MessagesOfCall(msgs[n - 1], calls[n - 1], s, (n - 1) + 1, cfg);
  }

  /** End to end over whole runs: a packet sent anywhere in the stream of a run is announced, exactly once, by
      the call for its position. */
  lemma ReceivedInRun(s: seq<int>, a: nat, preamble: seq<Bit>, f: Fields, parity: seq<Byte>, cfg: Config,
                      calls: seq<seq<D.Data>>, msgs: seq<seq<Reading>>)
    requires Fits(cfg) && |preamble| == cfg.preambleSymbols && D.Sent(s, a, preamble, cfg.chipLength)
    requires InRange(f) && |parity| == 5 && Symbols(WordFor(f, parity)) && Accepted(WordFor(f, parity))
    requires PayloadDominates(s, a + cfg.preambleLength, cfg.chipLength, DigitsOf(WordFor(f, parity)))
    requires cfg.blockSize > 0 && CallsOf(calls, s, preamble, cfg) && MessagesOfRun(msgs, calls, s, cfg)
    requires a + cfg.symbolLength + cfg.bufferLength < D.Taken(cfg, |calls| + 1)
    ensures var c := D.CallFor(cfg, a + cfg.symbolLength);
            && 1 <= c <= |msgs| && |msgs| == |calls| && DeliveredOnce(msgs[c - 1], f, parity)
            && D.Taken(cfg, c) <= |s|
            && ReceivedMeasured(msgs[c - 1], s, a, cfg, D.Taken(cfg, c),
                                Considered(D.Indices(calls[c - 1]), cfg.blockSize), f, parity)
  {
    hide *;
    FitsSound(cfg);
    CallExists(cfg, a + cfg.symbolLength, |calls|);
    var c := D.CallFor(cfg, a + cfg.symbolLength);
    CallOfRun(msgs, calls, s, preamble, cfg, c);
    PacketReceived(s, a, preamble, f, parity, cfg, c, calls[c - 1], msgs[c - 1]);
  }

  /** The two objects stay aligned: the decoder's decision i is the decision at index i - SymbolLength of the
      parser's history, for every index that lies in the stream. */
  lemma ObjectsAligned(d: D.Decoder, r: Parser, s: seq<int>, i: nat)
    requires d.Tracks(s) && r.Tracks(s) && Apart(d, r) && r.once
    requires d.cfg.symbolLength <= i < d.cfg.bufferLength <= |s| + i
    ensures i < d.quantized.Length && i - d.cfg.symbolLength + 2 * d.cfg.chipLength <= r.signal.Length
    ensures d.quantized[i] == Decide(r.signal[..], i - d.cfg.symbolLength, d.cfg.chipLength)
  {
    hide Decide, History, DecisionBuffer, R900Encoder.R900Tables, MiddleZero;
    FitsSound(d.cfg);
    D.Lengths(d.cfg);
    Alignment(s, d.cfg, i);
    assert d.quantized[i] == d.quantized[..][i];
  }
}
