/** The R900 parser: signal history, payload decoding, acceptance and energy accounting. */
module R900Parser {
  import opened Wrappers
  import opened Gf2Poly
  import opened Bits
  import opened Stream
  import opened Geometry
  import opened Demod
  import opened FieldTheory
  import opened GaloisField
  import opened ReedSolomon
  import opened R900Code
  import opened R900Encoder
  import opened R900Filter
  import opened R900Message
  import D = Decoder

  const PAYLOAD_SYMBOLS: nat := 42

  /** Start of symbol k of a payload. */
  function At(start: nat, k: nat, cl: nat): nat {
    D.At(start, k, 4 * cl)
  }

  /** The filter has decided every payload symbol. */
  ghost predicate InBounds(size: nat, start: nat, n: nat, cl: nat) {
    forall k :: 0 <= k < n ==> At(start, k, cl) + 4 * cl < size
  }

  /** The decoder settings R900 needs: the packet holds the longest preamble and R900's payload. */
  ghost predicate Fits(cfg: Config) {
    Sound(cfg) && cfg.preambleSymbols + 2 * PAYLOAD_SYMBOLS <= cfg.packetSymbols
  }

  /** Index of the payload in the signal history, for a candidate at index i. */
  function PayloadStart(cfg: Config, i: nat): nat
    requires cfg.symbolLength <= cfg.preambleLength
  {
    i + cfg.preambleLength - cfg.symbolLength
  }

  /** All payload reads are in bounds, and only freshly decided entries are read. */
  lemma PayloadInBounds(cfg: Config, i: nat)
    requires Fits(cfg) && i <= cfg.blockSize
    ensures cfg.symbolLength <= cfg.preambleLength && cfg.symbolLength == 2 * cfg.chipLength
    ensures InBounds(cfg.bufferLength, PayloadStart(cfg, i), PAYLOAD_SYMBOLS, cfg.chipLength)
    ensures At(PayloadStart(cfg, i), PAYLOAD_SYMBOLS, cfg.chipLength) < cfg.bufferLength
  {
    PayloadFits(cfg);
    hide Sound, Fits, At;
    var start, cl := PayloadStart(cfg, i), cfg.chipLength;
    forall k | 0 <= k <= PAYLOAD_SYMBOLS
      ensures k < PAYLOAD_SYMBOLS ==> At(start, k, cl) + 4 * cl <= start + 168 * cl
      ensures k == PAYLOAD_SYMBOLS ==> At(start, k, cl) == start + 168 * cl
    {
      SymbolInPayload(start, k, cl);
    }
  }

  /** Preamble and payload together are no longer than a packet. */
  lemma PayloadFits(cfg: Config)
    requires Fits(cfg)
    ensures cfg.symbolLength == 2 * cfg.chipLength > 0 && cfg.symbolLength <= cfg.preambleLength
    ensures cfg.preambleLength + 168 * cfg.chipLength <= cfg.packetLength
    ensures cfg.bufferLength == cfg.packetLength + cfg.blockSize
  {
    ScaleMono(cfg.preambleSymbols + 84, cfg.packetSymbols, cfg.symbolLength);
    ScaleMono(1, cfg.preambleSymbols, cfg.symbolLength);
  }

  lemma SymbolInPayload(start: nat, k: nat, cl: nat)
    requires k <= PAYLOAD_SYMBOLS
    ensures k < PAYLOAD_SYMBOLS ==> At(start, k, cl) + 4 * cl <= start + 168 * cl
    ensures k == PAYLOAD_SYMBOLS ==> At(start, k, cl) == start + 168 * cl
  {
    if k < PAYLOAD_SYMBOLS {
      ScaleMono(k, 41, 4 * cl);
    }
  }

  /** The digits decided for n symbols from start on. */
  function ReadDigits(x: seq<int>, start: nat, n: nat, cl: nat): (r: seq<Digit>)
    requires InBounds(|x|, start, n, cl)
    ensures |r| == n && forall k :: 0 <= k < n ==> r[k] == DigitAt(x, At(start, k, cl), cl)
  {
    seq(n, k requires 0 <= k < n && At(start, k, cl) + 4 * cl <= |x| => DigitAt(x, At(start, k, cl), cl))
  }

  /** The 21 symbols a payload spells, unless a digit pair is out of range. */
  function ReadWord(x: seq<int>, start: nat, cl: nat): (r: Option<seq<Byte>>)
    requires InBounds(|x|, start, PAYLOAD_SYMBOLS, cl)
    ensures r.Some? ==> Symbols(r.value)
  {
    PairDigits(ReadDigits(x, start, PAYLOAD_SYMBOLS, cl))
  }

  // ----- energy accounting -----

  /** Energy in the chips decided on, over n symbols. */
  function OnEnergy(x: seq<int>, start: nat, n: nat, cl: nat): int
    requires InBounds(|x|, start, n, cl)
  {
    if n == 0 then 0 else
      OnEnergy(x, start, n - 1, cl)
      + ChipsAt(x, At(start, n - 1, cl), cl).OnSum(DigitAt(x, At(start, n - 1, cl), cl))
  }

  function OffEnergy(x: seq<int>, start: nat, n: nat, cl: nat): int
    requires InBounds(|x|, start, n, cl)
  {
    if n == 0 then 0 else
      OffEnergy(x, start, n - 1, cl)
      + ChipsAt(x, At(start, n - 1, cl), cl).OffSum(DigitAt(x, At(start, n - 1, cl), cl))
  }

  /** Sum over the symbols of the absolute correlation with the decided pattern, the largest of the three. */
  function BestEnergy(x: seq<int>, start: nat, n: nat, cl: nat): int
    requires InBounds(|x|, start, n, cl)
  {
    if n == 0 then 0 else
      BestEnergy(x, start, n - 1, cl)
      + Abs(ChipsAt(x, At(start, n - 1, cl), cl).Correlation(DigitAt(x, At(start, n - 1, cl), cl) % 3))
  }

  lemma ChipsTotal(x: seq<int>, i: nat, cl: nat)
    requires i + 4 * cl <= |x|
    ensures ChipsAt(x, i, cl).Total() == Sum(x[..i + 4 * cl]) - Sum(x[..i])
  {
    hide Sum;
    WindowSum(x, i, i + cl);
    WindowSum(x, i + cl, i + 2 * cl);
    WindowSum(x, i + 2 * cl, i + 3 * cl);
    WindowSum(x, i + 3 * cl, i + 4 * cl);
  }

  lemma AtNext(start: nat, k: nat, cl: nat)
    ensures At(start, k + 1, cl) == At(start, k, cl) + 4 * cl && At(start, 0, cl) == start
  {
  }

  /** Every payload sample is counted exactly once, as signal or as noise, and the signal energy exceeds
      the noise energy by the sum of the largest correlations, so it is never below it. */
  lemma {:induction false} EnergyConserved(x: seq<int>, start: nat, n: nat, cl: nat)
    requires InBounds(|x|, start, n, cl) && start <= |x|
    ensures start <= At(start, n, cl) <= |x|
    ensures OnEnergy(x, start, n, cl) + OffEnergy(x, start, n, cl) == Sum(x[start..At(start, n, cl)])
    ensures OnEnergy(x, start, n, cl) - OffEnergy(x, start, n, cl) == BestEnergy(x, start, n, cl) >= 0
  {
    hide Sum, ChipsAt, DigitOf, Chips.OnSum, Chips.Correlation, D.At;
    AtNext(start, 0, cl);
    if n == 0 {
      SumEmpty(x[start..start]);
    } else {
      EnergyConserved(x, start, n - 1, cl);
      AtNext(start, n - 1, cl);
      var i := At(start, n - 1, cl);
      ChipsTotal(x, i, cl);
      WindowSum(x, start, i);
      WindowSum(x, start, i + 4 * cl);
      SymbolEnergy(ChipsAt(x, i, cl));
    }
  }

  /** What the largest-correlation sum is made of: every symbol adds the largest of its three absolute
      correlations. */
  lemma BestEnergyStep(x: seq<int>, start: nat, n: nat, cl: nat)
    requires InBounds(|x|, start, n + 1, cl)
    ensures BestEnergy(x, start, 0, cl) == 0
    ensures var e := ChipsAt(x, At(start, n, cl), cl);
            var gain := BestEnergy(x, start, n + 1, cl) - BestEnergy(x, start, n, cl);
            && gain >= Abs(e.Correlation(0)) && gain >= Abs(e.Correlation(1)) && gain >= Abs(e.Correlation(2))
            && (gain == Abs(e.Correlation(0)) || gain == Abs(e.Correlation(1)) || gain == Abs(e.Correlation(2)))
  {
    hide ChipsAt, Chips.Correlation, DigitOf, At;
    SymbolEnergy(ChipsAt(x, At(start, n, cl), cl));
  }

  // ----- what one block yields -----

  /** A decoded message. RSSI and SNR are logarithms of the two energies; the energies stand for them. */
  datatype Reading = Reading(fields: Fields, sigSum: int, noiseSum: int, checksum: seq<Byte>)

  /** A candidate payload: the word it spells, if any, and the message that word would give. */
  datatype Candidate = Candidate(word: Option<seq<Byte>>, reading: Reading)

  function ReadingAt(x: seq<int>, start: nat, cl: nat, word: seq<Byte>): Reading
    requires InBounds(|x|, start, PAYLOAD_SYMBOLS, cl) && |word| == 21
  {
    Reading(ParseFields(SymbolBits(word)), OnEnergy(x, start, PAYLOAD_SYMBOLS, cl),
            OffEnergy(x, start, PAYLOAD_SYMBOLS, cl), word[16..])
  }

  const NO_READING := Reading(Fields(0, 0, 0, 0, 0, 0, 0, 0), 0, 0, [])

  function CandidateAt(x: seq<int>, cfg: Config, i: nat): (c: Candidate)
    requires Fits(cfg) && |x| == cfg.bufferLength && i <= cfg.blockSize
    ensures WellFormed(c)
  {
    PayloadInBounds(cfg, i);
    var start, cl := PayloadStart(cfg, i), cfg.chipLength;
    var word := ReadWord(x, start, cl);
    Candidate(word, if word.None? then NO_READING else ReadingAt(x, start, cl, word.value))
  }

  /** The message of a spelled word carries its fields and its parity symbols. */
  ghost predicate WellFormed(c: Candidate) {
    c.word.Some? ==>
      (Symbols(c.word.value) && c.reading.fields == ParseFields(SymbolBits(c.word.value))
       && c.reading.checksum == c.word.value[16..])
  }

  /** Payload bits seen so far in this block, and the candidates whose messages were sent. */
  datatype Scan = Scan(seen: set<seq<Bit>>, sent: seq<Candidate>)

  ghost function ScanStep(sc: Scan, c: Candidate): Scan
    requires WellFormed(c)
  {
    if c.word.None? || SymbolBits(c.word.value) in sc.seen then sc
    else Scan(sc.seen + {SymbolBits(c.word.value)}, if Accepted(c.word.value) then sc.sent + [c] else sc.sent)
  }

  ghost predicate AllWellFormed(cs: seq<Candidate>) {
    forall k :: 0 <= k < |cs| ==> WellFormed(cs[k])
  }

  ghost function ScanAll(cs: seq<Candidate>): Scan
    requires AllWellFormed(cs)
  {
    if cs == [] then Scan({}, []) else ScanStep(ScanAll(cs[..|cs| - 1]), cs[|cs| - 1])
  }

  ghost predicate Acceptable(c: Candidate) {
    c.word.Some? && |c.word.value| == 21 && Accepted(c.word.value)
  }

  /** The payload bits seen are those of the words spelled so far. */
  lemma {:induction false} SeenAreSpelled(cs: seq<Candidate>, b: seq<Bit>)
    requires AllWellFormed(cs)
    ensures b in ScanAll(cs).seen <==>
            exists k :: 0 <= k < |cs| && cs[k].word.Some? && SymbolBits(cs[k].word.value) == b
  {
    hide Symbols, Accepted, SymbolBits, ParseFields;
    if cs != [] {
      var n := |cs| - 1;
      SeenAreSpelled(cs[..n], b);
      assert cs == cs[..n] + [cs[n]];
      if k :| 0 <= k < |cs| && cs[k].word.Some? && SymbolBits(cs[k].word.value) == b {
        assert k < n ==> cs[..n][k] == cs[k];
      }
    }
  }

  /** Every message sent is that of an acceptable candidate. */
  lemma {:induction false} SentAreAccepted(cs: seq<Candidate>, c: Candidate)
    requires AllWellFormed(cs) && c in ScanAll(cs).sent
    ensures c in cs && Acceptable(c)
  {
    hide SymbolBits, ParseFields, Accepted;
    if cs != [] {
      var n := |cs| - 1;
      if c in ScanAll(cs[..n]).sent {
        SentAreAccepted(cs[..n], c);
      }
    }
  }

  /** Every accepted word is announced, by the first candidate that spells it. */
  lemma {:induction false} AcceptedAreSent(cs: seq<Candidate>, c: Candidate)
    requires AllWellFormed(cs) && c in cs && Acceptable(c)
    ensures exists o :: o in ScanAll(cs).sent && o.word == c.word
  {
    hide SymbolBits, ParseFields, Accepted;
    var n := |cs| - 1;
    var before := ScanAll(cs[..n]);
    if c in cs[..n] {
      AcceptedAreSent(cs[..n], c);
      var o :| o in before.sent && o.word == c.word;
      assert o in ScanAll(cs).sent;
    } else {
      assert c == cs[n];
      var b := SymbolBits(c.word.value);
      SeenAreSpelled(cs[..n], b);
      if b in before.seen {
        var k :| 0 <= k < n && cs[..n][k].word.Some? && SymbolBits(cs[..n][k].word.value) == b;
        assert WellFormed(cs[k]) && WellFormed(c);
        SymbolBitsInjective(cs[k].word.value, c.word.value);
        AcceptedAreSent(cs[..n], cs[..n][k]);
        var o :| o in before.sent && o.word == cs[..n][k].word;
        assert o in ScanAll(cs).sent;
      } else {
        assert c in ScanAll(cs).sent;
      }
    }
  }

  /** Candidate k is c, and no earlier candidate spells its word. */
  ghost predicate FirstSpells(cs: seq<Candidate>, k: nat, c: Candidate) {
    k < |cs| && cs[k] == c && c.word.Some? && forall l :: 0 <= l < k ==> cs[l].word != c.word
  }

  /** A message is that of the first candidate to spell its word. */
  lemma {:induction false} SentAreFirst(cs: seq<Candidate>, i: nat) returns (k: nat)
    requires AllWellFormed(cs) && i < |ScanAll(cs).sent|
    ensures FirstSpells(cs, k, ScanAll(cs).sent[i])
  {
    hide SymbolBits, ParseFields, Accepted;
    var n := |cs| - 1;
    var before, c := ScanAll(cs[..n]), cs[n];
    if i < |before.sent| {
      k := SentAreFirst(cs[..n], i);
      assert forall l :: 0 <= l < n ==> cs[..n][l] == cs[l];
    } else {
      k := n;
      NewIsFirst(cs);
    }
  }

  /** A candidate whose message is sent is the first to spell its word. */
  lemma NewIsFirst(cs: seq<Candidate>)
    requires AllWellFormed(cs) && cs != [] && |ScanAll(cs).sent| > |ScanAll(cs[..|cs| - 1]).sent|
    ensures FirstSpells(cs, |cs| - 1, cs[|cs| - 1]) && ScanAll(cs).sent == ScanAll(cs[..|cs| - 1]).sent + [cs[|cs| - 1]]
  {
    hide SymbolBits, ParseFields, Accepted;
    var n := |cs| - 1;
    SeenAreSpelled(cs[..n], SymbolBits(cs[n].word.value));
    forall l | 0 <= l < n
      ensures cs[l].word != cs[n].word
    {
      assert cs[..n][l] == cs[l];
    }
  }

  /** Messages come in the order of their candidates. */
  lemma {:induction false} SentInOrder(cs: seq<Candidate>, i: nat, j: nat) returns (k: nat, l: nat)
    requires AllWellFormed(cs) && i < j < |ScanAll(cs).sent|
    ensures k < l && FirstSpells(cs, k, ScanAll(cs).sent[i]) && FirstSpells(cs, l, ScanAll(cs).sent[j])
  {
    hide SymbolBits, ParseFields, Accepted;
    var n := |cs| - 1;
    var before := ScanAll(cs[..n]);
    assert forall t :: 0 <= t < n ==> cs[..n][t] == cs[t];
    if j < |before.sent| {
      k, l := SentInOrder(cs[..n], i, j);
    } else {
      k := SentAreFirst(cs[..n], i);
      l := n;
      NewIsFirst(cs);
    }
  }

  /** No word is announced twice in a block, so no two messages agree in fields and checksum. */
  lemma {:induction false} SentAreDistinct(cs: seq<Candidate>, i: nat, j: nat)
    requires AllWellFormed(cs) && i < j < |ScanAll(cs).sent|
    ensures var a, b := ScanAll(cs).sent[i].reading, ScanAll(cs).sent[j].reading;
            a.fields != b.fields || a.checksum != b.checksum
  {
    hide SymbolBits, ParseFields, Accepted;
    var n, sent := |cs| - 1, ScanAll(cs).sent;
    var before := ScanAll(cs[..n]);
    if j < |before.sent| {
      SentAreDistinct(cs[..n], i, j);
    } else {
      assert sent == before.sent + [cs[n]] && sent[i] in before.sent;
      SentAreAccepted(cs[..n], sent[i]);
      var k :| 0 <= k < n && cs[..n][k] == sent[i];
      assert WellFormed(cs[k]) && WellFormed(cs[n]);
      SeenAreSpelled(cs[..n], SymbolBits(cs[n].word.value));
      if sent[i].reading.fields == sent[j].reading.fields && sent[i].reading.checksum == sent[j].reading.checksum {
        WordFromFields(sent[i].word.value, sent[j].word.value);
        assert false;
      }
    }
  }

  // ----- candidates of a block -----

  /** Candidates up to the first one beyond the block. */
  function Considered(idxs: seq<nat>, blockSize: nat): (r: seq<nat>)
    ensures forall k :: 0 <= k < |r| ==> r[k] <= blockSize
  {
    if idxs == [] || idxs[0] > blockSize then [] else [idxs[0]] + Considered(idxs[1..], blockSize)
  }

  function CandidatesAt(x: seq<int>, cfg: Config, idxs: seq<nat>): (cs: seq<Candidate>)
    requires Fits(cfg) && |x| == cfg.bufferLength && forall k :: 0 <= k < |idxs| ==> idxs[k] <= cfg.blockSize
    ensures |cs| == |idxs| && AllWellFormed(cs)
    ensures forall k :: 0 <= k < |cs| ==> cs[k] == CandidateAt(x, cfg, idxs[k])
  {
    seq(|idxs|, k requires 0 <= k < |idxs| => CandidateAt(x, cfg, idxs[k]))
  }

  function Readings(cs: seq<Candidate>): (r: seq<Reading>)
    ensures |r| == |cs| && forall k :: 0 <= k < |r| ==> r[k] == cs[k].reading
  {
    seq(|cs|, k requires 0 <= k < |cs| => cs[k].reading)
  }

  /** The messages of one block: a function of the signal history and the candidates alone. In
      particular they do not depend on what earlier filter runs left in the buffers, so skipping the
      filter on blocks without candidates changes nothing. */
  ghost function Emitted(x: seq<int>, cfg: Config, idxs: seq<nat>): seq<Reading>
    requires Fits(cfg) && |x| == cfg.bufferLength
  {
    Readings(ScanAll(CandidatesAt(x, cfg, Considered(idxs, cfg.blockSize))).sent)
  }

  /** The energies of a message account for the samples of the payload that starts at start: together they are
      the payload's energy, and signal exceeds noise by the sum of the largest correlations. */
  ghost predicate Measured(m: Reading, x: seq<int>, start: nat, cl: nat)
    requires InBounds(|x|, start, PAYLOAD_SYMBOLS, cl) && start <= At(start, PAYLOAD_SYMBOLS, cl) <= |x|
  {
    && m.sigSum + m.noiseSum == Sum(x[start..At(start, PAYLOAD_SYMBOLS, cl)])
    && m.sigSum - m.noiseSum == BestEnergy(x, start, PAYLOAD_SYMBOLS, cl)
  }

  /** The first considered candidate that spells the word. */
  ghost predicate FirstReader(x: seq<int>, cfg: Config, considered: seq<nat>, k: nat, word: seq<Byte>)
    requires Fits(cfg) && |x| == cfg.bufferLength && forall l :: 0 <= l < |considered| ==> considered[l] <= cfg.blockSize
  {
    && k < |considered| && CandidateAt(x, cfg, considered[k]).word == Some(word)
    && forall l :: 0 <= l < k ==> CandidateAt(x, cfg, considered[l]).word != Some(word)
  }

  /** m's energies were measured on the payload of candidate index i. */
  ghost predicate MeasuredAt(m: Reading, x: seq<int>, cfg: Config, i: nat)
    requires Fits(cfg) && |x| == cfg.bufferLength && i <= cfg.blockSize
  {
    PayloadInBounds(cfg, i);
    Measured(m, x, PayloadStart(cfg, i), cfg.chipLength)
  }

  /** A candidate's message measures its own payload. */
  lemma CandidateMeasured(x: seq<int>, cfg: Config, i: nat)
    requires Fits(cfg) && |x| == cfg.bufferLength && i <= cfg.blockSize && CandidateAt(x, cfg, i).word.Some?
    ensures MeasuredAt(CandidateAt(x, cfg, i).reading, x, cfg, i)
  {
    hide OnEnergy, OffEnergy, BestEnergy, Sum, ReadWord, Fits, ParseFields, SymbolBits;
    PayloadInBounds(cfg, i);
    EnergyConserved(x, PayloadStart(cfg, i), PAYLOAD_SYMBOLS, cfg.chipLength);
  }

  /** Every message of a block measures the payload of the first candidate that spells its word. */
  lemma EmittedMeasured(x: seq<int>, cfg: Config, idxs: seq<nat>, j: nat) returns (k: nat, word: seq<Byte>)
    requires Fits(cfg) && |x| == cfg.bufferLength && j < |Emitted(x, cfg, idxs)|
    ensures var considered, m := Considered(idxs, cfg.blockSize), Emitted(x, cfg, idxs)[j];
            && FirstReader(x, cfg, considered, k, word) && MeasuredAt(m, x, cfg, considered[k])
            && m.fields == ParseFields(SymbolBits(word)) && |word| == 21 && m.checksum == word[16..]
  {
    hide CandidateAt, MeasuredAt, Fits, ScanAll, SymbolBits, ParseFields, Symbols, Considered;
    var considered := Considered(idxs, cfg.blockSize);
    var cs := CandidatesAt(x, cfg, considered);
    k := SentAreFirst(cs, j);
    word := cs[k].word.value;
    assert WellFormed(cs[k]);
    SpelledLength(cs[k]);
    CandidateMeasured(x, cfg, considered[k]);
  }

  lemma SpelledLength(c: Candidate)
    requires WellFormed(c) && c.word.Some?
    ensures |c.word.value| == 21
  {
  }

  // ----- reading a payload -----

  /** The filter output and the cumulative sums belong to this signal. */
  ghost predicate Filtered(x: seq<int>, csum: seq<int>, quantized: seq<Byte>, cl: nat) {
    && |csum| == |x| + 1 && |quantized| == |x|
    && (forall k :: 0 <= k <= |x| ==> csum[k] == Sum(x[..k]))
    && (forall i :: 0 <= i && i + 4 * cl < |x| ==> quantized[i] == DigitAt(x, i, cl))
  }

  /** Samples the digits of a payload. */
  method LoadDigits(x: seq<int>, csum: seq<int>, quantized: array<Byte>, start: nat, cl: nat) returns (digits: seq<Digit>)
    requires Filtered(x, csum, quantized[..], cl) && InBounds(|x|, start, PAYLOAD_SYMBOLS, cl)
    ensures digits == ReadDigits(x, start, PAYLOAD_SYMBOLS, cl)
  {
    hide DigitAt, Sum, D.At;
    digits := [];
    var idx := 0;
    while idx < PAYLOAD_SYMBOLS
      invariant 0 <= idx <= PAYLOAD_SYMBOLS
      invariant digits == ReadDigits(x, start, PAYLOAD_SYMBOLS, cl)[..idx]
    {
      var i := At(start, idx, cl);
      assert quantized[..][i] == DigitAt(x, i, cl);
      digits := digits + [quantized[i]];
      idx := idx + 1;
    }
  }

  /** Each digit pair forms a 5-bit symbol; the symbols are also written out as bits. */
  method LoadSymbols(digits: seq<Digit>) returns (bad: bool, symbols: seq<Byte>, bits: seq<Bit>)
    requires |digits| == PAYLOAD_SYMBOLS
    ensures bad <==> PairDigits(digits).None?
    ensures !bad ==> symbols == PairDigits(digits).value && bits == SymbolBits(symbols)
  {
    hide SymbolBits, ToBits;
    symbols, bits := [], [];
    SymbolBitsEmpty();
    var k := 0;
    while k < 21
      invariant 0 <= k <= 21 && |symbols| == k
      invariant forall j :: 0 <= j < k ==> symbols[j] == PairValue(digits, j) <= 31
      invariant bits == SymbolBits(symbols)
    {
      var symbol := PairByte(digits, k);
      if symbol > 31 {
        return true, symbols, bits;
      }
      SymbolBitsSnoc(symbols, symbol);
      symbols := symbols + [symbol];
      bits := bits + ToBits(symbol, 5);
      k := k + 1;
    }
    assert PairDigits(digits).Some?;
    assert symbols == PairDigits(digits).value;
    return false, symbols, bits;
  }

  lemma SymbolBitsEmpty()
    ensures SymbolBits([]) == []
  {
  }

  lemma SymbolBitsSnoc(s: seq<Byte>, v: Byte)
    ensures SymbolBits(s + [v]) == SymbolBits(s) + ToBits(v, 5)
  {
    assert (s + [v])[..|s|] == s;
  }

  /** Copies data and parity symbols to both ends of the 31-symbol buffer, whose middle stays zero. */
  method LoadWord(rsBuf: array<Byte>, symbols: seq<Byte>)
    requires rsBuf.Length == 31 && |symbols| == 21
    requires forall i :: 16 <= i < 26 ==> rsBuf[i] == 0
    modifies rsBuf
    ensures rsBuf[..] == Word31(symbols)
    ensures forall i :: 16 <= i < 26 ==> rsBuf[i] == 0
  {
    forall i | 0 <= i < 16 {
      rsBuf[i] := symbols[i];
    }
    forall i | 26 <= i < 31 {
      rsBuf[i] := symbols[i - 10];
    }
  }

  /** The five syndromes of a 31-symbol word. */
  method FiveSyndromes(field: Field, word: seq<Byte>) returns (r: seq<Byte>)
    requires R900Tables(field) && |word| == 31 && forall i :: 0 <= i < 31 ==> word[i] < 32
    ensures |r| == 5 && forall j :: 0 <= j < 5 ==> r[j] == RootValue(word, ALPHA, OFFSET, j, MODULUS)
  {
    hide RootValue, Tables;
    var syndromes := Syndrome(field, word, 5, 29, ALPHA, MODULUS);
    assert syndromes.Ok?;
    return syndromes.value;
  }

  /** The Reed-Solomon check of a received word. */
  method Check(field: Field, rsBuf: array<Byte>, symbols: seq<Byte>) returns (ok: bool)
    requires R900Tables(field) && rsBuf.Length == 31 && Symbols(symbols)
    requires forall i :: 16 <= i < 26 ==> rsBuf[i] == 0
    modifies rsBuf
    ensures ok <==> Accepted(symbols)
    ensures forall i :: 16 <= i < 26 ==> rsBuf[i] == 0
  {
    LoadWord(rsBuf, symbols);
    WordRange(symbols);
    hide RootValue, R900Tables, Accepted, Word31;
    var syndromes := FiveSyndromes(field, rsBuf[..]);
    ok := syndromes == [0, 0, 0, 0, 0];
    ZeroSyndromes(symbols, syndromes);
  }

  lemma WordRange(symbols: seq<Byte>)
    requires Symbols(symbols)
    ensures forall i :: 0 <= i < 31 ==> Word31(symbols)[i] < 32
  {
  }

  lemma ZeroSyndromes(symbols: seq<Byte>, syndromes: seq<Byte>)
    requires |symbols| == 21 && |syndromes| == 5
    requires forall j :: 0 <= j < 5 ==> syndromes[j] == RootValue(Word31(symbols), ALPHA, OFFSET, j, MODULUS)
    ensures syndromes == [0, 0, 0, 0, 0] <==> Accepted(symbols)
  {
    hide RootValue;
    if Accepted(symbols) {
      assert forall j :: 0 <= j < 5 ==> syndromes[j] == 0;
    }
    if syndromes == [0, 0, 0, 0, 0] {
      assert forall j :: 0 <= j < 5 ==> syndromes[j] == 0;
    }
  }

  /** Sums the chip energies of a payload, chips decided on and chips decided off. */
  method Measure(x: seq<int>, csum: array<int>, quantized: seq<Byte>, digits: seq<Digit>, start: nat, cl: nat)
    returns (sigSum: int, noiseSum: int)
    requires Filtered(x, csum[..], quantized, cl) && InBounds(|x|, start, PAYLOAD_SYMBOLS, cl)
    requires digits == ReadDigits(x, start, PAYLOAD_SYMBOLS, cl)
    ensures sigSum == OnEnergy(x, start, PAYLOAD_SYMBOLS, cl)
    ensures noiseSum == OffEnergy(x, start, PAYLOAD_SYMBOLS, cl)
  {
    hide Sum, DigitOf, ChipsAt, D.At, Chips.OnSum, Chips.OffSum;
    sigSum, noiseSum := 0, 0;
    var k := 0;
    while k < PAYLOAD_SYMBOLS
      invariant 0 <= k <= PAYLOAD_SYMBOLS
      invariant sigSum == OnEnergy(x, start, k, cl) && noiseSum == OffEnergy(x, start, k, cl)
    {
      var on, off := MeasureSymbol(x, csum, quantized, digits[k], At(start, k, cl), cl);
      sigSum, noiseSum := sigSum + on, noiseSum + off;
      k := k + 1;
    }
  }

  /** Inner loop of the energy estimate: the four chips of one symbol. */
  method MeasureSymbol(x: seq<int>, csum: array<int>, quantized: seq<Byte>, d: Digit, symStart: nat, cl: nat)
    returns (on: int, off: int)
    requires Filtered(x, csum[..], quantized, cl) && symStart + 4 * cl <= |x|
    ensures on == ChipsAt(x, symStart, cl).OnSum(d) && off == ChipsAt(x, symStart, cl).OffSum(d)
  {
    hide Sum;
    ghost var e := ChipsAt(x, symStart, cl);
    WindowSum(x, symStart, symStart + cl);
    WindowSum(x, symStart + cl, symStart + 2 * cl);
    WindowSum(x, symStart + 2 * cl, symStart + 3 * cl);
    WindowSum(x, symStart + 3 * cl, symStart + 4 * cl);
    assert forall k :: 0 <= k <= |x| ==> csum[..][k] == csum[k];
    on, off := 0, 0;
    var c := 0;
    while c < 4
      invariant 0 <= c <= 4
      invariant on == (if c > 0 && On(d, 0) then e.e0 else 0) + (if c > 1 && On(d, 1) then e.e1 else 0)
                    + (if c > 2 && On(d, 2) then e.e2 else 0) + (if c > 3 && On(d, 3) then e.e3 else 0)
      invariant on + off == (if c > 0 then e.e0 else 0) + (if c > 1 then e.e1 else 0)
                          + (if c > 2 then e.e2 else 0) + (if c > 3 then e.e3 else 0)
    {
      ChipOffset(c, cl);
      var chip := csum[symStart + (c + 1) * cl] - csum[symStart + c * cl];
      if BasePattern(d % 3, c) == (d >= 3) {
        on := on + chip;
      } else {
        off := off + chip;
      }
      c := c + 1;
    }
  }

  lemma ChipOffset(c: nat, cl: nat)
    requires c < 4
    ensures c * cl == (if c == 0 then 0 else if c == 1 then cl else if c == 2 then 2 * cl else 3 * cl)
    ensures (c + 1) * cl == c * cl + cl
  {
  }

  // ----- scanning the candidates -----

  /** If the first n candidates lie in the block and the next does not, exactly they are considered. */
  lemma {:induction false} ConsideredIs(idxs: seq<nat>, n: nat, blockSize: nat)
    requires n <= |idxs| && forall k :: 0 <= k < n ==> idxs[k] <= blockSize
    requires n == |idxs| || idxs[n] > blockSize
    ensures Considered(idxs, blockSize) == idxs[..n]
  {
    if n > 0 {
      ConsideredIs(idxs[1..], n - 1, blockSize);
      assert idxs[..n] == [idxs[0]] + idxs[1..][..n - 1];
    }
  }

  /** Reads one candidate: its word, if its digits spell one, and the bits of that word. */
  method ReadCandidate(x: seq<int>, csum: array<int>, quantized: array<Byte>, cfg: Config, i: nat)
    returns (digits: seq<Digit>, bad: bool, symbols: seq<Byte>, bits: seq<Bit>)
    requires Fits(cfg) && |x| == cfg.bufferLength && i <= cfg.blockSize
    requires Filtered(x, csum[..], quantized[..], cfg.chipLength)
    ensures cfg.symbolLength <= cfg.preambleLength
    ensures InBounds(|x|, PayloadStart(cfg, i), PAYLOAD_SYMBOLS, cfg.chipLength)
    ensures digits == ReadDigits(x, PayloadStart(cfg, i), PAYLOAD_SYMBOLS, cfg.chipLength)
    ensures bad <==> CandidateAt(x, cfg, i).word.None?
    ensures !bad ==> CandidateAt(x, cfg, i).word == Some(symbols) && Symbols(symbols) && bits == SymbolBits(symbols)
  {
    PayloadInBounds(cfg, i);
    hide Filtered, Fits, InBounds, PairDigits, SymbolBits, ReadDigits;
    digits := LoadDigits(x, csum[..], quantized, PayloadStart(cfg, i), cfg.chipLength);
    bad, symbols, bits := LoadSymbols(digits);
  }

  /** The message of a candidate that passed the check. */
  method MakeReading(x: seq<int>, csum: array<int>, quantized: array<Byte>, cfg: Config, i: nat,
                     digits: seq<Digit>, symbols: seq<Byte>, bits: seq<Bit>) returns (r: Reading)
    requires Fits(cfg) && |x| == cfg.bufferLength && i <= cfg.blockSize
    requires Filtered(x, csum[..], quantized[..], cfg.chipLength)
    requires cfg.symbolLength <= cfg.preambleLength
    requires InBounds(|x|, PayloadStart(cfg, i), PAYLOAD_SYMBOLS, cfg.chipLength)
    requires digits == ReadDigits(x, PayloadStart(cfg, i), PAYLOAD_SYMBOLS, cfg.chipLength)
    requires CandidateAt(x, cfg, i).word == Some(symbols) && Symbols(symbols) && bits == SymbolBits(symbols)
    ensures r == CandidateAt(x, cfg, i).reading
  {
    hide Filtered, Fits, InBounds, SymbolBits, ReadDigits, OnEnergy, OffEnergy, BitValue;
    var sig, noise := Measure(x, csum, quantized[..], digits, PayloadStart(cfg, i), cfg.chipLength);
    var fields := Fields(BitValue(bits[..32]), BitValue(bits[32..40]), BitValue(bits[40..46]), BitValue(bits[46..48]),
                         BitValue(bits[48..72]), BitValue(bits[72..74]), BitValue(bits[74..78]), BitValue(bits[78..80]));
    return Reading(fields, sig, noise, symbols[16..]);
  }

  lemma ScanSnoc(x: seq<int>, cfg: Config, idxs: seq<nat>, n: nat)
    requires Fits(cfg) && |x| == cfg.bufferLength && n < |idxs| && forall k :: 0 <= k <= n ==> idxs[k] <= cfg.blockSize
    ensures ScanAll(CandidatesAt(x, cfg, idxs[..n + 1]))
         == ScanStep(ScanAll(CandidatesAt(x, cfg, idxs[..n])), CandidateAt(x, cfg, idxs[n]))
  {
    hide CandidateAt, ScanStep, Fits;
    var cs := CandidatesAt(x, cfg, idxs[..n + 1]);
    assert cs[..n] == CandidatesAt(x, cfg, idxs[..n]);
  }

  /** The loop of Parse over the candidate packets. */
  method ScanPackets(field: Field, rsBuf: array<Byte>, csum: array<int>, quantized: array<Byte>, cfg: Config,
                     idxs: seq<nat>, x: seq<int>) returns (msgs: seq<Reading>)
    requires R900Tables(field) && rsBuf.Length == 31 && (forall i :: 16 <= i < 26 ==> rsBuf[i] == 0)
    requires Fits(cfg) && |x| == cfg.bufferLength && Filtered(x, csum[..], quantized[..], cfg.chipLength)
    requires rsBuf as object != csum && rsBuf != quantized
    modifies rsBuf
    ensures msgs == Emitted(x, cfg, idxs)
    ensures forall i :: 16 <= i < 26 ==> rsBuf[i] == 0
  {
    hide R900Tables, Fits, Filtered, InBounds, SymbolBits, ReadDigits, Accepted, Symbols, CandidateAt, WellFormed;
    msgs := [];
    var seen: set<seq<Bit>> := {};
    var n := 0;
    ghost var sc := Scan({}, []);
    assert CandidatesAt(x, cfg, idxs[..0]) == [];
    while n < |idxs| && idxs[n] <= cfg.blockSize
      invariant 0 <= n <= |idxs| && forall k :: 0 <= k < n ==> idxs[k] <= cfg.blockSize
      invariant forall i :: 16 <= i < 26 ==> rsBuf[i] == 0
      invariant sc == ScanAll(CandidatesAt(x, cfg, idxs[..n]))
      invariant seen == sc.seen && msgs == Readings(sc.sent)
    {
      ScanSnoc(x, cfg, idxs, n);
      ghost var c := CandidateAt(x, cfg, idxs[n]);
      var digits, bad, symbols, bits := ReadCandidate(x, csum, quantized, cfg, idxs[n]);
      if !bad && bits !in seen {
        seen := seen + {bits};
        var ok := Check(field, rsBuf, symbols);
        if ok {
          var reading := MakeReading(x, csum, quantized, cfg, idxs[n], digits, symbols, bits);
          assert Readings(sc.sent + [c]) == Readings(sc.sent) + [reading];
          msgs := msgs + [reading];
        }
      }
      sc := ScanStep(sc, c);
      n := n + 1;
    }
    ConsideredIs(idxs, n, cfg.blockSize);
  }

  // ----- the parser object -----

  /** copy(dst[from:], src[skip:]) where both tails have the same length. */
  method CopyTail(dst: array<int>, from: nat, src: array<int>, skip: nat)
    requires dst != src && from <= dst.Length && skip <= src.Length && dst.Length - from == src.Length - skip
    modifies dst
    ensures dst[..from] == old(dst[..from]) && dst[from..] == src[skip..]
  {
    var k := 0;
    while k < dst.Length - from
      invariant 0 <= k <= dst.Length - from
      invariant dst[..from] == old(dst[..from])
      invariant forall j :: from <= j < from + k ==> dst[j] == src[skip + (j - from)]
    {
      dst[from + k] := src[skip + k];
      k := k + 1;
    }
  }

  /** The newest block at the end of the decoder's sample buffer. */
  lemma NewestBlock(s: seq<int>, block: seq<int>, keep: nat)
    ensures History(s + block, |block| + keep)[keep..] == block
  {
    HistoryStep(s, |block| + keep, block);
  }

  /** Keeps the signal history in step with the decoder: shift one block, append the newest samples. */
  method Advance(signal: array<int>, decoderSignal: array<int>, cfg: Config, ghost s: seq<int>, ghost block: seq<int>)
    requires signal != decoderSignal && signal.Length == cfg.bufferLength == cfg.packetLength + cfg.blockSize
    requires decoderSignal.Length == cfg.blockSize + cfg.symbolLength && |block| == cfg.blockSize
    requires decoderSignal[..] == History(s + block, cfg.blockSize + cfg.symbolLength)
    requires signal[..] == History(s, cfg.bufferLength)
    modifies signal
    ensures signal[..] == History(s + block, cfg.bufferLength)
  {
    hide History;
    ghost var before := signal[..];
    ghost var incoming := decoderSignal[..];
    ShiftDown(signal, cfg.blockSize);
    assert signal[..cfg.packetLength] == before[cfg.blockSize..];
    CopyTail(signal, cfg.packetLength, decoderSignal, cfg.symbolLength);
    NewestBlock(s, block, cfg.symbolLength);
    assert signal[cfg.packetLength..] == incoming[cfg.symbolLength..];
    D.BlockShift(before, signal[..], cfg.packetLength, block);
    HistoryStep(s, cfg.bufferLength, block);
  }

  /** Building the R900 field never panics. */
  method NewR900Field() returns (f: Field)
    ensures R900Tables(f)
  {
    R900FieldExists();
    assert Pow2(5) == 32;
    hide Irreducible, Primitive, Tables;
    var r := NewField(32, 37, 2, 5);
    return r.value;
  }

  /** x is the end of the sample stream s. */
  ghost predicate HoldsHistory(x: seq<int>, s: seq<int>) {
    x == History(s, |x|)
  }

  /** The decoder's buffer of the newest block and one symbol before it. */
  ghost predicate SampleBuffer(a: array<int>, cfg: Config, s: seq<int>)
    reads a
  {
    a.Length == cfg.blockSize + cfg.symbolLength && HoldsHistory(a[..], s)
  }

  /** The positions of the check buffer that are never sent stay zero. */
  ghost predicate MiddleZero(b: seq<Byte>) {
    |b| == 31 && forall i :: 16 <= i < 26 ==> b[i] == 0
  }

  /** What a block with these candidates yields when s is the stream up to and including it. */
  ghost predicate MessagesOf(msgs: seq<Reading>, s: seq<int>, cfg: Config, idxs: seq<nat>) {
    Fits(cfg) && msgs == Emitted(History(s, cfg.bufferLength), cfg, idxs)
  }

  class Parser {
    var once: bool
    var cfg: Config
    var field: Field
    var rsBuf: array<Byte>
    var signal: array<int>
    var csum: array<int>
    var quantized: array<Byte>
    ghost var Repr: set<object>

    ghost predicate Layout()
      reads this
    {
      && this in Repr && rsBuf in Repr && signal in Repr && csum in Repr && quantized in Repr
      && R900Tables(field) && rsBuf.Length == 31
      && signal != csum && rsBuf as object != signal && rsBuf as object != csum && rsBuf != quantized
      && quantized as object != signal && quantized as object != csum
      && (once ==> Fits(cfg) && signal.Length == cfg.bufferLength
                   && csum.Length == signal.Length + 1 && quantized.Length == signal.Length)
    }

    /** The history holds the end of this sample stream. */
    ghost predicate Tracks(s: seq<int>)
      reads this, rsBuf, signal, csum
    {
      && Layout() && MiddleZero(rsBuf[..])
      && (once ==> csum[0] == 0 && HoldsHistory(signal[..], s))
      && (!once ==> s == [])
    }

    /** A new parser owns the field of order 32 with modulus 37 and generator 2. */
    constructor ()
      ensures Tracks([]) && !once && fresh(Repr)
    {
      var f := NewR900Field();
      hide R900Tables;
      once, cfg, field := false, INITIAL, f;
      rsBuf := new Byte[31](_ => 0);
      signal, csum, quantized := new int[0], new int[0], new Byte[0];
      Repr := {this, rsBuf, signal, csum, quantized};
    }

    lemma TracksOwner(s: seq<int>)
      requires Tracks(s)
      ensures this in Repr && rsBuf in Repr && signal in Repr && csum in Repr
    {
      hide R900Tables, Fits, HoldsHistory, MiddleZero;
    }

    /** The first call of Parse allocates the buffers. */
    method AllocateOnce(dcfg: Config, ghost s: seq<int>)
      requires Tracks(s) && Fits(dcfg) && (once ==> cfg == dcfg)
      modifies this
      ensures Tracks(s) && once && cfg == dcfg && fresh(Repr - old(Repr))
      ensures rsBuf in Repr && signal in Repr && csum in Repr && quantized in Repr
    {
      hide R900Tables, Fits, History;
      if !once {
        once, cfg := true, dcfg;
        signal := new int[cfg.bufferLength](_ => 0);
        csum := new int[cfg.bufferLength + 1](_ => 0);
        quantized := new Byte[cfg.bufferLength](_ => 0);
        Repr := Repr + {signal as object, csum, quantized};
        SilentHistory(signal[..]);
      }
    }

    /** Takes in the newest block and decodes the candidates. The first call allocates the buffers; without
        candidates the filter is skipped. The messages depend only on the signal history and the candidates. */
    method Parse(pkts: seq<D.Data>, dcfg: Config, decoderSignal: array<int>, ghost s: seq<int>, ghost block: seq<int>)
      returns (msgs: seq<Reading>)
      requires Tracks(s) && Fits(dcfg) && (once ==> cfg == dcfg) && |block| == dcfg.blockSize
      requires decoderSignal !in Repr && SampleBuffer(decoderSignal, dcfg, s + block)
      modifies Repr
      ensures Tracks(s + block) && once && cfg == dcfg && fresh(Repr - old(Repr))
      ensures MessagesOf(msgs, s + block, cfg, D.Indices(pkts))
    {
      hide *;
      TracksOwner(s);
      AllocateOnce(dcfg, s);
      assert forall o :: o in Repr ==> o in old(Repr) || fresh(o);
      msgs := ParseAllocated(decoderSignal, D.Indices(pkts), s, block);
    }

    /** Parse once the buffers are allocated. */
    method ParseAllocated(decoderSignal: array<int>, idxs: seq<nat>, ghost s: seq<int>, ghost block: seq<int>)
      returns (msgs: seq<Reading>)
      requires Tracks(s) && once && Fits(cfg) && |block| == cfg.blockSize
      requires decoderSignal !in Repr && SampleBuffer(decoderSignal, cfg, s + block)
      modifies rsBuf, signal, csum, quantized
      ensures Tracks(s + block) && MessagesOf(msgs, s + block, cfg, idxs)
    {
      hide R900Tables, Fits, Emitted, HoldsHistory, MiddleZero, MessagesOf;
      assert BuffersFit(signal, csum, quantized, rsBuf, cfg) && R900Tables(field);
      hide BuffersFit, Layout;
      msgs := ParseBuffers(field, rsBuf, signal, csum, quantized, cfg, decoderSignal, idxs, s, block);
      EmittedFrom(signal[..], s + block, cfg, idxs);
    }
  }

  lemma EmittedFrom(x: seq<int>, s: seq<int>, cfg: Config, idxs: seq<nat>)
    requires HoldsHistory(x, s) && |x| == cfg.bufferLength && Fits(cfg)
    ensures MessagesOf(Emitted(x, cfg, idxs), s, cfg, idxs)
  {
  }

  /** The decoder's sample buffer is what Parse expects of it. */
  lemma DecoderSampleBuffer(d: D.Decoder, s: seq<int>)
    requires d.Tracks(s)
    ensures SampleBuffer(d.signal, d.cfg, s)
  {
  }

  /** Sizes and separation of a parser's buffers. */
  ghost predicate BuffersFit(signal: array<int>, csum: array<int>, quantized: array<Byte>, rsBuf: array<Byte>, cfg: Config) {
    && signal.Length == cfg.bufferLength && csum.Length == signal.Length + 1 && quantized.Length == signal.Length
    && signal != csum && rsBuf as object != signal && rsBuf as object != csum && rsBuf != quantized
    && quantized as object != signal && quantized as object != csum && rsBuf.Length == 31
  }

  lemma FitLengths(cfg: Config)
    requires Fits(cfg)
    ensures cfg.bufferLength == cfg.packetLength + cfg.blockSize
  {
  }

  /** Parse on given buffers: advance the history, then decode. */
  method ParseBuffers(field: Field, rsBuf: array<Byte>, signal: array<int>, csum: array<int>, quantized: array<Byte>,
                      cfg: Config, decoderSignal: array<int>, idxs: seq<nat>, ghost s: seq<int>, ghost block: seq<int>)
    returns (msgs: seq<Reading>)
    requires R900Tables(field) && MiddleZero(rsBuf[..]) && Fits(cfg)
    requires BuffersFit(signal, csum, quantized, rsBuf, cfg) && csum[0] == 0
    requires signal != decoderSignal && SampleBuffer(decoderSignal, cfg, s + block)
    requires |block| == cfg.blockSize && HoldsHistory(signal[..], s)
    modifies rsBuf, signal, csum, quantized
    ensures MiddleZero(rsBuf[..]) && csum[0] == 0 && HoldsHistory(signal[..], s + block)
    ensures msgs == Emitted(signal[..], cfg, idxs)
  {
    hide R900Tables, Fits, Emitted, History, Sound;
    FitLengths(cfg);
    Advance(signal, decoderSignal, cfg, s, block);
    msgs := Extract(field, rsBuf, signal, csum, quantized, cfg, idxs);
  }

  /** The second part of Parse, on this parser's buffers. */
  method Extract(field: Field, rsBuf: array<Byte>, signal: array<int>, csum: array<int>, quantized: array<Byte>,
                 cfg: Config, idxs: seq<nat>) returns (msgs: seq<Reading>)
    requires R900Tables(field) && rsBuf.Length == 31 && (forall i :: 16 <= i < 26 ==> rsBuf[i] == 0)
    requires Fits(cfg) && signal.Length == cfg.bufferLength
    requires csum.Length == signal.Length + 1 && csum[0] == 0 && quantized.Length == signal.Length
    requires signal != csum && rsBuf as object != signal && rsBuf as object != csum && rsBuf != quantized
    requires quantized as object != signal && quantized as object != csum
    modifies rsBuf, csum, quantized
    ensures msgs == Emitted(signal[..], cfg, idxs)
    ensures (forall i :: 16 <= i < 26 ==> rsBuf[i] == 0) && csum[0] == 0
  {
    hide R900Tables, Fits, Emitted, Sum, DigitAt;
    if |idxs| == 0 {
      NothingEmitted(signal[..], cfg);
      return [];
    }
    SumEmpty(signal[..0]);
    R900Filter.Filter(signal, csum, quantized, cfg.chipLength);
    ghost var x := signal[..];
    assert forall k :: 0 <= k <= signal.Length ==> signal[..k] == x[..k];
    msgs := ScanPackets(field, rsBuf, csum, quantized, cfg, idxs, signal[..]);
  }

  lemma SilentHistory(x: seq<int>)
    requires forall i :: 0 <= i < |x| ==> x[i] == 0
    ensures x == History([], |x|)
  {
    assert Quiet(|x|) + [] == Quiet(|x|);
  }

  lemma NothingEmitted(x: seq<int>, cfg: Config)
    requires Fits(cfg) && |x| == cfg.bufferLength
    ensures Emitted(x, cfg, []) == []
  {
    assert CandidatesAt(x, cfg, Considered([], cfg.blockSize)) == [];
  }
}
