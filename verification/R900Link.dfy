/** The R900 link end to end: from message fields over the air waveform back to the message. */
module R900Link {
  import opened Wrappers
  import opened Gf2Poly
  import opened Bits
  import opened Stream
  import opened Geometry
  import opened GaloisField
  import opened R900Code
  import opened R900Encoder
  import opened R900Filter
  import opened R900Message
  import opened R900Parser
  import D = Decoder

  // ----- alignment of the two histories -----

  /** Index i of the decision buffer and index i - symbolLength of the signal history speak of the same
      stream samples: the decision is the one the filter makes at that point of the history. */
  lemma Alignment(s: seq<int>, cfg: Config, i: nat)
    requires Sound(cfg) && cfg.symbolLength <= i < cfg.bufferLength <= |s| + i
    ensures DecisionBuffer(s, cfg.chipLength, cfg.bufferLength)[i]
         == Decide(History(s, cfg.bufferLength), i - cfg.symbolLength, cfg.chipLength)
  {
    hide Sound, Decide, History, DecisionBuffer, Quiet;
    D.Lengths(cfg);
    var n, sl, t := cfg.bufferLength, cfg.symbolLength, |s| - cfg.bufferLength + i;
    D.BufferEntry(s, cfg.chipLength, n, i);
    SameWindow(s, n, sl, i);
    DecideLocal(Quiet(sl) + s, t, History(s, n), i - sl, cfg.chipLength);
  }

  lemma SameWindow(s: seq<int>, n: nat, sl: nat, i: nat)
    requires sl <= i < n <= |s| + i
    ensures (Quiet(sl) + s)[|s| - n + i..|s| - n + i + sl] == History(s, n)[i - sl..i]
  {
    var x, h, t := Quiet(sl) + s, History(s, n), |s| - n + i;
    var u, v := x[t..t + sl], h[i - sl..i];
    forall j | 0 <= j < sl
      ensures u[j] == v[j]
    {
      assert h[i - sl + j] == (Quiet(n) + s)[|s| + i - sl + j];
    }
  }

  // ----- the round trip -----

  /** In every payload symbol each on-chip outweighs each off-chip. */
  ghost predicate PayloadDominates(x: seq<int>, start: nat, cl: nat, digits: seq<Digit>) {
    forall k :: 0 <= k < |digits| ==>
      At(start, k, cl) + 4 * cl <= |x| && ChipsAt(x, At(start, k, cl), cl).Dominates(digits[k])
  }

  /** The word sent for the fields f with this parity. */
  function WordFor(f: Fields, parity: seq<Byte>): seq<Byte> {
    GroupBits(FieldBits(f), 16) + parity
  }

  /** A dominated payload is read back as the word that was sent. */
  lemma ReadBack(x: seq<int>, cfg: Config, i: nat, word: seq<Byte>)
    requires Fits(cfg) && |x| == cfg.bufferLength && i <= cfg.blockSize && Symbols(word)
    requires cfg.symbolLength <= cfg.preambleLength
    requires PayloadDominates(x, PayloadStart(cfg, i), cfg.chipLength, DigitsOf(word))
    ensures CandidateAt(x, cfg, i).word == Some(word)
  {
    PayloadInBounds(cfg, i);
    hide Chips.Dominates, DigitOf, Fits, DigitsOf, PairDigits, ChipsAt, D.At;
    var start, cl, digits := PayloadStart(cfg, i), cfg.chipLength, DigitsOf(word);
    forall k | 0 <= k < PAYLOAD_SYMBOLS
      ensures DigitAt(x, At(start, k, cl), cl) == digits[k]
    {
      DominantDigit(ChipsAt(x, At(start, k, cl), cl), digits[k]);
    }
    assert ReadDigits(x, start, PAYLOAD_SYMBOLS, cl) == digits;
    DigitsRoundTrip(word);
  }

  /** m carries exactly these fields and this parity. */
  ghost predicate Carries(m: Reading, f: Fields, parity: seq<Byte>) {
    m.fields == f && m.checksum == parity
  }

  /** Exactly one of the messages carries these fields and this parity. */
  ghost predicate DeliveredOnce(msgs: seq<Reading>, f: Fields, parity: seq<Byte>) {
    exists j :: 0 <= j < |msgs| && Carries(msgs[j], f, parity)
                && forall l :: 0 <= l < |msgs| && l != j ==> !Carries(msgs[l], f, parity)
  }

  /** An acceptable candidate's word is announced exactly once. */
  lemma AcceptableDelivered(cs: seq<Candidate>, c: Candidate)
    requires AllWellFormed(cs) && c in cs && Acceptable(c)
    ensures DeliveredOnce(Readings(ScanAll(cs).sent), c.reading.fields, c.reading.checksum)
  {
    hide Accepted, Symbols, ScanAll, SymbolBits, ParseFields;
    var sent := ScanAll(cs).sent;
    AcceptedAreSent(cs, c);
    var o :| o in sent && o.word == c.word;
    SentAreAccepted(cs, o);
    assert WellFormed(o) && WellFormed(c);
    var j :| 0 <= j < |sent| && sent[j] == o;
    var msgs := Readings(sent);
    assert Carries(msgs[j], c.reading.fields, c.reading.checksum);
    forall l | 0 <= l < |msgs| && l != j
      ensures !Carries(msgs[l], c.reading.fields, c.reading.checksum)
    {
      SentAreDistinct(cs, if l < j then l else j, if l < j then j else l);
    }
  }

  lemma SpelledDelivered(x: seq<int>, cfg: Config, idxs: seq<nat>, k: nat, f: Fields, parity: seq<Byte>)
    requires Fits(cfg) && |x| == cfg.bufferLength && cfg.symbolLength <= cfg.preambleLength
    requires k < |Considered(idxs, cfg.blockSize)|
    requires InRange(f) && |parity| == 5 && Symbols(WordFor(f, parity)) && Accepted(WordFor(f, parity))
    requires PayloadDominates(x, PayloadStart(cfg, Considered(idxs, cfg.blockSize)[k]), cfg.chipLength,
                              DigitsOf(WordFor(f, parity)))
    ensures DeliveredOnce(Emitted(x, cfg, idxs), f, parity)
  {
    hide Fits, Accepted, Symbols, PayloadDominates, InRange, CandidateAt, ScanAll, SymbolBits, ParseFields, DeliveredOnce;
    var considered := Considered(idxs, cfg.blockSize);
    var cs, word := CandidatesAt(x, cfg, considered), WordFor(f, parity);
    ReadBack(x, cfg, considered[k], word);
    assert word[16..] == parity;
    WordCarries(f, parity);
    assert WellFormed(cs[k]);
    AcceptableDelivered(cs, cs[k]);
  }

  /** The digits are written at full scale from start on. */
  ghost predicate PayloadWritten(x: seq<int>, start: nat, cl: nat, digits: seq<Digit>) {
    forall k :: 0 <= k < |digits| ==> SymbolWritten(x, At(start, k, cl), cl, digits[k])
  }

  /** One of the messages carries the fields and parity, with the energies of the payload of the first considered
      candidate, not after candidate k, that spells them; at full scale without noise these are 84 chips of
      signal and nothing else. */
  ghost predicate DeliveredMeasured(msgs: seq<Reading>, x: seq<int>, cfg: Config, considered: seq<nat>, k: nat,
                                    f: Fields, parity: seq<Byte>)
    requires Fits(cfg) && |x| == cfg.bufferLength && forall l :: 0 <= l < |considered| ==> considered[l] <= cfg.blockSize
  {
    exists j, l :: 0 <= j < |msgs| && 0 <= l <= k && Carries(msgs[j], f, parity)
      && FirstReader(x, cfg, considered, l, WordFor(f, parity)) && MeasuredAt(msgs[j], x, cfg, considered[l])
      && FullScaleAt(msgs[j], x, cfg, considered[l])
  }

  /** If the payload at candidate index i is a written waveform, the signal is 84 chips and there is no noise. */
  ghost predicate FullScaleAt(m: Reading, x: seq<int>, cfg: Config, i: nat)
    requires Fits(cfg) && |x| == cfg.bufferLength && i <= cfg.blockSize
  {
    PayloadInBounds(cfg, i);
    forall digits: seq<Digit> :: |digits| == PAYLOAD_SYMBOLS && PayloadWritten(x, PayloadStart(cfg, i), cfg.chipLength, digits) ==>
      m.sigSum == 84 * cfg.chipLength && m.noiseSum == 0
  }

  /** Round trip: whatever the fields, if their payload dominates at a considered candidate, the block
      yields exactly one message with these fields and this parity, and it reports the payload's energies. */
  lemma RoundTrip(x: seq<int>, cfg: Config, idxs: seq<nat>, k: nat, f: Fields, parity: seq<Byte>)
    requires Fits(cfg) && |x| == cfg.bufferLength && cfg.symbolLength <= cfg.preambleLength
    requires k < |Considered(idxs, cfg.blockSize)|
    requires InRange(f) && |parity| == 5 && Symbols(WordFor(f, parity)) && Accepted(WordFor(f, parity))
    requires PayloadDominates(x, PayloadStart(cfg, Considered(idxs, cfg.blockSize)[k]), cfg.chipLength,
                              DigitsOf(WordFor(f, parity)))
    ensures DeliveredOnce(Emitted(x, cfg, idxs), f, parity)
    ensures DeliveredMeasured(Emitted(x, cfg, idxs), x, cfg, Considered(idxs, cfg.blockSize), k, f, parity)
  {
    hide Fits, Accepted, Symbols, PayloadDominates, InRange, CandidateAt, Emitted, SymbolBits, ParseFields, WordFor,
      MeasuredAt, FullScaleAt, Considered, DigitsOf;
    SpelledDelivered(x, cfg, idxs, k, f, parity);
    var considered, msgs := Considered(idxs, cfg.blockSize), Emitted(x, cfg, idxs);
    var j :| 0 <= j < |msgs| && Carries(msgs[j], f, parity);
    var l, word := EmittedMeasured(x, cfg, idxs, j);
    ReaderSpells(x, cfg, considered[l], word);
    FieldsSpellWord(word);
    assert word == WordFor(f, parity);
    ReadBack(x, cfg, considered[k], word);
    FullScale(msgs[j], x, cfg, considered[l]);
  }

  lemma ReaderSpells(x: seq<int>, cfg: Config, i: nat, word: seq<Byte>)
    requires Fits(cfg) && |x| == cfg.bufferLength && i <= cfg.blockSize && CandidateAt(x, cfg, i).word == Some(word)
    ensures Symbols(word)
  {
    hide CandidateAt, Fits, SymbolBits, ParseFields, Symbols;
    assert WellFormed(CandidateAt(x, cfg, i));
  }

  /** Conversely every message of a block carries a checked word: its parity completes its fields. */
  lemma OnlyAcceptedWords(x: seq<int>, cfg: Config, idxs: seq<nat>, j: nat)
    requires Fits(cfg) && |x| == cfg.bufferLength && j < |Emitted(x, cfg, idxs)|
    ensures var m := Emitted(x, cfg, idxs)[j];
            && InRange(m.fields) && |m.checksum| == 5
            && Accepted(WordFor(m.fields, m.checksum))
            && m.sigSum >= m.noiseSum
  {
    hide Fits, Accepted, InRange, ReadWord, OnEnergy, OffEnergy;
    var considered := Considered(idxs, cfg.blockSize);
    var cs := CandidatesAt(x, cfg, considered);
    var c := ScanAll(cs).sent[j];
    SentAreAccepted(cs, c);
    var k :| 0 <= k < |cs| && cs[k] == c;
    assert WellFormed(c);
    FieldsSpellWord(c.word.value);
    PayloadInBounds(cfg, considered[k]);
    EnergyConserved(x, PayloadStart(cfg, considered[k]), PAYLOAD_SYMBOLS, cfg.chipLength);
  }

  lemma FieldsSpellWord(word: seq<Byte>)
    requires Symbols(word)
    ensures InRange(ParseFields(SymbolBits(word))) && WordFor(ParseFields(SymbolBits(word)), word[16..]) == word
  {
    hide ParseFields, SymbolBits, FieldBits, GroupBits, InRange;
    BitsRoundTrip(SymbolBits(word));
    assert word == word[..16] + word[16..];
    SymbolBitsConcat(word[..16], word[16..]);
    PrintThenGroup(word[..16]);
    assert SymbolBits(word)[..80] == SymbolBits(word[..16]);
  }

  // ----- noise margin -----

  /** Every sample of chip c of the symbol at i lies above (below) the midpoint of the two levels. */
  ghost predicate ClearChip(x: seq<int>, i: nat, c: nat, cl: nat, on: bool, high: int, low: int) {
    forall s :: i + c * cl <= s < i + (c + 1) * cl && s < |x| ==>
      if on then 2 * x[s] > high + low else 2 * x[s] < high + low
  }

  /** Noise below half the gap between the levels, sample by sample, over one symbol. */
  ghost predicate ClearSymbol(x: seq<int>, i: nat, cl: nat, d: Digit, high: int, low: int) {
    forall c :: 0 <= c < 4 ==> ClearChip(x, i, c, cl, On(d, c), high, low)
  }

  lemma {:induction false} SumAbove(x: seq<int>, m: int)
    requires forall s :: 0 <= s < |x| ==> 2 * x[s] > m
    ensures 2 * Sum(x) >= |x| * m && (|x| > 0 ==> 2 * Sum(x) > |x| * m)
  {
    if x != [] {
      SumAbove(x[..|x| - 1], m);
      assert |x| * m == (|x| - 1) * m + m;
    }
  }

  lemma {:induction false} SumBelow(x: seq<int>, m: int)
    requires forall s :: 0 <= s < |x| ==> 2 * x[s] < m
    ensures 2 * Sum(x) <= |x| * m && (|x| > 0 ==> 2 * Sum(x) < |x| * m)
  {
    if x != [] {
      SumBelow(x[..|x| - 1], m);
      assert |x| * m == (|x| - 1) * m + m;
    }
  }

  lemma ChipMargin(x: seq<int>, i: nat, c: nat, cl: nat, on: bool, high: int, low: int)
    requires i + 4 * cl <= |x| && c < 4 && cl > 0 && ClearChip(x, i, c, cl, on, high, low)
    ensures if on then 2 * ChipsAt(x, i, cl).Get(c) > cl * (high + low) else 2 * ChipsAt(x, i, cl).Get(c) < cl * (high + low)
  {
    hide Sum;
    ChipOffset(c, cl);
    var w := x[i + c * cl..i + (c + 1) * cl];
    assert ChipsAt(x, i, cl).Get(c) == Sum(w);
    if on {
      SumAbove(w, high + low);
    } else {
      SumBelow(w, high + low);
    }
  }

  /** Per-sample noise below half the on/off gap makes a symbol dominate, whatever the noise is. */
  lemma NoiseBelowHalfGap(x: seq<int>, i: nat, cl: nat, d: Digit, high: int, low: int)
    requires i + 4 * cl <= |x| && cl > 0 && ClearSymbol(x, i, cl, d, high, low)
    ensures ChipsAt(x, i, cl).Dominates(d)
  {
    hide ChipsAt, On, ClearChip, Chips.Get;
    forall c | 0 <= c < 4
      ensures var e := ChipsAt(x, i, cl).Get(c);
              if On(d, c) then 2 * e > cl * (high + low) else 2 * e < cl * (high + low)
    {
      ChipMargin(x, i, c, cl, On(d, c), high, low);
    }
  }

  // ----- the encoder's side -----

  /** A value printed in binary with at least w digits. */
  function Printed(v: nat, w: nat): (r: seq<Bit>)
    ensures |r| >= w && (|r| == w <==> v < Pow2(w))
    ensures v < Pow2(w) ==> r == ToBits(v, w)
  {
    NBitBounds(v, w);
    ToBits(v, if NBit(v) > w then NBit(v) else w)
  }

  /** Packs the fields into 16 data symbols and appends the parity; fails exactly when a field does not
      fit its digits. */
  method BuildSymbols(field: Field, want: Fields) returns (r: Result<seq<Byte>>)
    requires R900Tables(field)
    ensures r.Ok? <==> InRange(want)
    ensures r.Ok? ==> |r.value| == 21 && r.value == WordFor(want, r.value[16..])
    ensures r.Ok? ==> Symbols(r.value) && Accepted(r.value)
  {
    hide ToBits, NBit, Pow2, R900Tables, Accepted, BitValue;
    var bits := Printed(want.id, 32) + Printed(want.unkn1, 8) + Printed(want.noUse, 6) + Printed(want.backFlow, 2)
                + Printed(want.consumption, 24) + Printed(want.unkn3, 2) + Printed(want.leak, 4) + Printed(want.leakNow, 2);
    if |bits| != 80 {
      return Panic;
    }
    assert bits == FieldBits(want);
    var data: seq<Byte> := [];
    var k := 0;
    assert bits[..0] == [];
    while k < 16
      invariant 0 <= k <= 16 && data == GroupBits(bits[..5 * k], k)
    {
      assert bits[..5 * (k + 1)][..5 * k] == bits[..5 * k];
      assert bits[..5 * (k + 1)][5 * k..] == bits[5 * k..5 * k + 5];
      GroupBound(bits[5 * k..5 * k + 5]);
      data := data + [BitValue(bits[5 * k..5 * k + 5])];
      k := k + 1;
    }
    assert bits[..80] == bits;
    var parity := EncodeParity(field, data);
    assert (data + parity.value)[16..] == parity.value;
    return Ok(data + parity.value);
  }

  /** One symbol of the waveform: full power in the on-chips, none in the off-chips. */
  ghost predicate SymbolWritten(x: seq<int>, i: nat, cl: nat, d: Digit) {
    i + 4 * cl <= |x| && forall c :: 0 <= c < 4 ==> ChipWritten(x, i + c * cl, cl, if On(d, c) then 1 else 0)
  }

  /** Innermost loop of the waveform writer. */
  method WriteChip(signal: array<int>, i: nat, cl: nat, v: int)
    requires i + cl <= signal.Length
    modifies signal
    ensures ChipWritten(signal[..], i, cl, v)
    ensures forall j :: 0 <= j < signal.Length && !(i <= j < i + cl) ==> signal[j] == old(signal[j])
  {
    var s := 0;
    while s < cl
      invariant 0 <= s <= cl
      invariant forall j :: i <= j < i + s ==> signal[j] == v
      invariant forall j :: 0 <= j < signal.Length && !(i <= j < i + s) ==> signal[j] == old(signal[j])
    {
      signal[i + s] := v;
      s := s + 1;
    }
  }

  /** The four chips of one digit. */
  method WriteSymbol(signal: array<int>, i: nat, cl: nat, d: Digit)
    requires i + 4 * cl <= signal.Length
    modifies signal
    ensures SymbolWritten(signal[..], i, cl, d)
    ensures forall j :: 0 <= j < signal.Length && !(i <= j < i + 4 * cl) ==> signal[j] == old(signal[j])
  {
    var high := if d >= 3 then 1 else 0;
    var chip := 0;
    while chip < 4
      invariant 0 <= chip <= 4
      invariant forall c :: 0 <= c < chip ==> ChipWritten(signal[..], i + c * cl, cl, if On(d, c) then 1 else 0)
      invariant forall j :: 0 <= j < signal.Length && !(i <= j < i + chip * cl) ==> signal[j] == old(signal[j])
    {
      var v := if BasePattern(d % 3, chip) then high else 1 - high;
      ChipOffset(chip, cl);
      forall c | 0 <= c < chip
        ensures i + c * cl + cl <= i + chip * cl
      {
        ScaleMono(c + 1, chip, cl);
      }
      ghost var before := signal[..];
      WriteChip(signal, i + chip * cl, cl, v);
      forall c | 0 <= c < chip
        ensures ChipWritten(signal[..], i + c * cl, cl, if On(d, c) then 1 else 0)
      {
        assert ChipWritten(before, i + c * cl, cl, if On(d, c) then 1 else 0);
      }
      chip := chip + 1;
    }
  }

  /** Renders digits as on-off keyed chips; nothing outside the waveform changes. */
  method WriteWaveform(signal: array<int>, offset: nat, cl: nat, digits: seq<Digit>)
    requires At(offset, |digits|, cl) <= signal.Length
    modifies signal
    ensures forall k :: 0 <= k < |digits| ==> SymbolWritten(signal[..], At(offset, k, cl), cl, digits[k])
    ensures forall j :: 0 <= j < signal.Length && !(offset <= j < At(offset, |digits|, cl)) ==> signal[j] == old(signal[j])
  {
    hide D.At;
    AtNext(offset, 0, cl);
    var k := 0;
    while k < |digits|
      invariant 0 <= k <= |digits|
      invariant forall l :: 0 <= l < k ==> SymbolWritten(signal[..], At(offset, l, cl), cl, digits[l])
      invariant forall j :: 0 <= j < signal.Length && !(offset <= j < At(offset, k, cl)) ==> signal[j] == old(signal[j])
    {
      AtNext(offset, k, cl);
      AtMono(offset, k + 1, |digits|, cl);
      AtMono(offset, 0, k, cl);
      ghost var before := signal[..];
      WriteSymbol(signal, At(offset, k, cl), cl, digits[k]);
      forall l | 0 <= l < k
        ensures SymbolWritten(signal[..], At(offset, l, cl), cl, digits[l])
      {
        AtNext(offset, l, cl);
        AtMono(offset, l + 1, k, cl);
        WrittenKeeps(before, signal[..], At(offset, l, cl), cl, digits[l]);
      }
      k := k + 1;
    }
  }

  lemma AtMono(start: nat, j: nat, k: nat, cl: nat)
    requires j <= k
    ensures At(start, j, cl) <= At(start, k, cl)
  {
    ScaleMono(j, k, 4 * cl);
  }

  lemma WrittenKeeps(x: seq<int>, y: seq<int>, i: nat, cl: nat, d: Digit)
    requires SymbolWritten(x, i, cl, d) && |x| == |y| && forall j :: i <= j < i + 4 * cl ==> x[j] == y[j]
    ensures SymbolWritten(y, i, cl, d)
  {
    forall c | 0 <= c < 4
      ensures ChipWritten(y, i + c * cl, cl, if On(d, c) then 1 else 0)
    {
      ChipOffset(c, cl);
      assert ChipWritten(x, i + c * cl, cl, if On(d, c) then 1 else 0);
    }
  }

  /** A written waveform dominates in every symbol, so it is read back exactly. */
  lemma WaveformDominates(x: seq<int>, start: nat, cl: nat, digits: seq<Digit>)
    requires cl > 0 && forall k :: 0 <= k < |digits| ==> SymbolWritten(x, At(start, k, cl), cl, digits[k])
    ensures PayloadDominates(x, start, cl, digits)
  {
    hide Chips.Dominates, D.At, ChipsAt;
    forall k | 0 <= k < |digits|
      ensures ChipsAt(x, At(start, k, cl), cl).Dominates(digits[k])
    {
      var i := At(start, k, cl);
      forall c | 0 <= c < 4
        ensures ClearChip(x, i, c, cl, On(digits[k], c), 1, 0)
      {
        ChipOffset(c, cl);
        assert ChipWritten(x, i + c * cl, cl, if On(digits[k], c) then 1 else 0);
      }
      NoiseBelowHalfGap(x, i, cl, digits[k], 1, 0);
    }
  }

  // ----- energies of a waveform -----

  /** The chips of a written symbol: full energy where the digit is on, none where it is off. */
  lemma WrittenChips(x: seq<int>, i: nat, cl: nat, d: Digit, c: nat)
    requires SymbolWritten(x, i, cl, d) && c < 4
    ensures ChipsAt(x, i, cl).Get(c) == if On(d, c) then cl else 0
  {
    hide Sum, On;
    ChipOffset(c, cl);
    var v := if On(d, c) then 1 else 0;
    assert ChipWritten(x, i + c * cl, cl, v);
    var chip := x[i + c * cl..i + c * cl + cl];
    assert forall s :: 0 <= s < |chip| ==> chip[s] == v;
    ConstantSum(chip, v);
  }

  lemma TwoOn(e: Chips, d: Digit, v: int)
    requires forall c :: 0 <= c < 4 ==> e.Get(c) == if On(d, c) then v else 0
    ensures e.OnSum(d) == 2 * v && e.OffSum(d) == 0
  {
    assert e.Get(0) == e.e0 && e.Get(1) == e.e1 && e.Get(2) == e.e2 && e.Get(3) == e.e3;
  }

  lemma WrittenEnergies(x: seq<int>, i: nat, cl: nat, d: Digit)
    requires cl > 0 && SymbolWritten(x, i, cl, d)
    ensures var e := ChipsAt(x, i, cl); DigitAt(x, i, cl) == d && e.OnSum(d) == 2 * cl && e.OffSum(d) == 0
  {
    hide ChipsAt, ChipWritten, DigitOf;
    var e := ChipsAt(x, i, cl);
    WrittenChips(x, i, cl, d, 0);
    WrittenChips(x, i, cl, d, 1);
    WrittenChips(x, i, cl, d, 2);
    WrittenChips(x, i, cl, d, 3);
    assert e.Dominates(d);
    DominantDigit(e, d);
    TwoOn(e, d, cl);
  }

  /** A written waveform measures two full chips of signal per digit, and no noise. */
  lemma {:induction false} WaveformEnergies(x: seq<int>, start: nat, n: nat, cl: nat, digits: seq<Digit>)
    requires cl > 0 && n <= |digits| && PayloadWritten(x, start, cl, digits) && InBounds(|x|, start, n, cl)
    ensures OnEnergy(x, start, n, cl) == 2 * cl * n && OffEnergy(x, start, n, cl) == 0
  {
    hide ChipWritten, ChipsAt, DigitAt, Chips.OnSum, Chips.OffSum, At;
    if n > 0 {
      WaveformEnergies(x, start, n - 1, cl, digits);
      WrittenEnergies(x, At(start, n - 1, cl), cl, digits[n - 1]);
    }
  }

  lemma FullScale(m: Reading, x: seq<int>, cfg: Config, i: nat)
    requires Fits(cfg) && |x| == cfg.bufferLength && i <= cfg.blockSize && MeasuredAt(m, x, cfg, i)
    ensures FullScaleAt(m, x, cfg, i)
  {
    hide PayloadWritten, OnEnergy, OffEnergy, BestEnergy, Sum, InBounds, Fits;
    PayloadInBounds(cfg, i);
    ChipPositive(cfg);
    var start, cl := PayloadStart(cfg, i), cfg.chipLength;
    EnergyConserved(x, start, PAYLOAD_SYMBOLS, cl);
    forall digits: seq<Digit> | |digits| == PAYLOAD_SYMBOLS && PayloadWritten(x, start, cl, digits)
      ensures m.sigSum == 84 * cl && m.noiseSum == 0
    {
      WaveformEnergies(x, start, PAYLOAD_SYMBOLS, cl, digits);
    }
  }

  lemma ChipPositive(cfg: Config)
    requires Fits(cfg)
    ensures cfg.chipLength > 0
  {
  }

  lemma FirstIsUnique(x: seq<int>, cfg: Config, considered: seq<nat>, k: nat, l: nat, word: seq<Byte>)
    requires Fits(cfg) && |x| == cfg.bufferLength && forall i :: 0 <= i < |considered| ==> considered[i] <= cfg.blockSize
    requires FirstReader(x, cfg, considered, k, word) && FirstReader(x, cfg, considered, l, word)
    ensures k == l
  {
    hide CandidateAt, Fits;
  }

  /** One of the messages carries these fields and this parity with 84 chips of signal and no noise. */
  ghost predicate FullScaleMessage(msgs: seq<Reading>, cl: nat, f: Fields, parity: seq<Byte>) {
    exists j :: 0 <= j < |msgs| && Carries(msgs[j], f, parity) && msgs[j].sigSum == 84 * cl && msgs[j].noiseSum == 0
  }

  lemma WrittenFirst(msgs: seq<Reading>, x: seq<int>, cfg: Config, considered: seq<nat>, k: nat, f: Fields, parity: seq<Byte>,
                     digits: seq<Digit>)
    requires Fits(cfg) && |x| == cfg.bufferLength && forall l :: 0 <= l < |considered| ==> considered[l] <= cfg.blockSize
    requires cfg.symbolLength <= cfg.preambleLength && |digits| == PAYLOAD_SYMBOLS && k < |considered|
    requires DeliveredMeasured(msgs, x, cfg, considered, k, f, parity)
    requires FirstReader(x, cfg, considered, k, WordFor(f, parity))
    requires PayloadWritten(x, PayloadStart(cfg, considered[k]), cfg.chipLength, digits)
    ensures FullScaleMessage(msgs, cfg.chipLength, f, parity)
  {
    hide Fits, CandidateAt, MeasuredAt, WordFor, PayloadWritten, FirstReader, Carries;
    var j, l :| 0 <= j < |msgs| && 0 <= l <= k && Carries(msgs[j], f, parity)
      && FirstReader(x, cfg, considered, l, WordFor(f, parity)) && MeasuredAt(msgs[j], x, cfg, considered[l])
      && FullScaleAt(msgs[j], x, cfg, considered[l]);
    FirstIsUnique(x, cfg, considered, k, l, WordFor(f, parity));
  }
}
