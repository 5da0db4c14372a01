/** The decoder: block-wise demodulation, preamble search and packet slicing over reused buffers. */
module Decoder {
  import opened Wrappers
  import opened Gf2Poly
  import opened Bits
  import opened Stream
  import opened Geometry
  import opened Demod

  // ----- what search and slicing are for -----

  /** Index of symbol p of something that starts at index i. */
  function At(i: nat, p: nat, symLen: nat): nat {
    i + p * symLen
  }

  lemma AtSteps(i: nat, p: nat, symLen: nat)
    ensures At(i, 0, symLen) == i && At(i, p + 1, symLen) == At(i, p, symLen) + symLen
  {
  }

  lemma AtShift(i: nat, k: nat, p: nat, symLen: nat)
    ensures At(i + k, p, symLen) == At(i, p, symLen) + k
  {
  }

  /** The preamble occurs at index i of the decisions, one bit per symbol. */
  ghost predicate Matches(q: seq<Bit>, preamble: seq<Bit>, i: nat, symLen: nat) {
    forall p :: 0 <= p < |preamble| ==> At(i, p, symLen) < |q| && q[At(i, p, symLen)] == preamble[p]
  }

  lemma SampledBound(n: nat, symLen: nat)
    requires n > 0
    ensures n > 1 ==> (n - 2) * symLen <= (n - 1) * symLen
  {
  }

  /** The decisions of n symbols starting at index i. */
  function Sampled(q: seq<Bit>, i: nat, n: nat, symLen: nat): (r: seq<Bit>)
    requires n > 0 ==> At(i, n - 1, symLen) < |q|
    ensures |r| == n && forall p :: 0 <= p < n ==> At(i, p, symLen) < |q| && r[p] == q[At(i, p, symLen)]
  {
    if n == 0 then [] else
      SampledBound(n, symLen);
      Sampled(q, i, n - 1, symLen) + [q[At(i, n - 1, symLen)]]
  }

  /** A candidate packet as handed to the parsers. */
  datatype Data = Data(idx: nat, bits: seq<Bit>, bytes: seq<Byte>)

  /** d holds the packet that starts at d.idx; of a last partial byte nothing is claimed. */
  ghost predicate PacketAt(d: Data, q: seq<Bit>, cfg: Config) {
    && (cfg.packetSymbols > 0 ==> At(d.idx, cfg.packetSymbols - 1, cfg.symbolLength) < |q|)
    && |d.bytes| == (cfg.packetSymbols + 7) / 8 && d.bits == BytesToBits(d.bytes)
    && var n := 8 * (cfg.packetSymbols / 8);
       d.bits[..n] == Sampled(q, d.idx, cfg.packetSymbols, cfg.symbolLength)[..n]
  }

  function Indices(batch: seq<Data>): (r: seq<nat>)
    ensures |r| == |batch| && forall k :: 0 <= k < |r| ==> r[k] == batch[k].idx
  {
    seq(|batch|, k requires 0 <= k < |batch| => batch[k].idx)
  }

  /** batch lists, in order and without repetition, the packets at exactly those indices of the first
      block at which the preamble occurs. */
  ghost predicate BatchOf(batch: seq<Data>, q: seq<Bit>, preamble: seq<Bit>, cfg: Config) {
    && Increasing(Indices(batch))
    && (forall i: nat :: i in Indices(batch) <==> i < cfg.blockSize && Matches(q, preamble, i, cfg.symbolLength))
    && (forall k :: 0 <= k < |batch| ==> PacketAt(batch[k], q, cfg))
  }

  // ----- the two search phases -----

  /** The first n preamble bits occur at x. */
  ghost predicate MatchesUpTo(q: seq<Bit>, preamble: seq<Bit>, n: nat, x: nat, symLen: nat)
    requires n <= |preamble|
  {
    n == 0 || (MatchesUpTo(q, preamble, n - 1, x, symLen)
               && At(x, n - 1, symLen) < |q| && q[At(x, n - 1, symLen)] == preamble[n - 1])
  }

  lemma {:induction false} MatchesAll(q: seq<Bit>, preamble: seq<Bit>, n: nat, x: nat, symLen: nat)
    requires n <= |preamble|
    ensures MatchesUpTo(q, preamble, n, x, symLen) <==> Matches(q, preamble[..n], x, symLen)
  {
    if n > 0 {
      MatchesAll(q, preamble, n - 1, x, symLen);
      var a, b := preamble[..n - 1], preamble[..n];
      assert forall p :: 0 <= p < n - 1 ==> a[p] == b[p];
      if Matches(q, b, x, symLen) {
        forall p | 0 <= p < n - 1
          ensures At(x, p, symLen) < |q| && q[At(x, p, symLen)] == a[p]
        {
          assert b[p] == a[p];
        }
        assert b[n - 1] == preamble[n - 1];
      }
    }
  }

  /** Byte x may hold a start of the first n preamble bits. */
  ghost predicate BytesMatch(packed: seq<Byte>, preamble: seq<Bit>, n: nat, x: nat, symLenByte: nat)
    requires n <= |preamble|
  {
    n == 0 || (BytesMatch(packed, preamble, n - 1, x, symLenByte)
               && At(x, n - 1, symLenByte) < |packed| && packed[At(x, n - 1, symLenByte)] != Mask(preamble[n - 1]))
  }

  lemma ByteOffset(p: nat, symLenByte: nat)
    ensures p * (8 * symLenByte) == 8 * (p * symLenByte)
  {
  }

  /** The byte prune loses no match. */
  lemma {:induction false} PruneLosesNothing(packed: seq<Byte>, q: seq<Bit>, preamble: seq<Bit>, n: nat, x: nat, symLenByte: nat)
    requires Packed(packed, q) && n <= |preamble|
    requires MatchesUpTo(q, preamble, n, x, 8 * symLenByte)
    requires n > 0 ==> x / 8 + (n - 1) * symLenByte < |packed|
    ensures BytesMatch(packed, preamble, n, x / 8, symLenByte)
  {
    hide Packed;
    if n > 0 {
      SampledBound(n, symLenByte);
      PruneLosesNothing(packed, q, preamble, n - 1, x, symLenByte);
      ByteOffset(n - 1, symLenByte);
      var j, k := x / 8 + (n - 1) * symLenByte, x % 8;
      assert 8 * j + k == x + (n - 1) * (8 * symLenByte);
      PruneSound(packed, q, j, k, preamble[n - 1]);
    }
  }

  /** The byte phase keeps every match, for all decisions and preambles. */
  ghost predicate PruneLossless(symLen: nat) {
    forall packed: seq<Byte>, q: seq<Bit>, preamble: seq<Bit>, x: nat ::
      Packed(packed, q) && MatchesUpTo(q, preamble, |preamble|, x, symLen)
      && (|preamble| > 0 ==> x / 8 + (|preamble| - 1) * (symLen / 8) < |packed|) ==>
        BytesMatch(packed, preamble, |preamble|, x / 8, symLen / 8)
  }

  /** The byte prune is lossless exactly for symbols of whole bytes. Otherwise a one followed by a zero is lost
      where the zero begins the byte after the one looked at. */
  lemma PruneExact(symLen: nat)
    ensures PruneLossless(symLen) <==> symLen % 8 == 0
  {
    hide Packed, BytesMatch, MatchesUpTo;
    if symLen % 8 == 0 {
      assert symLen == 8 * (symLen / 8);
      forall packed: seq<Byte>, q: seq<Bit>, preamble: seq<Bit>, x: nat |
        Packed(packed, q) && MatchesUpTo(q, preamble, |preamble|, x, symLen)
        && (|preamble| > 0 ==> x / 8 + (|preamble| - 1) * (symLen / 8) < |packed|)
        ensures BytesMatch(packed, preamble, |preamble|, x / 8, symLen / 8)
      {
        PruneLosesNothing(packed, q, preamble, |preamble|, x, symLen / 8);
      }
    } else {
      var packed, q, x := LostMatch(symLen);
      assert |[1, 0]| == 2;
      assert !BytesMatch(packed, [1, 0], |[1, 0]|, x / 8, symLen / 8);
    }
  }

  /** Ones up to the end of byte symLen / 8, then zeros. */
  lemma LostMatch(symLen: nat) returns (packed: seq<Byte>, q: seq<Bit>, x: nat)
    requires symLen % 8 != 0
    ensures Packed(packed, q) && MatchesUpTo(q, [1, 0], 2, x, symLen)
    ensures x / 8 + symLen / 8 < |packed| && !BytesMatch(packed, [1, 0], 2, x / 8, symLen / 8)
  {
    hide BitValue;
    var b := symLen / 8;
    x := 8 - symLen % 8;
    q := seq(8 * b + 16, i requires 0 <= i => if i < 8 * b + 8 then 1 else 0);
    packed := seq(b + 1, _ => 255);
    forall j | 0 <= j < b + 1
      ensures packed[j] == BitValue(q[8 * j..8 * j + 8])
    {
      UniformValue(q[8 * j..8 * j + 8]);
      ShlByte(0);
    }
    assert MatchesUpTo(q, [1, 0], 0, x, symLen);
    assert At(x, 0, symLen) == x && At(x, 1, symLen) == 8 * b + 8;
    assert MatchesUpTo(q, [1, 0], 1, x, symLen);
    assert x / 8 == 0 && At(0, 1, b) == b;
    assert packed[b] == Mask([1, 0][1]);
  }

  lemma {:induction false} MatchesPrefix(q: seq<Bit>, preamble: seq<Bit>, m: nat, n: nat, x: nat, symLen: nat)
    requires m <= n <= |preamble| && MatchesUpTo(q, preamble, n, x, symLen)
    ensures MatchesUpTo(q, preamble, m, x, symLen)
    decreases n
  {
    if m < n {
      MatchesPrefix(q, preamble, m, n - 1, x, symLen);
    }
  }

  // ----- slicing -----

  /** pkt <<= 1 followed by pkt |= bit, on a byte: the top bit is lost. */
  function ShiftBit(b: Byte, bit: Bit): Byte {
    (if b < 128 then 2 * b else 2 * b - 256) + bit
  }

  /** A byte after the bits s have been shifted in from the right. */
  function ShiftIn(b: Byte, s: seq<Bit>): Byte {
    if s == [] then b else ShiftBit(ShiftIn(b, s[..|s| - 1]), s[|s| - 1])
  }

  /** The number formed by the bits lost at the top. */
  function Lost(b: Byte, s: seq<Bit>): nat {
    if s == [] then 0 else 2 * Lost(b, s[..|s| - 1]) + (if ShiftIn(b, s[..|s| - 1]) < 128 then 0 else 1)
  }

  lemma {:induction false} ShiftInValue(b: Byte, s: seq<Bit>)
    ensures 256 * Lost(b, s) + ShiftIn(b, s) == Shl(b, |s|) + BitValue(s)
  {
    if s != [] {
      ShiftInValue(b, s[..|s| - 1]);
    }
  }

  /** Eight bits replace whatever the scratch byte held. */
  lemma ShiftInEight(b: Byte, s: seq<Bit>)
    requires |s| == 8
    ensures ShiftIn(b, s) == BitValue(s)
  {
    hide ShiftIn, Lost, BitValue, Shl;
    ShiftInValue(b, s);
    ByteBound(s);
    ShlByte(b);
  }

  /** The scratch bytes after n of the bits have been shifted in. */
  ghost predicate ShiftedIn(pkt: seq<Byte>, before: seq<Byte>, bits: seq<Bit>, j: nat, k: nat)
    requires 8 * j + k <= |bits| && k < 8 && |pkt| == |before|
  {
    && j <= |pkt| && (k > 0 ==> j < |pkt|)
    && (forall i :: 0 <= i < j ==> pkt[i] == BitValue(bits[8 * i..8 * i + 8]))
    && (k > 0 ==> pkt[j] == ShiftIn(before[j], bits[8 * j..8 * j + k]))
    && (forall i :: j < i < |pkt| ==> pkt[i] == before[i])
    && (k == 0 && j < |pkt| ==> pkt[j] == before[j])
  }

  lemma ShiftInStep(pkt: seq<Byte>, before: seq<Byte>, bits: seq<Bit>, j: nat, k: nat)
    requires 8 * j + k < |bits| && k < 8 && |pkt| == |before| && j < |pkt|
    requires ShiftedIn(pkt, before, bits, j, k)
    ensures var pkt' := pkt[j := ShiftBit(pkt[j], bits[8 * j + k])];
            if k < 7 then ShiftedIn(pkt', before, bits, j, k + 1) else ShiftedIn(pkt', before, bits, j + 1, 0)
  {
    hide BitValue, ShiftBit;
    var s, t := bits[8 * j..8 * j + k], bits[8 * j..8 * j + k + 1];
    assert t == s + [bits[8 * j + k]] && t[..k] == s;
    assert ShiftIn(before[j], t) == ShiftBit(pkt[j], bits[8 * j + k]) by {
      assert k == 0 ==> s == [];
    }
    hide ShiftIn;
    if k == 7 {
      ShiftInEight(before[j], t);
    }
  }

  /** Samples one packet into the reused scratch bytes: whole bytes hold the packet's bits, a last
      partial byte holds its bits behind what was in the scratch byte before. */
  method SamplePacket(q: array<Bit>, pkt: array<Byte>, start: nat, symbols: nat, symLen: nat)
    requires symbols > 0 && pkt.Length == (symbols + 7) / 8 && At(start, symbols - 1, symLen) < q.Length
    requires pkt as object != q
    modifies pkt
    ensures ShiftedIn(pkt[..], old(pkt[..]), Sampled(q[..], start, symbols, symLen), symbols / 8, symbols % 8)
  {
    hide ShiftedIn, ShiftBit, Sampled;
    ghost var bits := Sampled(q[..], start, symbols, symLen);
    ghost var before := pkt[..];
    ghost var j, k := 0, 0;
    NothingShifted(before, bits);
    var pIdx := 0;
    while pIdx < symbols
      invariant 0 <= pIdx <= symbols && pIdx == 8 * j + k && 0 <= k < 8
      invariant ShiftedIn(pkt[..], before, bits, j, k)
    {
      assert pIdx / 8 == j && j < pkt.Length;
      ShiftInStep(pkt[..], before, bits, j, k);
      ghost var was := pkt[..];
      pkt[pIdx / 8] := ShiftBit(pkt[pIdx / 8], q[At(start, pIdx, symLen)]);
      assert pkt[..] == was[j := ShiftBit(was[j], bits[pIdx])];
      pIdx := pIdx + 1;
      if k < 7 {
        k := k + 1;
      } else {
        j, k := j + 1, 0;
      }
    }
  }

  lemma NothingShifted(before: seq<Byte>, bits: seq<Bit>)
    ensures ShiftedIn(before, before, bits, 0, 0)
  {
  }

  /** The textual form of a packet: every byte as eight binary digits. */
  method NewData(data: array<Byte>) returns (d: Data)
    ensures d.bytes == data[..] && d.bits == BytesToBits(data[..])
  {
    hide ToBits;
    var bits: seq<Bit> := [];
    var k := 0;
    assert data[..0] == [];
    while k < data.Length
      invariant 0 <= k <= data.Length && bits == BytesToBits(data[..k])
    {
      assert data[..k + 1][..k] == data[..k];
      bits := bits + ToBits(data[k], 8);
      k := k + 1;
    }
    assert data[..k] == data[..];
    return Data(0, bits, data[..]);
  }

  /** The text of the whole bytes is the sampled bits themselves. */
  lemma WholeBytes(bytes: seq<Byte>, bits: seq<Bit>, n: nat)
    requires n <= |bytes| && 8 * n <= |bits|
    requires forall j :: 0 <= j < n ==> bytes[j] == BitValue(bits[8 * j..8 * j + 8])
    ensures BytesToBits(bytes)[..8 * n] == bits[..8 * n]
  {
    hide BitValue, BytesToBits, ToBits;
    var text := BytesToBits(bytes);
    forall j | 0 <= j < n
      ensures text[8 * j..8 * j + 8] == bits[8 * j..8 * j + 8]
    {
      ByteBits(bytes, j);
      BitsOfValue(bits[8 * j..8 * j + 8]);
    }
    EqualByBytes(text, bits, n);
  }

  lemma {:induction false} EqualByBytes(a: seq<Bit>, b: seq<Bit>, n: nat)
    requires 8 * n <= |a| && 8 * n <= |b|
    requires forall j :: 0 <= j < n ==> a[8 * j..8 * j + 8] == b[8 * j..8 * j + 8]
    ensures a[..8 * n] == b[..8 * n]
  {
    if n > 0 {
      var m := n - 1;
      EqualByBytes(a, b, m);
      assert a[..8 * n] == a[..8 * m] + a[8 * m..8 * m + 8];
      assert b[..8 * n] == b[..8 * m] + b[8 * m..8 * m + 8];
    }
  }

  /** Candidates beyond the first block are left for the next call. */
  function Kept(indices: seq<nat>, blockSize: nat): seq<nat> {
    if indices == [] then []
    else Kept(indices[..|indices| - 1], blockSize)
         + (if indices[|indices| - 1] > blockSize then [] else [indices[|indices| - 1]])
  }

  lemma {:induction false} KeptAll(indices: seq<nat>, blockSize: nat)
    requires forall i :: 0 <= i < |indices| ==> indices[i] <= blockSize
    ensures Kept(indices, blockSize) == indices
  {
    if indices != [] {
      var n := |indices| - 1;
      KeptAll(indices[..n], blockSize);
      assert indices == indices[..n] + [indices[n]];
    }
  }

  lemma SlicedPacket(d: Data, q: seq<Bit>, before: seq<Byte>, cfg: Config)
    requires cfg.packetSymbols > 0 && At(d.idx, cfg.packetSymbols - 1, cfg.symbolLength) < |q|
    requires |d.bytes| == |before| == (cfg.packetSymbols + 7) / 8 && d.bits == BytesToBits(d.bytes)
    requires ShiftedIn(d.bytes, before, Sampled(q, d.idx, cfg.packetSymbols, cfg.symbolLength),
                       cfg.packetSymbols / 8, cfg.packetSymbols % 8)
    ensures PacketAt(d, q, cfg)
  {
    hide At, Sampled, BytesToBits, BitValue, ShiftIn;
    ShiftedWhole(d.bytes, before, Sampled(q, d.idx, cfg.packetSymbols, cfg.symbolLength),
                 cfg.packetSymbols / 8, cfg.packetSymbols % 8);
  }

  lemma ShiftedWhole(bytes: seq<Byte>, before: seq<Byte>, bits: seq<Bit>, j: nat, k: nat)
    requires k < 8 && 8 * j + k <= |bits| && |bytes| == |before| && ShiftedIn(bytes, before, bits, j, k)
    ensures BytesToBits(bytes)[..8 * j] == bits[..8 * j]
  {
    hide BytesToBits, BitValue, ShiftIn;
    WholeBytes(bytes, bits, j);
  }

  /** The last symbol of a packet that starts in the first block is in the buffer. */
  lemma PacketInBuffer(cfg: Config, i: nat)
    requires Sound(cfg) && i <= cfg.blockSize
    ensures i + (cfg.packetSymbols - 1) * cfg.symbolLength < cfg.bufferLength
  {
    ScaleMono(1, cfg.packetSymbols, cfg.symbolLength);
    assert (cfg.packetSymbols - 1) * cfg.symbolLength == cfg.packetLength - cfg.symbolLength;
  }

  /** Slices every candidate that starts in the first block. */
  method Slice(q: array<Bit>, pkt: array<Byte>, indices: seq<nat>, cfg: Config) returns (pkts: seq<Data>)
    requires Sound(cfg) && q.Length == cfg.bufferLength && pkt.Length == (cfg.packetSymbols + 7) / 8
    requires pkt as object != q
    modifies pkt
    ensures Indices(pkts) == Kept(indices, cfg.blockSize)
    ensures forall k :: 0 <= k < |pkts| ==> PacketAt(pkts[k], q[..], cfg)
  {
    hide PacketAt, ShiftedIn, Sampled, BytesToBits;
    pkts := [];
    var n := 0;
    assert indices[..0] == [];
    while n < |indices|
      invariant 0 <= n <= |indices|
      invariant Indices(pkts) == Kept(indices[..n], cfg.blockSize)
      invariant forall k :: 0 <= k < |pkts| ==> PacketAt(pkts[k], q[..], cfg)
    {
      var qIdx := indices[n];
      assert indices[..n + 1][..n] == indices[..n];
      if qIdx <= cfg.blockSize {
        PacketInBuffer(cfg, qIdx);
        ghost var before := pkt[..];
        SamplePacket(q, pkt, qIdx, cfg.packetSymbols, cfg.symbolLength);
        var data := NewData(pkt);
        data := data.(idx := qIdx);
        SlicedPacket(data, q[..], before, cfg);
        pkts := pkts + [data];
      }
      n := n + 1;
    }
    assert indices[..n] == indices;
  }

  // ----- the decoder object -----

  /** Byte indices at which the first n preamble bits may start. */
  ghost predicate ByteCandidates(a: seq<nat>, packed: seq<Byte>, preamble: seq<Bit>, n: nat, cfg: Config)
    requires n <= |preamble|
  {
    Increasing(a) && forall x: nat :: x in a <==>
      x < cfg.blockSize / 8 && BytesMatch(packed, preamble, n, x, cfg.symbolLength / 8)
  }

  /** Sample indices at which the first n preamble bits occur, among those the byte phase left. */
  ghost predicate BitCandidates(a: seq<nat>, packed: seq<Byte>, q: seq<Bit>, preamble: seq<Bit>, n: nat, cfg: Config)
    requires n <= |preamble|
  {
    Increasing(a) && forall x: nat :: x in a <==>
      x < cfg.blockSize && BytesMatch(packed, preamble, |preamble|, x / 8, cfg.symbolLength / 8)
      && MatchesUpTo(q, preamble, n, x, cfg.symbolLength)
  }

  lemma FirstCandidates(a: seq<nat>, packed: seq<Byte>, preamble: seq<Bit>, cfg: Config)
    requires preamble != [] && cfg.blockSize / 8 <= |packed| && Increasing(a)
    requires forall x: nat :: x in a <==> x < cfg.blockSize / 8 && packed[x] != Mask(preamble[0])
    ensures ByteCandidates(a, packed, preamble, 1, cfg)
  {
    forall x: nat
      ensures BytesMatch(packed, preamble, 1, x, cfg.symbolLength / 8)
              <==> x < |packed| && packed[x] != Mask(preamble[0])
    {
      assert 0 * (cfg.symbolLength / 8) == 0;
      assert BytesMatch(packed, preamble, 0, x, cfg.symbolLength / 8);
    }
  }

  lemma NextCandidates(a: seq<nat>, b: seq<nat>, packed: seq<Byte>, preamble: seq<Bit>, n: nat, cfg: Config)
    requires n < |preamble| && n * (cfg.symbolLength / 8) + cfg.blockSize / 8 <= |packed|
    requires ByteCandidates(a, packed, preamble, n, cfg) && Increasing(b)
    requires forall x: nat :: x in b <==>
               x in a && n * (cfg.symbolLength / 8) + x < |packed| && packed[n * (cfg.symbolLength / 8) + x] != Mask(preamble[n])
    ensures ByteCandidates(b, packed, preamble, n + 1, cfg)
  {
  }

  lemma FirstBits(a: seq<nat>, b: seq<nat>, packed: seq<Byte>, q: seq<Bit>, preamble: seq<Bit>, cfg: Config)
    requires cfg.blockSize % 8 == 0 && ByteCandidates(a, packed, preamble, |preamble|, cfg) && Increasing(b)
    requires forall x: nat :: x in b <==> x / 8 in a
    ensures BitCandidates(b, packed, q, preamble, 0, cfg)
  {
    hide BytesMatch;
    forall x: nat
      ensures x / 8 < cfg.blockSize / 8 <==> x < cfg.blockSize
    {
    }
  }

  lemma NextBits(a: seq<nat>, b: seq<nat>, packed: seq<Byte>, q: seq<Bit>, preamble: seq<Bit>, n: nat, cfg: Config)
    requires n < |preamble| && n * cfg.symbolLength + cfg.blockSize <= |q|
    requires BitCandidates(a, packed, q, preamble, n, cfg) && Increasing(b)
    requires forall x: nat :: x in b <==>
               x in a && n * cfg.symbolLength + x < |q| && q[n * cfg.symbolLength + x] == preamble[n]
    ensures BitCandidates(b, packed, q, preamble, n + 1, cfg)
  {
    hide BytesMatch;
  }

  lemma NoBitCandidate(packed: seq<Byte>, q: seq<Bit>, preamble: seq<Bit>, n: nat, cfg: Config)
    requires Sound(cfg) && n <= |preamble| && 0 < |preamble| <= cfg.preambleSymbols
    requires Packed(packed, q) && |packed| == (cfg.blockSize + cfg.preambleLength + 7) / 8
    requires BitCandidates([], packed, q, preamble, n, cfg)
    ensures forall x: nat :: !(x < cfg.blockSize && Matches(q, preamble, x, cfg.symbolLength))
  {
    hide Packed, Matches, MatchesUpTo, BytesMatch, Sound;
    forall x: nat | x < cfg.blockSize
      ensures !Matches(q, preamble, x, cfg.symbolLength)
    {
      BlockDivisible(cfg);
      assert x !in [];
      MatchesAll(q, preamble, |preamble|, x, cfg.symbolLength);
      assert preamble[..|preamble|] == preamble;
      OffsetsInBuffer(cfg, |preamble| - 1);
      ByteIndex(x, cfg.blockSize, (|preamble| - 1) * (cfg.symbolLength / 8), |packed|);
      if MatchesUpTo(q, preamble, |preamble|, x, cfg.symbolLength) {
        MatchesPrefix(q, preamble, n, |preamble|, x, cfg.symbolLength);
        PruneLosesNothing(packed, q, preamble, |preamble|, x, cfg.symbolLength / 8);
      }
    }
  }

  /** Both offsets stay inside their buffers for every preamble position. */
  lemma OffsetsInBuffer(cfg: Config, p: nat)
    requires Sound(cfg) && p < cfg.preambleSymbols
    ensures p * cfg.symbolLength + cfg.blockSize <= cfg.bufferLength
    ensures p * (cfg.symbolLength / 8) + cfg.blockSize / 8 <= (cfg.blockSize + cfg.preambleLength + 7) / 8
    ensures cfg.symbolLength == 8 * (cfg.symbolLength / 8)
    ensures 8 * ((cfg.blockSize + cfg.preambleLength + 7) / 8) == cfg.blockSize + cfg.preambleLength <= cfg.bufferLength
  {
    var b := cfg.symbolLength / 8;
    assert cfg.symbolLength == 8 * b;
    ByteOffset(p, b);
    ByteOffset(cfg.preambleSymbols, b);
    ByteOffset(cfg.packetSymbols, b);
    ScaleMono(p, cfg.preambleSymbols, b);
    ScaleMono(cfg.preambleSymbols, cfg.packetSymbols, b);
    ByteCounts(p * b, cfg.preambleSymbols * b, cfg.blockSize);
  }

  lemma ByteCounts(offset: nat, preamble: nat, block: nat)
    requires offset <= preamble && block % 8 == 0
    ensures (block + 8 * preamble + 7) / 8 == block / 8 + preamble
    ensures 8 * ((block + 8 * preamble + 7) / 8) == block + 8 * preamble
    ensures offset + block / 8 <= (block + 8 * preamble + 7) / 8
  {
  }

  /** What both phases leave is exactly the set of matches in the first block. */
  lemma CandidatesAreMatches(a: seq<nat>, packed: seq<Byte>, q: seq<Bit>, preamble: seq<Bit>, cfg: Config)
    requires Sound(cfg) && 0 < |preamble| <= cfg.preambleSymbols
    requires Packed(packed, q) && |packed| == (cfg.blockSize + cfg.preambleLength + 7) / 8
    requires BitCandidates(a, packed, q, preamble, |preamble|, cfg)
    ensures forall x: nat :: x in a <==> x < cfg.blockSize && Matches(q, preamble, x, cfg.symbolLength)
  {
    hide Packed, Matches, MatchesUpTo, BytesMatch, Sound;
    forall x: nat
      ensures x in a <==> x < cfg.blockSize && Matches(q, preamble, x, cfg.symbolLength)
    {
      MatchesAll(q, preamble, |preamble|, x, cfg.symbolLength);
      assert preamble[..|preamble|] == preamble;
      OffsetsInBuffer(cfg, |preamble| - 1);
      BlockDivisible(cfg);
      if x < cfg.blockSize && MatchesUpTo(q, preamble, |preamble|, x, cfg.symbolLength) {
        ByteIndex(x, cfg.blockSize, (|preamble| - 1) * (cfg.symbolLength / 8), |packed|);
        PruneLosesNothing(packed, q, preamble, |preamble|, x, cfg.symbolLength / 8);
      }
    }
  }

  lemma ByteIndex(x: nat, size: nat, offset: nat, limit: nat)
    requires x < size && offset + size / 8 <= limit && size % 8 == 0
    ensures x / 8 + offset < limit
  {
  }

  /** An empty candidate list stays empty: there is no match at all. */
  lemma NoByteCandidate(packed: seq<Byte>, q: seq<Bit>, preamble: seq<Bit>, n: nat, cfg: Config)
    requires Sound(cfg) && 0 < n <= |preamble| <= cfg.preambleSymbols
    requires Packed(packed, q) && |packed| == (cfg.blockSize + cfg.preambleLength + 7) / 8
    requires ByteCandidates([], packed, preamble, n, cfg)
    ensures forall x: nat :: !(x < cfg.blockSize && Matches(q, preamble, x, cfg.symbolLength))
  {
    hide Packed, Matches, MatchesUpTo, BytesMatch, Sound;
    forall x: nat | x < cfg.blockSize
      ensures !Matches(q, preamble, x, cfg.symbolLength)
    {
      BlockDivisible(cfg);
      assert x / 8 < cfg.blockSize / 8;
      assert x / 8 !in [];
      MatchesAll(q, preamble, |preamble|, x, cfg.symbolLength);
      assert preamble[..|preamble|] == preamble;
      OffsetsInBuffer(cfg, n - 1);
      ByteIndex(x, cfg.blockSize, (n - 1) * (cfg.symbolLength / 8), |packed|);
      if MatchesUpTo(q, preamble, |preamble|, x, cfg.symbolLength) {
        MatchesPrefix(q, preamble, n, |preamble|, x, cfg.symbolLength);
        PruneLosesNothing(packed, q, preamble, n, x, cfg.symbolLength / 8);
      }
    }
  }

  lemma BlockDivisible(cfg: Config)
    requires Sound(cfg)
    ensures cfg.blockSize % 8 == 0
  {
  }

  /** First search phase: prune whole bytes in which a wanted bit cannot occur. The two lists swap
      roles after every pass. */
  method ByteSearch(q: array<Bit>, packed: array<Byte>, preamble: seq<Bit>, cfg: Config)
    returns (none: bool, sIdxA: seq<nat>, sIdxB: seq<nat>)
    requires Sound(cfg) && 0 < |preamble| <= cfg.preambleSymbols
    requires q.Length == cfg.bufferLength && packed.Length == (cfg.blockSize + cfg.preambleLength + 7) / 8
    requires packed as object != q
    modifies packed
    ensures Packed(packed[..], q[..]) && |sIdxA| <= cfg.blockSize / 8 && |sIdxB| <= cfg.blockSize / 8
    ensures none ==> forall x: nat :: !(x < cfg.blockSize && Matches(q[..], preamble, x, cfg.symbolLength))
    ensures !none ==> ByteCandidates(sIdxA, packed[..], preamble, |preamble|, cfg)
  {
    hide BytesMatch, Matches, Packed, Sound, ByteCandidates;
    var symLenByte := cfg.symbolLength / 8;
    OffsetsInBuffer(cfg, 0);
    Pack(q, packed);
    sIdxB := [];
    sIdxA := FirstPass(Mask(preamble[0]), packed, cfg.blockSize / 8);
    FirstCandidates(sIdxA, packed[..], preamble, cfg);
    var pIdx := 1;
    while pIdx < |preamble|
      invariant 1 <= pIdx <= |preamble| && Packed(packed[..], q[..])
      invariant ByteCandidates(sIdxA, packed[..], preamble, pIdx, cfg)
      invariant |sIdxA| <= cfg.blockSize / 8 && |sIdxB| <= cfg.blockSize / 8
    {
      var offset := pIdx * symLenByte;
      OffsetsInBuffer(cfg, pIdx);
      CandidatesInRange(sIdxA, packed[..], preamble, pIdx, cfg);
      var b := SearchPassByte(Mask(preamble[pIdx]), packed, offset, sIdxA);
      NextCandidates(sIdxA, b, packed[..], preamble, pIdx, cfg);
      sIdxB, sIdxA := sIdxA, b;
      if |sIdxA| == 0 {
        NoByteCandidate(packed[..], q[..], preamble, pIdx + 1, cfg);
        return true, sIdxA, sIdxB;
      }
      pIdx := pIdx + 1;
    }
    return false, sIdxA, sIdxB;
  }

  lemma CandidatesInRange(a: seq<nat>, packed: seq<Byte>, preamble: seq<Bit>, n: nat, cfg: Config)
    requires n <= |preamble| && ByteCandidates(a, packed, preamble, n, cfg)
    ensures Increasing(a) && forall x: nat :: x in a ==> x < cfg.blockSize / 8
  {
  }

  lemma BitCandidatesInRange(a: seq<nat>, packed: seq<Byte>, q: seq<Bit>, preamble: seq<Bit>, n: nat, cfg: Config)
    requires n <= |preamble| && BitCandidates(a, packed, q, preamble, n, cfg)
    ensures Increasing(a) && forall x: nat :: x in a ==> x < cfg.blockSize
  {
  }

  /** Both search phases: every index of the first block at which the preamble occurs, in order. The
      index lists never outgrow the block size they were allocated with. */
  method SearchBuffers(q: array<Bit>, packed: array<Byte>, preamble: seq<Bit>, cfg: Config)
    returns (r: seq<nat>, sIdxA: seq<nat>, sIdxB: seq<nat>)
    requires Sound(cfg) && 0 < |preamble| <= cfg.preambleSymbols
    requires q.Length == cfg.bufferLength && packed.Length == (cfg.blockSize + cfg.preambleLength + 7) / 8
    requires packed as object != q
    modifies packed
    ensures Increasing(r) && |sIdxA| <= cfg.blockSize && |sIdxB| <= cfg.blockSize
    ensures forall x: nat :: x in r <==> x < cfg.blockSize && Matches(q[..], preamble, x, cfg.symbolLength)
  {
    hide BytesMatch, Matches, Packed, MatchesUpTo, Sound, ByteCandidates, BitCandidates;
    BlockDivisible(cfg);
    var none;
    none, sIdxA, sIdxB := ByteSearch(q, packed, preamble, cfg);
    if none {
      return [], sIdxA, sIdxB;
    }
    CandidatesInRange(sIdxA, packed[..], preamble, |preamble|, cfg);
    var b := Expand(sIdxA);
    FirstBits(sIdxA, b, packed[..], q[..], preamble, cfg);
    sIdxA, sIdxB := b, sIdxA;
    var pIdx := 0;
    while pIdx < |preamble|
      invariant 0 <= pIdx <= |preamble| && Packed(packed[..], q[..])
      invariant BitCandidates(sIdxA, packed[..], q[..], preamble, pIdx, cfg)
      invariant |sIdxA| <= cfg.blockSize && |sIdxB| <= cfg.blockSize
    {
      OffsetsInBuffer(cfg, pIdx);
      BitCandidatesInRange(sIdxA, packed[..], q[..], preamble, pIdx, cfg);
      b := SearchPass(preamble[pIdx], q, pIdx * cfg.symbolLength, sIdxA);
      NextBits(sIdxA, b, packed[..], q[..], preamble, pIdx, cfg);
      sIdxB, sIdxA := sIdxA, b;
      if |sIdxA| == 0 {
        NoBitCandidate(packed[..], q[..], preamble, pIdx + 1, cfg);
        return [], sIdxA, sIdxB;
      }
      pIdx := pIdx + 1;
    }
    BitCandidatesInRange(sIdxA, packed[..], q[..], preamble, |preamble|, cfg);
    CandidatesAreMatches(sIdxA, packed[..], q[..], preamble, cfg);
    return sIdxA, sIdxA, sIdxB;
  }

  function PreambleBits(s: string): (r: seq<Bit>)
    ensures |r| == |s|
  {
    seq(|s|, i requires 0 <= i < |s| => if s[i] == '1' then 1 else 0)
  }

  /** A one for every character '1', a zero for every other. */
  lemma PreambleBit(s: string, i: nat)
    requires i < |s|
    ensures PreambleBits(s)[i] == 1 <==> s[i] == '1'
  {
  }

  // The sync words of the shipped parsers: 0x1F2A60 in 21 bits, 0x16A3 in 16, 0x555516A3 and 0x0000E564 in 32.

  function ScmSync(): seq<Bit> {
    [1, 1, 1, 1, 1, 0, 0, 1, 0, 1, 0, 1, 0, 0, 1, 1, 0, 0, 0, 0, 0]
  }

  function ScmPlusSync(): seq<Bit> {
    [0, 0, 0, 1, 0, 1, 1, 0, 1, 0, 1, 0, 0, 0, 1, 1]
  }

  function IdmSync(): seq<Bit> {
    [0, 1, 0, 1, 0, 1, 0, 1, 0, 1, 0, 1, 0, 1, 0, 1, 0, 0, 0, 1, 0, 1, 1, 0, 1, 0, 1, 0, 0, 0, 1, 1]
  }

  function R900Sync(): seq<Bit> {
    [0, 0, 0, 0, 0, 0, 0, 0, 0, 0, 0, 0, 0, 0, 0, 0, 1, 1, 1, 0, 0, 1, 0, 1, 0, 1, 1, 0, 0, 1, 0, 0]
  }

  /** What the SCM preamble text stands for. */
  lemma ScmSyncWord(chip: nat)
    ensures PreambleBits(ScmCfg(chip).preamble) == ScmSync() == [1, 1, 1, 1, 1, 0, 0, 1, 0, 1, 0, 1, 0, 0, 1, 1, 0, 0, 0, 0, 0]
  {
    var r, l := PreambleBits(ScmCfg(chip).preamble), ScmSync();
    assert |r| == |l|;
    forall i | 0 <= i < |l|
      ensures r[i] == l[i]
    {
    }
  }

  /** What the SCM+ preamble text stands for. */
  lemma ScmPlusSyncWord(chip: nat)
    ensures PreambleBits(ScmPlusCfg(chip).preamble) == ScmPlusSync() == [0, 0, 0, 1, 0, 1, 1, 0, 1, 0, 1, 0, 0, 0, 1, 1]
  {
    var r, l := PreambleBits(ScmPlusCfg(chip).preamble), ScmPlusSync();
    assert |r| == |l|;
    forall i | 0 <= i < |l|
      ensures r[i] == l[i]
    {
    }
  }

  /** What the IDM preamble text stands for. */
  lemma IdmSyncWord(chip: nat)
    ensures PreambleBits(IdmCfg(chip).preamble) == IdmSync() == [0, 1, 0, 1, 0, 1, 0, 1, 0, 1, 0, 1, 0, 1, 0, 1, 0, 0, 0, 1, 0, 1, 1, 0, 1, 0, 1, 0, 0, 0, 1, 1]
  {
    var r, l := PreambleBits(IdmCfg(chip).preamble), IdmSync();
    assert |r| == |l|;
    forall i | 0 <= i < |l|
      ensures r[i] == l[i]
    {
    }
  }

  /** What the R900 preamble text stands for. */
  lemma R900SyncWord(chip: nat)
    ensures PreambleBits(R900Cfg(chip).preamble) == R900Sync() == [0, 0, 0, 0, 0, 0, 0, 0, 0, 0, 0, 0, 0, 0, 0, 0, 1, 1, 1, 0, 0, 1, 0, 1, 0, 1, 1, 0, 0, 1, 0, 0]
  {
    var r, l := PreambleBits(R900Cfg(chip).preamble), R900Sync();
    assert |r| == |l|;
    forall i | 0 <= i < |l|
      ensures r[i] == l[i]
    {
    }
  }

  function AddParser(m: map<seq<Bit>, seq<ParserCfg>>, p: ParserCfg): map<seq<Bit>, seq<ParserCfg>> {
    var bits := PreambleBits(p.preamble);
    m[bits := (if bits in m then m[bits] else []) + [p]]
  }

  /** Freshly allocated buffers are those of the empty stream. */
  lemma EmptyStream(cfg: Config, signal: seq<int>, quantized: seq<Bit>)
    requires |signal| == cfg.blockSize + cfg.symbolLength && |quantized| == cfg.bufferLength
    requires (forall i :: 0 <= i < |signal| ==> signal[i] == 0)
    requires (forall i :: 0 <= i < |quantized| ==> quantized[i] == 0)
    ensures signal == History([], |signal|)
    ensures quantized == DecisionBuffer([], cfg.chipLength, |quantized|)
  {
    assert Decisions([], cfg.chipLength) == [];
    assert Quiet(|quantized|) + [] == Quiet(|quantized|);
    assert Quiet(|signal|) + [] == Quiet(|signal|);
  }

  lemma Lengths(cfg: Config)
    requires Sound(cfg)
    ensures cfg.symbolLength == 2 * cfg.chipLength && cfg.bufferLength == cfg.packetLength + cfg.blockSize
  {
  }

  /** A buffer whose front was shifted down and whose back was overwritten. */
  lemma BlockShift<T>(before: seq<T>, after: seq<T>, keep: nat, block: seq<T>)
    requires |before| == |after| == keep + |block|
    requires after[..keep] == before[|block|..] && after[keep..] == block
    ensures after == before[|block|..] + block
  {
  }

  lemma SlicedBatch(pkts: seq<Data>, indices: seq<nat>, q: seq<Bit>, preamble: seq<Bit>, cfg: Config)
    requires Increasing(indices)
    requires forall x: nat :: x in indices <==> x < cfg.blockSize && Matches(q, preamble, x, cfg.symbolLength)
    requires Indices(pkts) == Kept(indices, cfg.blockSize)
    requires forall k :: 0 <= k < |pkts| ==> PacketAt(pkts[k], q, cfg)
    ensures BatchOf(pkts, q, preamble, cfg)
  {
    hide Matches, PacketAt, Kept, Indices, Increasing;
    forall i | 0 <= i < |indices|
      ensures indices[i] <= cfg.blockSize
    {
      assert indices[i] in indices;
    }
    KeptAll(indices, cfg.blockSize);
  }

  /** Separate, zeroed buffers of the configured sizes. */
  ghost predicate Zeroed(cfg: Config, signal: array<int>, quantized: array<Bit>, csum: array<int>,
                         pkt: array<Byte>, packed: array<Byte>)
    reads signal, quantized, csum
  {
    && signal.Length == cfg.blockSize + cfg.symbolLength && quantized.Length == cfg.bufferLength
    && csum.Length == signal.Length + 1 && csum[0] == 0
    && pkt.Length == (cfg.packetSymbols + 7) / 8
    && packed.Length == (cfg.blockSize + cfg.preambleLength + 7) / 8
    && signal != csum && pkt != packed
    && quantized as object != signal && quantized as object != csum
    && quantized as object != pkt && quantized as object != packed
    && pkt as object != signal && pkt as object != csum
    && packed as object != signal && packed as object != csum
    && (forall i :: 0 <= i < signal.Length ==> signal[..][i] == 0)
    && (forall i :: 0 <= i < quantized.Length ==> quantized[..][i] == 0)
  }

  method AllocateBuffers(cfg: Config)
    returns (signal: array<int>, quantized: array<Bit>, csum: array<int>, pkt: array<Byte>, packed: array<Byte>)
    ensures fresh(signal) && fresh(quantized) && fresh(csum) && fresh(pkt) && fresh(packed)
    ensures Zeroed(cfg, signal, quantized, csum, pkt, packed)
  {
    signal := new int[cfg.blockSize + cfg.symbolLength](_ => 0);
    quantized := new Bit[cfg.bufferLength](_ => 0);
    csum := new int[signal.Length + 1](_ => 0);
    pkt := new Byte[(cfg.packetSymbols + 7) / 8](_ => 0);
    packed := new Byte[(cfg.blockSize + cfg.preambleLength + 7) / 8](_ => 0);
  }

  /** The buffers hold the end of the stream s and of its one-pass decisions. */
  ghost predicate BuffersTrack(cfg: Config, signal: seq<int>, quantized: seq<Bit>, s: seq<int>) {
    && signal == History(s, cfg.blockSize + cfg.symbolLength)
    && quantized == DecisionBuffer(s, cfg.chipLength, cfg.bufferLength)
  }

  lemma TracksNothing(cfg: Config, signal: array<int>, quantized: array<Bit>)
    requires signal.Length == cfg.blockSize + cfg.symbolLength && quantized.Length == cfg.bufferLength
    requires forall i :: 0 <= i < signal.Length ==> signal[..][i] == 0
    requires forall i :: 0 <= i < quantized.Length ==> quantized[..][i] == 0
    ensures BuffersTrack(cfg, signal[..], quantized[..], [])
  {
    hide History, DecisionBuffer;
    EmptyStream(cfg, signal[..], quantized[..]);
  }

  /** The first part of Decode: after it the buffers are those of the longer stream. */
  method Demodulate(lut: seq<int>, signal: array<int>, quantized: array<Bit>, csum: array<int>,
                    cfg: Config, input: seq<Byte>, ghost s: seq<int>)
    requires cfg.symbolLength == 2 * cfg.chipLength && cfg.bufferLength == cfg.packetLength + cfg.blockSize
    requires signal.Length == cfg.blockSize + cfg.symbolLength && quantized.Length == cfg.bufferLength
    requires csum.Length == signal.Length + 1 && csum[0] == 0
    requires IsMagLUT(lut)
    requires signal != csum && quantized as object != signal && quantized as object != csum
    requires 2 * cfg.blockSize <= |input|
    requires BuffersTrack(cfg, signal[..], quantized[..], s)
    modifies signal, quantized, csum
    ensures BuffersTrack(cfg, signal[..], quantized[..], s + Power(input, cfg.blockSize))
    ensures csum[0] == 0
  {
    hide Power, FilterAll, BuffersTrack, IsMagLUT;
    ghost var signal0, quantized0 := signal[..], quantized[..];
    Receive(lut, signal, input, cfg.symbolLength);
    Requantize(signal, csum, quantized, cfg.packetLength, cfg.chipLength);
    BuffersAdvance(cfg, signal0, quantized0, s, Power(input, cfg.blockSize));
  }

  lemma BuffersAdvance(cfg: Config, signal: seq<int>, quantized: seq<Bit>, s: seq<int>, block: seq<int>)
    requires cfg.symbolLength == 2 * cfg.chipLength && cfg.bufferLength == cfg.packetLength + cfg.blockSize
    requires BuffersTrack(cfg, signal, quantized, s) && |block| == cfg.blockSize
    ensures |signal| >= |block| && |quantized| >= |block|
    ensures var signal' := signal[|block|..] + block;
            |signal'| >= 2 * cfg.chipLength
            && BuffersTrack(cfg, signal', quantized[|block|..] + FilterAll(signal', cfg.chipLength), s + block)
  {
    hide FilterAll, History, DecisionBuffer;
    HistoryStep(s, cfg.blockSize + cfg.symbolLength, block);
    BlockStep(s, cfg.chipLength, cfg.bufferLength, block);
  }

  /** The sample buffer moves on by one block. */
  method Receive(lut: seq<int>, signal: array<int>, input: seq<Byte>, keep: nat)
    requires IsMagLUT(lut)
    requires keep <= signal.Length && 2 * (signal.Length - keep) <= |input|
    modifies signal
    ensures signal[..] == old(signal[..])[signal.Length - keep..] + Power(input, signal.Length - keep)
  {
    hide Power, IsMagLUT;
    ghost var before := signal[..];
    var size := signal.Length - keep;
    ShiftDown(signal, size);
    assert signal[..keep] == before[size..];
    Execute(lut, input, signal, keep);
    BlockShift(before, signal[..], keep, Power(input, size));
  }

  /** The decision buffer moves on by one block. */
  method Requantize(signal: array<int>, csum: array<int>, quantized: array<Bit>, keep: nat, chip: nat)
    requires csum.Length == signal.Length + 1 && csum != signal && csum[0] == 0
    requires keep <= quantized.Length && quantized.Length - keep + 2 * chip == signal.Length
    requires quantized as object != csum && quantized as object != signal
    modifies csum, quantized
    ensures csum[0] == 0
    ensures quantized[..] == old(quantized[..])[quantized.Length - keep..] + FilterAll(signal[..], chip)
  {
    hide FilterAll;
    ghost var before := quantized[..];
    ShiftDown(quantized, quantized.Length - keep);
    assert quantized[..keep] == before[quantized.Length - keep..];
    Filter(signal, csum, quantized, keep, chip);
    BlockShift(before, quantized[..], keep, FilterAll(signal[..], chip));
  }

  /** What the search relies on: symbols of whole bytes, and non-empty preambles no longer than the longest. */
  ghost predicate Receivable(cfg: Config, preambles: map<seq<Bit>, seq<ParserCfg>>) {
    && cfg.chipLength > 0 && cfg.chipLength % 4 == 0 && 0 < cfg.preambleSymbols <= cfg.packetSymbols
    && forall p :: p in preambles ==> 0 < |p| <= cfg.preambleSymbols
  }

  lemma ReceivableIsSound(cfg: Config, preambles: map<seq<Bit>, seq<ParserCfg>>)
    requires Receivable(cfg, preambles)
    ensures Sound(Allocated(cfg)) && forall p :: p in preambles ==> 0 < |p| <= Allocated(cfg).preambleSymbols
  {
    hide Sound;
    AllocatedIsSound(cfg);
  }

  class Decoder {
    var cfg: Config
    var preambles: map<seq<Bit>, seq<ParserCfg>>

    var signal: array<int>
    var quantized: array<Bit>
    var csum: array<int>
    var lut: seq<int>
    var pkt: array<Byte>
    var packed: array<Byte>
    var sIdxA: seq<nat>
    var sIdxB: seq<nat>

    /** Buffers have their allocated sizes and do not overlap; the index lists fit their capacity. */
    ghost predicate Layout()
      reads this
    {
      && Sound(cfg)
      && signal.Length == cfg.blockSize + cfg.symbolLength && quantized.Length == cfg.bufferLength
      && csum.Length == signal.Length + 1
      && IsMagLUT(lut)
      && pkt.Length == (cfg.packetSymbols + 7) / 8
      && packed.Length == (cfg.blockSize + cfg.preambleLength + 7) / 8
      && signal != csum && pkt != packed
      && quantized as object != signal && quantized as object != csum
      && quantized as object != pkt && quantized as object != packed
      && pkt as object != signal && pkt as object != csum && packed as object != signal && packed as object != csum
      && |sIdxA| <= cfg.blockSize && |sIdxB| <= cfg.blockSize
      && forall p :: p in preambles ==> 0 < |p| <= cfg.preambleSymbols
    }

    ghost predicate Valid()
      reads this, csum
    {
      Layout() && csum[0] == 0
    }

    /** The buffers hold the end of this sample stream and of its one-pass decisions. */
    ghost predicate Tracks(s: seq<int>)
      reads this, signal, quantized, csum
    {
      Valid() && BuffersTrack(cfg, signal[..], quantized[..], s)
    }

    constructor ()
      ensures cfg == INITIAL && preambles == map[]
    {
      cfg, preambles := INITIAL, map[];
      signal, quantized, csum, lut := new int[0], new Bit[0], new int[0], [];
      pkt, packed := new Byte[0], new Byte[0];
      sIdxA, sIdxB := [], [];
    }

    /** Registers a parser under its preamble; parsers with equal preambles share the candidates. */
    method RegisterProtocol(p: ParserCfg)
      modifies `cfg, `preambles
      ensures cfg == Registered(old(cfg), p)
      ensures preambles == AddParser(old(preambles), p)
    {
      cfg := cfg.(centerFreq := p.centerFreq,
                  dataRate := Max(cfg.dataRate, p.dataRate),
                  chipLength := Max(cfg.chipLength, p.chipLength),
                  preambleSymbols := Max(cfg.preambleSymbols, p.preambleSymbols),
                  packetSymbols := Max(cfg.packetSymbols, p.packetSymbols));
      var bits: seq<Bit> := [];
      var idx := 0;
      while idx < |p.preamble|
        invariant 0 <= idx <= |p.preamble| && bits == PreambleBits(p.preamble)[..idx]
      {
        bits := bits + [if p.preamble[idx] == '1' then 1 else 0];
        idx := idx + 1;
      }
      assert bits == PreambleBits(p.preamble);
      preambles := preambles[bits := (if bits in preambles then preambles[bits] else []) + [p]];
    }

    /** Derives the lengths and allocates all buffers. If a symbol is a whole number of bytes of decisions
        and every preamble fits, the decoder is ready and has received nothing. */
    method Allocate()
      requires cfg.chipLength > 0 && cfg.preambleSymbols > 0
      modifies this
      ensures cfg == Allocated(old(cfg)) && preambles == old(preambles)
      ensures signal.Length == cfg.blockSize + cfg.symbolLength && quantized.Length == cfg.bufferLength
      ensures Receivable(old(cfg), preambles) ==> Tracks([])
      ensures fresh(signal) && fresh(quantized) && fresh(csum) && fresh(pkt) && fresh(packed)
    {
      hide *;
      ghost var settings := cfg;
      var table := NewMagLUT();
      var sig, quant, sums, pk, pd := AllocateBuffers(Allocated(cfg));
      cfg, lut, sIdxA, sIdxB := Allocated(cfg), table, [], [];
      signal, quantized, csum, pkt, packed := sig, quant, sums, pk, pd;
      Ready(settings);
    }

    lemma Ready(settings: Config)
      requires settings.chipLength > 0 && settings.preambleSymbols > 0 && cfg == Allocated(settings)
      requires IsMagLUT(lut) && sIdxA == [] && sIdxB == []
      requires Zeroed(cfg, signal, quantized, csum, pkt, packed)
      ensures signal.Length == cfg.blockSize + cfg.symbolLength && quantized.Length == cfg.bufferLength
      ensures Receivable(settings, preambles) ==> Tracks([])
    {
      hide Sound, IsMagLUT, Allocated, Receivable, BuffersTrack;
      if Receivable(settings, preambles) {
        ReceivableIsSound(settings, preambles);
        TracksNothing(cfg, signal, quantized);
      }
    }

    /** Takes in one block: shifts the buffers, demodulates the block, and returns for every registered
        preamble the candidate packets of the oldest block in the buffer. */
    method Decode(input: seq<Byte>, ghost s: seq<int>) returns (batches: map<seq<Bit>, seq<Data>>)
      requires Tracks(s) && 2 * cfg.blockSize <= |input|
      modifies signal, quantized, csum, pkt, packed, `sIdxA, `sIdxB
      ensures Tracks(s + Power(input, cfg.blockSize))
      ensures batches.Keys == preambles.Keys
      ensures forall p :: p in preambles ==> BatchOf(batches[p], quantized[..], p, cfg)
    {
      hide BatchOf, Valid, Tracks, Power;
      TakeBlock(input, s);
      ghost var s' := s + Power(input, cfg.blockSize);
      batches := map[];
      var todo := preambles.Keys;
      while todo != {}
        invariant Tracks(s')
        invariant todo <= preambles.Keys && batches.Keys == preambles.Keys - todo
        invariant forall p :: p in batches ==> BatchOf(batches[p], quantized[..], p, cfg)
        decreases todo
      {
        var p :| p in todo;
        var pkts := Candidates(p, s');
        batches := batches[p := pkts];
        todo := todo - {p};
      }
    }

    /** Demodulation of one block, on this decoder's buffers. */
    method TakeBlock(input: seq<Byte>, ghost s: seq<int>)
      requires Tracks(s) && 2 * cfg.blockSize <= |input|
      modifies signal, quantized, csum
      ensures Tracks(s + Power(input, cfg.blockSize))
    {
      Lengths(cfg);
      assert signal != csum && quantized as object != signal && quantized as object != csum && IsMagLUT(lut);
      assert signal.Length == cfg.blockSize + cfg.symbolLength && quantized.Length == cfg.bufferLength;
      assert csum.Length == signal.Length + 1;
      hide Layout, Sound, Power, BuffersTrack, IsMagLUT;
      Demodulate(lut, signal, quantized, csum, cfg, input, s);
    }

    /** The packets of one preamble in the oldest block of the buffer. */
    method Candidates(p: seq<Bit>, ghost s: seq<int>) returns (pkts: seq<Data>)
      requires Tracks(s) && p in preambles
      modifies pkt, packed, `sIdxA, `sIdxB
      ensures Tracks(s) && quantized[..] == old(quantized[..])
      ensures BatchOf(pkts, quantized[..], p, cfg)
    {
      hide BatchOf, Sound, BuffersTrack, IsMagLUT, Matches, PacketAt;
      ghost var q := quantized[..];
      var indices := Search(p);
      assert quantized[..] == q;
      pkts := Slice(quantized, pkt, indices, cfg);
      SlicedBatch(pkts, indices, q, p, cfg);
    }

    /** Indices in the first block at which the preamble occurs: all of them, in order. */
    method Search(preamble: seq<Bit>) returns (r: seq<nat>)
      requires Valid() && 0 < |preamble| <= cfg.preambleSymbols
      modifies packed, `sIdxA, `sIdxB
      ensures Valid() && Increasing(r)
      ensures forall x: nat :: x in r <==> x < cfg.blockSize && Matches(quantized[..], preamble, x, cfg.symbolLength)
    {
      hide Matches;
      r, sIdxA, sIdxB := SearchBuffers(quantized, packed, preamble, cfg);
    }
  }

  // ----- whole runs -----

  /** Samples taken in after n blocks. */
  function Taken(cfg: Config, n: nat): nat {
    n * cfg.blockSize
  }

  /** Position, in the decision sequence of the stream, of index i of the buffer after n blocks. */
  function Position(cfg: Config, n: nat, i: nat): int {
    Taken(cfg, n) - cfg.bufferLength + i
  }

  /** The number of blocks after which position t lies in the searched part of the buffer. */
  function CallFor(cfg: Config, t: nat): nat
    requires cfg.blockSize > 0
  {
    (t + cfg.bufferLength) / cfg.blockSize
  }

  /** Exactly-once coverage: every position of the stream is a search start in exactly one call, and the
      whole packet from there on is then in the buffer. */
  lemma ExactlyOnce(cfg: Config, t: nat, n: nat)
    requires Sound(cfg)
    ensures var c := CallFor(cfg, t);
            && 0 <= t - Position(cfg, c, 0) < cfg.blockSize
            && At(t - Position(cfg, c, 0), cfg.packetSymbols - 1, cfg.symbolLength) < cfg.bufferLength
    ensures 0 <= t - Position(cfg, n, 0) < cfg.blockSize ==> n == CallFor(cfg, t)
  {
    ScaleMono(1, cfg.preambleSymbols, cfg.symbolLength);
    var m, c := t + cfg.bufferLength, CallFor(cfg, t);
    QuotientBounds(m, cfg.blockSize, n);
    PacketInBuffer(cfg, t - Position(cfg, c, 0));
  }

  lemma QuotientBounds(m: nat, d: nat, n: nat)
    requires d > 0
    ensures 0 <= m - (m / d) * d < d
    ensures 0 <= m - n * d < d ==> n == m / d
  {
    if 0 <= m - n * d < d {
      var q := m / d;
      if n < q {
        ScaleMono(n + 1, q, d);
      } else if n > q {
        ScaleMono(q + 1, n, d);
      }
    }
  }

  /** A symbol whose on chip outweighs its off chip: the first chip is on for a one. */
  ghost predicate SymbolSent(s: seq<int>, at: nat, bit: Bit, chip: nat)
    requires at + 2 * chip <= |s|
  {
    var first, second := Sum(s[at..at + chip]), Sum(s[at + chip..at + 2 * chip]);
    if bit == 1 then first > second else first < second
  }

  /** The bits are sent, one symbol each, from sample a on. */
  ghost predicate Sent(s: seq<int>, a: nat, bits: seq<Bit>, chip: nat) {
    forall p :: 0 <= p < |bits| ==>
      At(a, p, 2 * chip) + 2 * chip <= |s| && SymbolSent(s, At(a, p, 2 * chip), bits[p], chip)
  }

  /** A clean transmission is one: the carrier is on in the first chip of a one and in the second chip of a zero, and
      off in the other. */
  lemma WaveformSent(s: seq<int>, a: nat, bits: seq<Bit>, chip: nat, level: int)
    requires chip > 0 && level > 0
    requires forall p :: 0 <= p < |bits| ==>
               && ChipWritten(s, At(a, p, 2 * chip), chip, if bits[p] == 1 then level else 0)
               && ChipWritten(s, At(a, p, 2 * chip) + chip, chip, if bits[p] == 1 then 0 else level)
    ensures Sent(s, a, bits, chip)
  {
    hide Sum, At, SymbolSent, ChipWritten;
    forall p | 0 <= p < |bits|
      ensures At(a, p, 2 * chip) + 2 * chip <= |s| && SymbolSent(s, At(a, p, 2 * chip), bits[p], chip)
    {
      CleanSymbol(s, At(a, p, 2 * chip), bits[p], chip, level);
    }
  }

  lemma CleanSymbol(s: seq<int>, at: nat, bit: Bit, chip: nat, level: int)
    requires chip > 0 && level > 0
    requires ChipWritten(s, at, chip, if bit == 1 then level else 0)
    requires ChipWritten(s, at + chip, chip, if bit == 1 then 0 else level)
    ensures at + 2 * chip <= |s| && SymbolSent(s, at, bit, chip)
  {
    hide Sum;
    ConstantSum(s[at..at + chip], if bit == 1 then level else 0);
    ConstantSum(s[at + chip..at + 2 * chip], if bit == 1 then 0 else level);
    ScaleMono(1, chip, level);
  }

  /** The decision one symbol after the start of a sent symbol is its bit. */
  lemma DecisionOfSymbol(s: seq<int>, n: nat, at: nat, bit: Bit, chip: nat)
    requires n <= |s| && at + 2 * chip < n && SymbolSent(s, at, bit, chip)
    ensures Decisions(s[..n], chip)[at + 2 * chip] == bit
  {
    hide Sum;
    var x := Quiet(2 * chip) + s[..n];
    assert x[at + 2 * chip..at + 4 * chip] == s[at..at + 2 * chip];
    DecideLocal(x, at + 2 * chip, s, at, chip);
  }

  /** Buffer entries that lie in the stream are decisions of the stream. */
  lemma BufferEntry(s: seq<int>, chip: nat, n: nat, j: nat)
    requires j < n <= |s| + j
    ensures DecisionBuffer(s, chip, n)[j] == Decisions(s, chip)[|s| - n + j]
  {
    hide Decisions;
  }

  /** Once size samples have been taken in, index i of the buffer is where the packet starts. */
  ghost predicate StartsAt(cfg: Config, size: nat, i: nat, a: nat) {
    i < cfg.blockSize && size + i == a + cfg.symbolLength + cfg.bufferLength
  }

  lemma AtInBuffer(cfg: Config, i: nat, p: nat)
    requires Sound(cfg) && i <= cfg.blockSize && p < cfg.packetSymbols
    ensures At(i, p, cfg.symbolLength) < cfg.bufferLength && cfg.symbolLength == 2 * cfg.chipLength
  {
    ScaleMono(p, cfg.packetSymbols - 1, cfg.symbolLength);
    PacketInBuffer(cfg, i);
  }

  /** Every symbol of a sent packet is decided right in the buffer of its call. */
  lemma SentInBuffer(s: seq<int>, a: nat, bits: seq<Bit>, cfg: Config, size: nat, i: nat, p: nat)
    requires Sound(cfg) && Sent(s, a, bits, cfg.chipLength) && p < |bits| <= cfg.packetSymbols
    requires size <= |s| && StartsAt(cfg, size, i, a)
    ensures At(i, p, cfg.symbolLength) < cfg.bufferLength
    ensures DecisionBuffer(s[..size], cfg.chipLength, cfg.bufferLength)[At(i, p, cfg.symbolLength)] == bits[p]
  {
    hide Sound, SymbolSent, DecisionBuffer, Decisions, At;
    AtInBuffer(cfg, i, p);
    var at := At(a, p, cfg.symbolLength);
    assert SymbolSent(s, at, bits[p], cfg.chipLength);
    hide Sent;
    AtShift(i, size, p, cfg.symbolLength);
    AtShift(a, cfg.symbolLength + cfg.bufferLength, p, cfg.symbolLength);
    BufferEntry(s[..size], cfg.chipLength, cfg.bufferLength, At(i, p, cfg.symbolLength));
    DecisionOfSymbol(s, size, at, bits[p], cfg.chipLength);
  }

  lemma PreambleOccurs(s: seq<int>, a: nat, bits: seq<Bit>, preamble: seq<Bit>, cfg: Config, size: nat, i: nat)
    requires Sound(cfg) && Sent(s, a, bits, cfg.chipLength) && |bits| <= cfg.packetSymbols && preamble <= bits
    requires size <= |s| && StartsAt(cfg, size, i, a)
    ensures Matches(DecisionBuffer(s[..size], cfg.chipLength, cfg.bufferLength), preamble, i, cfg.symbolLength)
  {
    hide Sent, DecisionBuffer, Sound, StartsAt, At;
    var q := DecisionBuffer(s[..size], cfg.chipLength, cfg.bufferLength);
    forall p | 0 <= p < |preamble|
      ensures At(i, p, cfg.symbolLength) < |q| && q[At(i, p, cfg.symbolLength)] == preamble[p]
    {
      assert preamble[p] == bits[p];
      SentInBuffer(s, a, bits, cfg, size, i, p);
    }
  }

  /** The bits that whole bytes of a packet hold of n sent bits. */
  function WholeBits(cfg: Config, n: nat): nat {
    if n < 8 * (cfg.packetSymbols / 8) then n else 8 * (cfg.packetSymbols / 8)
  }

  /** d carries the sent bits, as far as they fit into whole bytes. */
  ghost predicate Carries(d: Data, bits: seq<Bit>, cfg: Config) {
    var m := WholeBits(cfg, |bits|);
    m <= |d.bits| && d.bits[..m] == bits[..m]
  }

  lemma SentSampled(s: seq<int>, a: nat, bits: seq<Bit>, cfg: Config, size: nat, d: Data)
    requires Sound(cfg) && Sent(s, a, bits, cfg.chipLength) && |bits| <= cfg.packetSymbols
    requires size <= |s| && StartsAt(cfg, size, d.idx, a)
    requires PacketAt(d, DecisionBuffer(s[..size], cfg.chipLength, cfg.bufferLength), cfg)
    ensures Carries(d, bits, cfg)
  {
    assert cfg.packetSymbols > 0;
    var q := DecisionBuffer(s[..size], cfg.chipLength, cfg.bufferLength);
    hide Sent, DecisionBuffer, Sound, StartsAt, At;
    forall p | 0 <= p < |bits|
      ensures At(d.idx, p, cfg.symbolLength) < |q| && q[At(d.idx, p, cfg.symbolLength)] == bits[p]
    {
      SentInBuffer(s, a, bits, cfg, size, d.idx, p);
    }
    SampledIs(q, d, bits, cfg);
  }

  lemma SampledIs(q: seq<Bit>, d: Data, bits: seq<Bit>, cfg: Config)
    requires PacketAt(d, q, cfg) && |bits| <= cfg.packetSymbols && cfg.packetSymbols > 0
    requires forall p :: 0 <= p < |bits| ==> At(d.idx, p, cfg.symbolLength) < |q| && q[At(d.idx, p, cfg.symbolLength)] == bits[p]
    ensures Carries(d, bits, cfg)
  {
    hide BytesToBits, At;
    var sampled, n, m := Sampled(q, d.idx, cfg.packetSymbols, cfg.symbolLength), 8 * (cfg.packetSymbols / 8), WholeBits(cfg, |bits|);
    assert |BytesToBits(d.bytes)| >= n;
    hide Sampled;
    forall p | 0 <= p < m
      ensures d.bits[p] == bits[p]
    {
      assert d.bits[..n][p] == sampled[..n][p];
    }
  }

  /** The batch lists index i exactly once, with the sent bits. */
  ghost predicate Delivered(batch: seq<Data>, i: nat, bits: seq<Bit>, cfg: Config) {
    exists k :: 0 <= k < |batch| && batch[k].idx == i && Carries(batch[k], bits, cfg)
                && forall l :: 0 <= l < |batch| && l != k ==> batch[l].idx != i
  }

  /** In the call whose searched block holds the start of the packet, the packet is delivered. */
  lemma DeliveredInCall(s: seq<int>, a: nat, bits: seq<Bit>, preamble: seq<Bit>, cfg: Config,
                        size: nat, i: nat, batch: seq<Data>)
    requires Sound(cfg) && Sent(s, a, bits, cfg.chipLength) && |bits| <= cfg.packetSymbols
    requires preamble <= bits && size <= |s| && StartsAt(cfg, size, i, a)
    requires BatchOf(batch, DecisionBuffer(s[..size], cfg.chipLength, cfg.bufferLength), preamble, cfg)
    ensures Delivered(batch, i, bits, cfg)
  {
    assert i < cfg.blockSize;
    hide At, Sent, DecisionBuffer, Sound, Matches, PacketAt, Carries, StartsAt;
    PreambleOccurs(s, a, bits, preamble, cfg, size, i);
    assert i in Indices(batch);
    var k :| 0 <= k < |batch| && Indices(batch)[k] == i;
    SentSampled(s, a, bits, cfg, size, batch[k]);
    forall l | 0 <= l < |batch| && l != k
      ensures batch[l].idx != i
    {
      assert Indices(batch)[l] == batch[l].idx;
    }
  }

  lemma InFirstBlock(batch: seq<Data>, q: seq<Bit>, preamble: seq<Bit>, cfg: Config, k: nat)
    requires BatchOf(batch, q, preamble, cfg) && k < |batch|
    ensures batch[k].idx < cfg.blockSize
  {
    hide PacketAt, Matches;
    assert Indices(batch)[k] in Indices(batch);
  }

  /** Call n delivers the packet that starts at position t if it is the call for t, and otherwise does not
      list t at all. */
  ghost predicate LinkHolds(batch: seq<Data>, cfg: Config, n: nat, t: nat, bits: seq<Bit>)
    requires cfg.blockSize > 0
  {
    if n == CallFor(cfg, t)
    then Position(cfg, n, 0) <= t && Delivered(batch, t - Position(cfg, n, 0), bits, cfg)
    else forall k :: 0 <= k < |batch| ==> Position(cfg, n, batch[k].idx) != t
  }

  /** What call n of Decode returns for a preamble, over the stream s. */
  ghost predicate BatchOfCall(batch: seq<Data>, s: seq<int>, n: nat, preamble: seq<Bit>, cfg: Config) {
    Taken(cfg, n) <= |s|
    && BatchOf(batch, DecisionBuffer(s[..Taken(cfg, n)], cfg.chipLength, cfg.bufferLength), preamble, cfg)
  }

  lemma BlockPositive(cfg: Config)
    requires Sound(cfg)
    ensures cfg.blockSize > 0
  {
    ScaleMono(1, cfg.preambleSymbols, cfg.symbolLength);
  }

  /** Link theorem. A packet of at most PacketSymbols bits sent anywhere in the stream is delivered, with the
      sent bits, by exactly one call of Decode, whatever the block boundaries and whatever follows the packet;
      no other call lists its position. */
  lemma LinkTheorem(s: seq<int>, a: nat, bits: seq<Bit>, preamble: seq<Bit>, cfg: Config, n: nat, batch: seq<Data>)
    requires Sound(cfg) && Sent(s, a, bits, cfg.chipLength) && |bits| <= cfg.packetSymbols && preamble <= bits
    requires BatchOfCall(batch, s, n, preamble, cfg)
    ensures cfg.blockSize > 0 && LinkHolds(batch, cfg, n, a + cfg.symbolLength, bits)
  {
    hide BatchOf, Sound, Taken, At, Sent, DecisionBuffer, CallFor, Delivered;
    BlockPositive(cfg);
    var t, size := a + cfg.symbolLength, Taken(cfg, n);
    ExactlyOnce(cfg, t, n);
    if n == CallFor(cfg, t) {
      DeliveredInCall(s, a, bits, preamble, cfg, size, t - Position(cfg, n, 0), batch);
    } else {
      forall k | 0 <= k < |batch|
        ensures Position(cfg, n, batch[k].idx) != t
      {
        InFirstBlock(batch, DecisionBuffer(s[..size], cfg.chipLength, cfg.bufferLength), preamble, cfg, k);
      }
    }
  }
}
