/** Radio configuration: what registration and allocation make of the parsers' settings. */
module Geometry {
  import opened Gf2Poly

  /** Settings a parser brings along; the preamble is a string of ASCII zeros and ones. */
  datatype ParserCfg = ParserCfg(protocol: string, centerFreq: nat, dataRate: nat, chipLength: nat,
                                 preambleSymbols: nat, packetSymbols: nat, preamble: string)

  /** The decoder's configuration, derived lengths included. */
  datatype Config = Config(centerFreq: nat, dataRate: nat, sampleRate: nat, chipLength: nat, symbolLength: nat,
                           preambleSymbols: nat, packetSymbols: nat, preambleLength: nat, packetLength: nat,
                           blockSize: nat, blockSize2: nat, bufferLength: nat)

  const INITIAL := Config(0, 0, 0, 0, 0, 0, 0, 0, 0, 0, 0, 0)

  function Max(a: nat, b: nat): nat {
    if a > b then a else b
  }

  /** Registration keeps the largest value of each setting; the centre frequency is overridden. */
  function Registered(cfg: Config, p: ParserCfg): Config {
    cfg.(centerFreq := p.centerFreq,
         dataRate := Max(cfg.dataRate, p.dataRate),
         chipLength := Max(cfg.chipLength, p.chipLength),
         preambleSymbols := Max(cfg.preambleSymbols, p.preambleSymbols),
         packetSymbols := Max(cfg.packetSymbols, p.packetSymbols))
  }

  function RegisteredAll(ps: seq<ParserCfg>): Config {
    if ps == [] then INITIAL else Registered(RegisteredAll(ps[..|ps| - 1]), ps[|ps| - 1])
  }

  /** Exponent of the least power of two not below v. */
  function CeilLog2(v: nat): nat {
    if v <= 1 then 0 else 1 + CeilLog2((v + 1) / 2)
  }

  function NextPowerOf2(v: nat): nat
    requires v > 0
  {
    Pow2(CeilLog2(v))
  }

  lemma {:induction false} LeastPower(v: nat, k: nat)
    requires v > 0
    ensures NextPowerOf2(v) >= v
    ensures Pow2(k) >= v ==> Pow2(k) >= NextPowerOf2(v)
    decreases v
  {
    if v > 1 {
      LeastPower((v + 1) / 2, if k == 0 then 0 else k - 1);
    }
  }

  /** Allocation computes the buffer lengths. */
  function Allocated(cfg: Config): Config
    requires cfg.preambleSymbols > 0 && cfg.chipLength > 0
  {
    var symbolLength := cfg.chipLength * 2;
    var preambleLength := cfg.preambleSymbols * symbolLength;
    var packetLength := cfg.packetSymbols * symbolLength;
    var blockSize := NextPowerOf2(preambleLength);
    cfg.(symbolLength := symbolLength, sampleRate := cfg.dataRate * cfg.chipLength,
         preambleLength := preambleLength, packetLength := packetLength,
         blockSize := blockSize, blockSize2 := blockSize * 2, bufferLength := packetLength + blockSize)
  }

  /** Everything the decoder relies on when it indexes its buffers. */
  ghost predicate Sound(cfg: Config) {
    && cfg.chipLength > 0 && cfg.chipLength % 4 == 0 && cfg.symbolLength == 2 * cfg.chipLength
    && 0 < cfg.preambleSymbols <= cfg.packetSymbols
    && cfg.preambleLength == cfg.preambleSymbols * cfg.symbolLength
    && cfg.packetLength == cfg.packetSymbols * cfg.symbolLength
    && cfg.preambleLength <= cfg.blockSize && cfg.blockSize % 8 == 0
    && cfg.bufferLength == cfg.packetLength + cfg.blockSize
  }

  /** What a decoder for the parsers ps is set to: the centre frequency of the last one, the largest of every other
      setting, and the lengths these give. A block is the least power of two that holds a preamble; in the input it
      takes two bytes per sample. */
  ghost predicate SetFor(cfg: Config, ps: seq<ParserCfg>) {
    && |ps| > 0 && cfg.centerFreq == ps[|ps| - 1].centerFreq
    && (exists i :: 0 <= i < |ps| && ps[i].dataRate == cfg.dataRate)
    && (exists i :: 0 <= i < |ps| && ps[i].chipLength == cfg.chipLength)
    && (exists i :: 0 <= i < |ps| && ps[i].preambleSymbols == cfg.preambleSymbols)
    && (exists i :: 0 <= i < |ps| && ps[i].packetSymbols == cfg.packetSymbols)
    && (forall i :: 0 <= i < |ps| ==>
          ps[i].dataRate <= cfg.dataRate && ps[i].chipLength <= cfg.chipLength
          && ps[i].preambleSymbols <= cfg.preambleSymbols && ps[i].packetSymbols <= cfg.packetSymbols)
  }

  ghost predicate Sized(cfg: Config) {
    && cfg.symbolLength == cfg.chipLength + cfg.chipLength && cfg.sampleRate == cfg.dataRate * cfg.chipLength
    && cfg.preambleLength == cfg.preambleSymbols * cfg.symbolLength
    && cfg.packetLength == cfg.packetSymbols * cfg.symbolLength
    && (exists k: nat :: cfg.blockSize == Pow2(k)) && cfg.blockSize >= cfg.preambleLength
    && (forall k: nat :: Pow2(k) >= cfg.preambleLength ==> Pow2(k) >= cfg.blockSize)
    && cfg.blockSize2 == cfg.blockSize + cfg.blockSize && cfg.bufferLength == cfg.blockSize + cfg.packetLength
  }

  /** Registration in any order, of any parsers, takes the largest settings. */
  lemma {:induction false} RegisteredSettings(ps: seq<ParserCfg>)
    requires |ps| > 0
    ensures SetFor(RegisteredAll(ps), ps)
  {
    var n := |ps| - 1;
    var c, last := RegisteredAll(ps), ps[n];
    if n == 0 {
      assert RegisteredAll(ps[..0]) == INITIAL;
      assert c == Registered(INITIAL, last);
    } else {
      RegisteredSettings(ps[..n]);
      hide RegisteredAll;
      OneMore(ps, RegisteredAll(ps[..n]));
    }
  }

  lemma OneMore(ps: seq<ParserCfg>, before: Config)
    requires |ps| > 1 && SetFor(before, ps[..|ps| - 1])
    ensures SetFor(Registered(before, ps[|ps| - 1]), ps)
  {
    var n := |ps| - 1;
    var c, last := Registered(before, ps[n]), ps[n];
    var i :| 0 <= i < n && ps[..n][i].dataRate == before.dataRate;
    var j :| 0 <= j < n && ps[..n][j].chipLength == before.chipLength;
    var k :| 0 <= k < n && ps[..n][k].preambleSymbols == before.preambleSymbols;
    var l :| 0 <= l < n && ps[..n][l].packetSymbols == before.packetSymbols;
    assert ps[if before.dataRate > last.dataRate then i else n].dataRate == c.dataRate;
    assert ps[if before.chipLength > last.chipLength then j else n].chipLength == c.chipLength;
    assert ps[if before.preambleSymbols > last.preambleSymbols then k else n].preambleSymbols == c.preambleSymbols;
    assert ps[if before.packetSymbols > last.packetSymbols then l else n].packetSymbols == c.packetSymbols;
    forall h | 0 <= h < |ps|
      ensures ps[h].dataRate <= c.dataRate && ps[h].chipLength <= c.chipLength
              && ps[h].preambleSymbols <= c.preambleSymbols && ps[h].packetSymbols <= c.packetSymbols
    {
      assert h < n ==> ps[..n][h] == ps[h];
    }
  }

  /** Allocation keeps the settings and derives the lengths. */
  lemma AllocatedLengths(cfg: Config, ps: seq<ParserCfg>)
    requires cfg.preambleSymbols > 0 && cfg.chipLength > 0 && SetFor(cfg, ps)
    ensures SetFor(Allocated(cfg), ps) && Sized(Allocated(cfg))
  {
    var a := Allocated(cfg);
    ScaleMono(1, cfg.preambleSymbols, a.symbolLength);
    hide SetFor;
    SameSettings(cfg, ps);
    LeastPower(a.preambleLength, 0);
    hide Pow2;
    forall k: nat | Pow2(k) >= a.preambleLength
      ensures Pow2(k) >= a.blockSize
    {
      LeastPower(a.preambleLength, k);
    }
  }

  lemma SameSettings(cfg: Config, ps: seq<ParserCfg>)
    requires cfg.preambleSymbols > 0 && cfg.chipLength > 0 && SetFor(cfg, ps)
    ensures SetFor(Allocated(cfg), ps)
  {
  }

  /** Products with a common factor are ordered like their other factors. */
  lemma ScaleMono(a: nat, b: nat, c: nat)
    requires a <= b
    ensures a * c <= b * c
  {
  }

  lemma {:induction false} PowerDivisible(k: nat)
    requires Pow2(k) >= 8
    ensures Pow2(k) % 8 == 0
  {
    assert Pow2(2) == 4;
    if k < 3 {
      Pow2Mono(k, 2);
    }
    EightTimes(k);
  }

  lemma EightTimes(k: nat)
    requires k >= 3
    ensures Pow2(k) == 8 * Pow2(k - 3)
  {
    assert Pow2(k - 1) == 2 * Pow2(k - 2);
  }

  /** A symbol length divisible by eight makes every allocation sound. */
  lemma AllocatedIsSound(cfg: Config)
    requires cfg.chipLength > 0 && cfg.chipLength % 4 == 0
    requires 0 < cfg.preambleSymbols <= cfg.packetSymbols
    ensures Sound(Allocated(cfg))
    ensures forall k :: Pow2(k) >= Allocated(cfg).preambleLength ==> Pow2(k) >= Allocated(cfg).blockSize
  {
    var a := Allocated(cfg);
    ScaleMono(1, cfg.preambleSymbols, a.symbolLength);
    assert a.preambleLength >= 8;
    LeastPower(a.preambleLength, 0);
    PowerDivisible(CeilLog2(a.preambleLength));
    forall k: nat | Pow2(k) >= a.preambleLength
      ensures Pow2(k) >= a.blockSize
    {
      LeastPower(a.preambleLength, k);
    }
  }

  // ----- the parsers shipped with the receiver -----

  function ScmCfg(chip: nat): ParserCfg {
    ParserCfg("scm", 912600155, 32768, chip, 21, 96, "111110010101001100000")
  }

  function ScmPlusCfg(chip: nat): ParserCfg {
    ParserCfg("scm+", 912600155, 32768, chip, 16, 128, "0001011010100011")
  }

  function IdmCfg(chip: nat): ParserCfg {
    ParserCfg("idm", 912600155, 32768, chip, 32, 736, "01010101010101010001011010100011")
  }

  function NetIdmCfg(chip: nat): ParserCfg {
    IdmCfg(chip).(protocol := "netidm")
  }

  function R900Cfg(chip: nat): ParserCfg {
    ParserCfg("r900", 912380000, 32768, chip, 32, 116, "00000000000000001110010101100100")
  }

  predicate Shipped(p: ParserCfg, chip: nat) {
    p == ScmCfg(chip) || p == ScmPlusCfg(chip) || p == IdmCfg(chip) || p == NetIdmCfg(chip) || p == R900Cfg(chip)
  }

  lemma ShippedFacts(p: ParserCfg, chip: nat)
    requires Shipped(p, chip)
    ensures p.chipLength == chip && p.dataRate == 32768
    ensures 16 <= p.preambleSymbols <= 32 && 96 <= p.packetSymbols <= 736
    ensures |p.preamble| == p.preambleSymbols
  {
  }

  /** The settings after registering any non-empty list of shipped parsers, in any order: each is the
      maximum over the list, and the lengths fit together. */
  lemma ShippedSettings(ps: seq<ParserCfg>, chip: nat)
    requires |ps| > 0 && forall i :: 0 <= i < |ps| ==> Shipped(ps[i], chip)
    ensures var c := RegisteredAll(ps);
            && c.chipLength == chip && c.dataRate == 32768
            && 16 <= c.preambleSymbols <= 32 && 96 <= c.packetSymbols <= 736 && c.preambleSymbols <= c.packetSymbols
            && (forall i :: 0 <= i < |ps| ==>
                  |ps[i].preamble| == ps[i].preambleSymbols <= c.preambleSymbols && ps[i].packetSymbols <= c.packetSymbols)
            && (exists i :: 0 <= i < |ps| && ps[i].preambleSymbols == c.preambleSymbols)
            && (exists i :: 0 <= i < |ps| && ps[i].packetSymbols == c.packetSymbols)
  {
    hide RegisteredAll, Shipped;
    RegisteredSettings(ps);
    forall i | 0 <= i < |ps|
      ensures ps[i].chipLength == chip && ps[i].dataRate == 32768 && |ps[i].preamble| == ps[i].preambleSymbols
      ensures 16 <= ps[i].preambleSymbols <= 32 && 96 <= ps[i].packetSymbols <= 736
    {
      ShippedFacts(ps[i], chip);
    }
  }
}
