/** Decode's goroutines: parsers that send on one unbuffered channel, the closer that waits for them, and
    a consumer that drains the channel. Every interleaving is a sequence of the steps below. */
module FanIn {
  import opened Wrappers
  import R = Receiver

  type Msg = R.Message

  /** Place of the consumption in the record of an R900 message. */
  const CONSUMPTION: nat := 4

  // ----- binary-coded decimal -----

  /** The hexadecimal digits of v read as a decimal number, if none of them exceeds nine. */
  function HexAsDecimal(v: nat): Option<nat> {
    if v < 16 then (if v < 10 then Some(v) else None)
    else
      var rest := HexAsDecimal(v / 16);
      if rest.None? || v % 16 > 9 then None else Some(10 * rest.value + v % 16)
  }

  /** The relayed consumption; a digit above nine makes the conversion yield zero. */
  function BcdConsumption(v: nat): nat {
    var d := HexAsDecimal(v);
    if d.None? then 0 else d.value
  }

  /** n with each decimal digit in four bits. */
  function ToBcd(n: nat): nat {
    if n < 10 then n else 16 * ToBcd(n / 10) + n % 10
  }

  /** Every binary-coded decimal is read back, and nothing else is converted: reinterpretation succeeds
      exactly on the codes of decimal numbers. */
  lemma {:induction false} BcdRoundTrip(n: nat, v: nat)
    ensures BcdConsumption(ToBcd(n)) == n && HexAsDecimal(ToBcd(n)) == Some(n)
    ensures HexAsDecimal(v).Some? ==> ToBcd(HexAsDecimal(v).value) == v
    ensures BcdConsumption(v) <= v
    decreases n + v
  {
    if n >= 10 {
      BcdRoundTrip(n / 10, 0);
      assert ToBcd(n) / 16 == ToBcd(n / 10) && ToBcd(n) % 16 == n % 10;
      BcdPositive(n / 10);
    }
    if v >= 16 {
      BcdRoundTrip(0, v / 16);
      var rest := HexAsDecimal(v / 16);
      if rest.Some? && v % 16 <= 9 {
        var d := 10 * rest.value + v % 16;
        assert d / 10 == rest.value && d % 10 == v % 16;
        assert ToBcd(0) == 0 && v / 16 > 0;
      }
    }
  }

  lemma {:induction false} BcdPositive(n: nat)
    ensures n > 0 ==> ToBcd(n) > 0
  {
    if n >= 10 {
      BcdPositive(n / 10);
    }
  }

  /** Digit k of v, the last one first, in base 16 and in base 10. */
  function HexDigit(v: nat, k: nat): nat {
    if k == 0 then v % 16 else HexDigit(v / 16, k - 1)
  }

  function DecDigit(v: nat, k: nat): nat {
    if k == 0 then v % 10 else DecDigit(v / 10, k - 1)
  }

  lemma {:induction false} ZeroDigits(k: nat)
    ensures HexDigit(0, k) == 0 && DecDigit(0, k) == 0
  {
    if k > 0 {
      ZeroDigits(k - 1);
    }
  }

  /** No hexadecimal digit of v exceeds nine. */
  ghost predicate DecimalDigits(v: nat) {
    forall k: nat :: HexDigit(v, k) <= 9
  }

  /** The decimal digits of d are the hexadecimal digits of v. */
  ghost predicate SameDigits(d: nat, v: nat) {
    forall k: nat :: DecDigit(d, k) == HexDigit(v, k)
  }

  lemma OneDigit(v: nat)
    requires v < 16
    ensures DecimalDigits(v) <==> v < 10
    ensures v < 10 ==> SameDigits(v, v)
  {
    assert v % 16 == v && v / 16 == 0 && HexDigit(v, 0) == v;
    forall k: nat | v < 10
      ensures DecDigit(v, k) == HexDigit(v, k) <= 9
    {
      if k > 0 {
        ZeroDigits(k - 1);
      }
    }
  }

  lemma MoreDigits(v: nat, rest: nat)
    ensures DecimalDigits(v) <==> v % 16 <= 9 && DecimalDigits(v / 16)
    ensures v % 16 <= 9 && SameDigits(rest, v / 16) ==> SameDigits(10 * rest + v % 16, v)
  {
    assert HexDigit(v, 0) == v % 16;
    assert forall k: nat :: HexDigit(v, k + 1) == HexDigit(v / 16, k);
    forall k: nat | k > 0
      ensures HexDigit(v, k) == HexDigit(v / 16, k - 1)
    {
    }
    var d := 10 * rest + v % 16;
    if v % 16 <= 9 {
      assert d / 10 == rest && d % 10 == v % 16;
    }
  }

  /** Digit by digit: the relayed consumption has the hexadecimal digits of v as its decimal digits, and is zero if
      one of them exceeds nine. */
  lemma {:induction false} RelayedDigits(v: nat)
    ensures HexAsDecimal(v).Some? <==> DecimalDigits(v)
    ensures if DecimalDigits(v) then SameDigits(BcdConsumption(v), v) else BcdConsumption(v) == 0
  {
    hide DecimalDigits, SameDigits;
    if v < 16 {
      OneDigit(v);
    } else {
      RelayedDigits(v / 16);
      MoreDigits(v, BcdConsumption(v / 16));
    }
  }

  /** What the relay makes of a message of its inner parser. */
  function Relayed(m: Msg): Msg {
    m.(msgType := "R900BCD",
       record := if |m.record| > CONSUMPTION && m.record[CONSUMPTION] >= 0
                 then m.record[CONSUMPTION := BcdConsumption(m.record[CONSUMPTION])] else m.record)
  }

  // ----- processes -----

  /** A parser goroutine. A relay owns an inner parser, a local channel and a local wait group; holding is
      the message it has received and not yet passed on. */
  datatype Proc =
    | Direct(pending: seq<Msg>, done: bool)
    | Relay(inner: seq<Msg>, innerDone: bool, localClosed: bool, holding: Option<Msg>, done: bool)

  predicate Initial(p: Proc) {
    match p
    case Direct(_, done) => !done
    case Relay(_, innerDone, localClosed, holding, done) => !innerDone && !localClosed && holding.None? && !done
  }

  /** Decode itself: parser groups still to be added to the wait group, parsers added but not started,
      running parsers, the wait group, and the channel. */
  datatype State = State(groups: seq<seq<Proc>>, toStart: seq<Proc>, procs: seq<Proc>, wg: int,
                         returned: bool, closed: bool, received: seq<Msg>, drained: bool, panicked: bool)

  datatype Step =
    | AddGroup | Start | Return | Send(i: nat) | Done(i: nat)
    | InnerSend(i: nat) | InnerDone(i: nat) | LocalClose(i: nat) | Forward(i: nat)
    | Close | Drain

  function Set(s: State, i: nat, p: Proc): State
    requires i < |s.procs|
  {
    s.(procs := s.procs[i := p])
  }

  /** The consumer takes a message; a send on the closed channel panics. */
  function Deliver(s: State, m: Msg): State {
    if s.closed then s.(panicked := true) else s.(received := s.received + [m])
  }

  /** Done on the wait group; a negative counter panics. */
  function Finish(s: State): State {
    if s.wg <= 0 then s.(panicked := true) else s.(wg := s.wg - 1)
  }

  /** The state after a step, if the step is enabled. A send needs the consumer, which only has the channel
      once Decode has returned it. */
  function Apply(s: State, step: Step): Option<State> {
    match step
    case AddGroup =>
      if s.toStart == [] && s.groups != [] then
        Some(s.(wg := s.wg + |s.groups[0]|, toStart := s.groups[0], groups := s.groups[1..]))
      else None
    case Start =>
      if s.toStart != [] then Some(s.(procs := s.procs + [s.toStart[0]], toStart := s.toStart[1..])) else None
    case Return =>
      if s.groups == [] && s.toStart == [] && !s.returned then Some(s.(returned := true)) else None
    case Send(i) =>
      if i < |s.procs| && s.procs[i].Direct? && s.procs[i].pending != [] && (s.returned || s.closed) then
        Some(Deliver(Set(s, i, s.procs[i].(pending := s.procs[i].pending[1..])), s.procs[i].pending[0]))
      else None
    case Done(i) =>
      if i < |s.procs| && !s.procs[i].done
         && (if s.procs[i].Direct? then s.procs[i].pending == [] else s.procs[i].localClosed && s.procs[i].holding.None?)
      then Some(Finish(Set(s, i, s.procs[i].(done := true)))) else None
    case InnerSend(i) =>
      if i < |s.procs| && s.procs[i].Relay? && s.procs[i].inner != [] && s.procs[i].holding.None? && !s.procs[i].done then
        var p := s.procs[i];
        if p.localClosed then Some(s.(panicked := true))
        else Some(Set(s, i, p.(inner := p.inner[1..], holding := Option.Some(p.inner[0]))))
      else None
    case InnerDone(i) =>
      if i < |s.procs| && s.procs[i].Relay? && s.procs[i].inner == [] && !s.procs[i].innerDone then
        Some(Set(s, i, s.procs[i].(innerDone := true)))
      else None
    case LocalClose(i) =>
      if i < |s.procs| && s.procs[i].Relay? && s.procs[i].innerDone && !s.procs[i].localClosed then
        Some(Set(s, i, s.procs[i].(localClosed := true)))
      else None
    case Forward(i) =>
      if i < |s.procs| && s.procs[i].Relay? && s.procs[i].holding.Some? && (s.returned || s.closed) then
        Some(Deliver(Set(s, i, s.procs[i].(holding := Option.None)), Relayed(s.procs[i].holding.value)))
      else None
    case Close =>
      if s.returned && s.wg == 0 && !s.closed then Some(s.(closed := true)) else None
    case Drain =>
      if s.closed && !s.drained then Some(s.(drained := true)) else None
  }

  // ----- what is still to be delivered -----

  function RelayedAll(ms: seq<Msg>): seq<Msg> {
    if ms == [] then [] else [Relayed(ms[0])] + RelayedAll(ms[1..])
  }

  function Owed(p: Proc): multiset<Msg> {
    match p
    case Direct(pending, _) => multiset(pending)
    case Relay(inner, _, _, holding, _) =>
      multiset(RelayedAll(inner)) + (if holding.Some? then multiset{Relayed(holding.value)} else multiset{})
  }

  function OwedAll(ps: seq<Proc>): multiset<Msg> {
    if ps == [] then multiset{} else OwedAll(ps[..|ps| - 1]) + Owed(ps[|ps| - 1])
  }

  function OwedGroups(gs: seq<seq<Proc>>): multiset<Msg> {
    if gs == [] then multiset{} else OwedAll(gs[0]) + OwedGroups(gs[1..])
  }

  /** Everything sent or still to be sent. */
  function Total(s: State): multiset<Msg> {
    multiset(s.received) + OwedAll(s.procs) + OwedAll(s.toStart) + OwedGroups(s.groups)
  }

  /** Parsers that have not called Done. */
  function Active(ps: seq<Proc>): nat {
    if ps == [] then 0 else Active(ps[..|ps| - 1]) + (if ps[|ps| - 1].done then 0 else 1)
  }

  ghost predicate ProcOk(p: Proc) {
    match p
    case Direct(pending, done) => done ==> pending == []
    case Relay(inner, innerDone, localClosed, holding, done) =>
      (done ==> localClosed && holding.None?) && (localClosed ==> innerDone) && (innerDone ==> inner == [])
  }

  /** What every reachable state satisfies. */
  ghost predicate Inv(s: State) {
    && !s.panicked
    && (forall i :: 0 <= i < |s.procs| ==> ProcOk(s.procs[i]))
    && (forall i :: 0 <= i < |s.toStart| ==> Initial(s.toStart[i]))
    && (forall g :: 0 <= g < |s.groups| ==> forall i :: 0 <= i < |s.groups[g]| ==> Initial(s.groups[g][i]))
    && s.wg == Active(s.procs) + |s.toStart|
    && (s.returned ==> s.groups == [] && s.toStart == [])
    && (s.closed ==> s.returned && s.wg == 0)
    && (s.drained ==> s.closed)
  }

  // ----- lemmas about sequences of processes -----

  lemma {:induction false} ActiveUpdate(ps: seq<Proc>, i: nat, p: Proc)
    requires i < |ps|
    ensures Active(ps[i := p]) == Active(ps) - (if ps[i].done then 0 else 1) + (if p.done then 0 else 1)
    decreases |ps|
  {
    var n := |ps| - 1;
    if i == n {
      assert ps[i := p][..n] == ps[..n];
    } else {
      ActiveUpdate(ps[..n], i, p);
      assert ps[i := p][..n] == ps[..n][i := p];
    }
  }

  lemma AddBothSides(a: multiset<Msg>, x: multiset<Msg>, b: multiset<Msg>, z: multiset<Msg>)
    requires a + x == b
    ensures (a + z) + x == b + z
  {
  }

  /** Replacing a process by one that owes less changes the sum by the difference. */
  lemma {:induction false} OwedUpdate(ps: seq<Proc>, i: nat, p: Proc, paid: multiset<Msg>)
    requires i < |ps| && Owed(p) + paid == Owed(ps[i])
    ensures OwedAll(ps[i := p]) + paid == OwedAll(ps)
    decreases |ps|
  {
    hide Owed;
    var n := |ps| - 1;
    var qs := ps[i := p];
    if i == n {
      assert qs[..n] == ps[..n];
    } else {
      OwedUpdate(ps[..n], i, p, paid);
      assert qs[..n] == ps[..n][i := p] && qs[n] == ps[n];
      AddBothSides(OwedAll(qs[..n]), paid, OwedAll(ps[..n]), Owed(ps[n]));
    }
  }

  lemma {:induction false} OwedFirst(ps: seq<Proc>)
    requires ps != []
    ensures OwedAll(ps) == OwedAll(ps[1..]) + Owed(ps[0])
  {
    hide Owed;
    var n := |ps| - 1;
    if n > 0 {
      OwedFirst(ps[..n]);
      assert ps[..n][1..] == ps[1..][..n - 1] && ps[1..][n - 1] == ps[n];
      AddBothSides(OwedAll(ps[1..n]), Owed(ps[0]), OwedAll(ps[..n]), Owed(ps[n]));
      assert ps[1..n] == ps[1..][..n - 1];
    } else {
      assert ps[..0] == [] && ps[1..] == [];
    }
  }

  lemma Snoc(ps: seq<Proc>, p: Proc)
    ensures OwedAll(ps + [p]) == OwedAll(ps) + Owed(p)
    ensures Active(ps + [p]) == Active(ps) + (if p.done then 0 else 1)
  {
    assert (ps + [p])[..|ps|] == ps;
  }

  lemma {:induction false} ActiveZero(ps: seq<Proc>, i: nat)
    requires i < |ps| && !ps[i].done
    ensures Active(ps) > 0
    decreases |ps|
  {
    if i < |ps| - 1 {
      ActiveZero(ps[..|ps| - 1], i);
    }
  }

  lemma {:induction false} AllDone(ps: seq<Proc>)
    requires (forall i :: 0 <= i < |ps| ==> ProcOk(ps[i])) && Active(ps) == 0
    ensures OwedAll(ps) == multiset{}
  {
    if ps != [] {
      AllDone(ps[..|ps| - 1]);
    }
  }

  // ----- every step -----

  /** Replacing process i keeps the invariant when the replacement is in order and the counter follows. */
  lemma SetKeepsInv(s: State, i: nat, p: Proc, wg: int)
    requires Inv(s) && i < |s.procs| && ProcOk(p)
    requires wg == s.wg - (if s.procs[i].done then 0 else 1) + (if p.done then 0 else 1)
    requires s.closed ==> wg == 0
    ensures Inv(Set(s, i, p).(wg := wg))
  {
    hide ProcOk, Initial;
    ActiveUpdate(s.procs, i, p);
  }

  lemma ClosedMeansDone(s: State, i: nat)
    requires Inv(s) && i < |s.procs|
    ensures s.closed ==> s.procs[i].done
    ensures !s.procs[i].done ==> s.wg > 0
  {
    hide ProcOk, Initial;
    if !s.procs[i].done {
      ActiveZero(s.procs, i);
    }
  }

  /** Every step keeps the invariant: in particular nothing is ever sent on a closed channel, the wait
      group never goes below zero, and the channel closes only after all parsers are done. */
  lemma StepKeepsInv(s: State, step: Step)
    requires Inv(s) && Apply(s, step).Some?
    ensures Inv(Apply(s, step).value)
  {
    hide Initial, Active;
    match step
    case AddGroup =>
      AddKeepsInv(s);
    case Start =>
      StartKeepsInv(s);
    case Return =>
    case Close =>
    case Drain =>
    case Send(i) =>
      ClosedMeansDone(s, i);
      SetKeepsInv(s, i, s.procs[i].(pending := s.procs[i].pending[1..]), s.wg);
    case Done(i) =>
      ClosedMeansDone(s, i);
      SetKeepsInv(s, i, s.procs[i].(done := true), s.wg - 1);
    case InnerSend(i) =>
      var p := s.procs[i];
      assert ProcOk(p);
      SetKeepsInv(s, i, p.(inner := p.inner[1..], holding := Option.Some(p.inner[0])), s.wg);
    case InnerDone(i) =>
      SetKeepsInv(s, i, s.procs[i].(innerDone := true), s.wg);
    case LocalClose(i) =>
      SetKeepsInv(s, i, s.procs[i].(localClosed := true), s.wg);
    case Forward(i) =>
      ClosedMeansDone(s, i);
      SetKeepsInv(s, i, s.procs[i].(holding := Option.None), s.wg);
  }

  lemma StartKeepsInv(s: State)
    requires Inv(s) && s.toStart != []
    ensures Inv(s.(procs := s.procs + [s.toStart[0]], toStart := s.toStart[1..]))
  {
    InitialOk(s.toStart[0]);
    hide Active, ProcOk, Initial;
    Snoc(s.procs, s.toStart[0]);
  }

  lemma InitialOk(p: Proc)
    requires Initial(p)
    ensures ProcOk(p) && !p.done
  {
  }

  lemma AddKeepsInv(s: State)
    requires Inv(s) && s.toStart == [] && s.groups != []
    ensures Inv(s.(wg := s.wg + |s.groups[0]|, toStart := s.groups[0], groups := s.groups[1..]))
  {
    hide ProcOk, Initial;
    assert forall i :: 0 <= i < |s.groups[0]| ==> Initial(s.groups[0][i]);
  }

  /** A process hands over the messages ms and owes the rest. */
  lemma HandOver(s: State, i: nat, p: Proc, ms: seq<Msg>)
    requires i < |s.procs| && Owed(p) + multiset(ms) == Owed(s.procs[i])
    ensures Total(Set(s, i, p).(received := s.received + ms)) == Total(s)
  {
    hide Owed, OwedAll, OwedGroups;
    OwedUpdate(s.procs, i, p, multiset(ms));
  }

  lemma StartConserves(s: State)
    requires s.toStart != []
    ensures Total(s.(procs := s.procs + [s.toStart[0]], toStart := s.toStart[1..])) == Total(s)
  {
    OwedFirst(s.toStart);
    Snoc(s.procs, s.toStart[0]);
    hide Owed, OwedAll, OwedGroups;
  }

  lemma AddConserves(s: State)
    requires s.toStart == [] && s.groups != []
    ensures Total(s.(wg := s.wg + |s.groups[0]|, toStart := s.groups[0], groups := s.groups[1..])) == Total(s)
  {
    hide Owed;
    assert OwedAll(s.toStart) == multiset{};
  }

  lemma SameTotal(s: State, t: State)
    requires s.received == t.received && s.procs == t.procs && s.toStart == t.toStart && s.groups == t.groups
    ensures Total(s) == Total(t)
  {
  }

  /** A process changes without handing anything over. */
  lemma QuietConserves(s: State, i: nat, p: Proc, wg: int)
    requires i < |s.procs| && Owed(p) == Owed(s.procs[i])
    ensures Total(Set(s, i, p).(wg := wg)) == Total(s)
  {
    hide Owed, OwedAll, OwedGroups;
    OwedUpdate(s.procs, i, p, multiset{});
  }

  lemma SendConserves(s: State, i: nat)
    requires Inv(s) && Apply(s, Send(i)).Some?
    ensures Total(Apply(s, Send(i)).value) == Total(s)
  {
    hide OwedAll, Total, Initial;
    ClosedMeansDone(s, i);
    var p := s.procs[i];
    assert p.pending == [p.pending[0]] + p.pending[1..];
    HandOver(s, i, p.(pending := p.pending[1..]), [p.pending[0]]);
  }

  lemma ForwardConserves(s: State, i: nat)
    requires Inv(s) && Apply(s, Forward(i)).Some?
    ensures Total(Apply(s, Forward(i)).value) == Total(s)
  {
    hide OwedAll, Total, Initial;
    ClosedMeansDone(s, i);
    var p := s.procs[i];
    HandOver(s, i, p.(holding := Option.None), [Relayed(p.holding.value)]);
  }

  lemma InnerConserves(s: State, i: nat)
    requires Inv(s) && Apply(s, InnerSend(i)).Some?
    ensures Total(Apply(s, InnerSend(i)).value) == Total(s)
  {
    hide OwedAll, Total, Initial;
    var p := s.procs[i];
    assert ProcOk(p);
    QuietConserves(s, i, p.(inner := p.inner[1..], holding := Option.Some(p.inner[0])), s.wg);
  }

  lemma DoneConserves(s: State, i: nat)
    requires Inv(s) && Apply(s, Done(i)).Some?
    ensures Total(Apply(s, Done(i)).value) == Total(s)
  {
    hide OwedAll, Total, Initial;
    ClosedMeansDone(s, i);
    QuietConserves(s, i, s.procs[i].(done := true), s.wg - 1);
  }

  lemma MarkConserves(s: State, i: nat, step: Step)
    requires Apply(s, step).Some? && (step == InnerDone(i) || step == LocalClose(i))
    ensures Total(Apply(s, step).value) == Total(s)
  {
    hide OwedAll, Total, Initial, RelayedAll, Relayed, Deliver, Finish;
    var p := s.procs[i];
    var q := if step == InnerDone(i) then p.(innerDone := true) else p.(localClosed := true);
    QuietConserves(s, i, q, s.wg);
  }

  /** Steps of Decode, of the closer and of the consumer. */
  lemma DecodeConserves(s: State, step: Step)
    requires Apply(s, step).Some? && (step == AddGroup || step == Start || step == Return || step == Close || step == Drain)
    ensures Total(Apply(s, step).value) == Total(s)
  {
    hide OwedAll, Total, Initial;
    if step == AddGroup {
      AddConserves(s);
    } else if step == Start {
      StartConserves(s);
    } else {
      SameTotal(s, Apply(s, step).value);
    }
  }

  /** Conservation: no step loses or duplicates a message, also through the relay. */
  lemma StepConserves(s: State, step: Step)
    requires Inv(s) && Apply(s, step).Some?
    ensures Total(Apply(s, step).value) == Total(s)
  {
    hide *;
    match step
    case AddGroup => DecodeConserves(s, step);
    case Start => DecodeConserves(s, step);
    case Return => DecodeConserves(s, step);
    case Close => DecodeConserves(s, step);
    case Drain => DecodeConserves(s, step);
    case Send(i) => SendConserves(s, i);
    case Done(i) => DoneConserves(s, i);
    case InnerSend(i) => InnerConserves(s, i);
    case InnerDone(i) => MarkConserves(s, i, step);
    case LocalClose(i) => MarkConserves(s, i, step);
    case Forward(i) => ForwardConserves(s, i);
  }

  // ----- termination -----

  /** Steps a process can still take. */
  function Work(p: Proc): nat {
    match p
    case Direct(pending, done) => |pending| + (if done then 0 else 1)
    case Relay(inner, innerDone, localClosed, holding, done) =>
      2 * |inner| + (if holding.Some? then 1 else 0) + (if innerDone then 0 else 1)
      + (if localClosed then 0 else 1) + (if done then 0 else 1)
  }

  function WorkAll(ps: seq<Proc>): nat {
    if ps == [] then 0 else WorkAll(ps[..|ps| - 1]) + Work(ps[|ps| - 1])
  }

  /** A process not yet started also takes one step to start, and a group one step to be added. */
  function WorkGroups(gs: seq<seq<Proc>>): nat {
    if gs == [] then 0 else 1 + |gs[0]| + WorkAll(gs[0]) + WorkGroups(gs[1..])
  }

  function Measure(s: State): nat {
    WorkAll(s.procs) + |s.toStart| + WorkAll(s.toStart) + WorkGroups(s.groups)
    + (if s.returned then 0 else 1) + (if s.closed then 0 else 1) + (if s.drained then 0 else 1)
  }

  lemma {:induction false} WorkUpdate(ps: seq<Proc>, i: nat, p: Proc)
    requires i < |ps|
    ensures WorkAll(ps[i := p]) + Work(ps[i]) == WorkAll(ps) + Work(p)
    decreases |ps|
  {
    hide Work;
    var n := |ps| - 1;
    if i == n {
      assert ps[i := p][..n] == ps[..n];
    } else {
      WorkUpdate(ps[..n], i, p);
      assert ps[i := p][..n] == ps[..n][i := p];
    }
  }

  lemma {:induction false} WorkFirst(ps: seq<Proc>)
    requires ps != []
    ensures WorkAll(ps) == WorkAll(ps[1..]) + Work(ps[0])
  {
    hide Work;
    var n := |ps| - 1;
    if n > 0 {
      WorkFirst(ps[..n]);
      assert ps[..n][1..] == ps[1..][..n - 1] && ps[1..][n - 1] == ps[n];
    } else {
      assert ps[..0] == [] && ps[1..] == [];
    }
  }

  lemma StartWorks(s: State)
    requires s.toStart != []
    ensures Measure(s.(procs := s.procs + [s.toStart[0]], toStart := s.toStart[1..])) < Measure(s)
  {
    WorkFirst(s.toStart);
    assert (s.procs + [s.toStart[0]])[..|s.procs|] == s.procs;
    hide Work;
  }

  lemma SetWorks(s: State, i: nat, p: Proc, wg: int, received: seq<Msg>)
    requires i < |s.procs| && Work(p) < Work(s.procs[i])
    ensures Measure(Set(s, i, p).(wg := wg, received := received)) < Measure(s)
  {
    WorkUpdate(s.procs, i, p);
  }

  /** Every step of a parser uses up some of the work left. */
  lemma ParserStepWorks(s: State, step: Step)
    requires Inv(s) && Apply(s, step).Some?
    requires !step.AddGroup? && !step.Start? && !step.Return? && !step.Close? && !step.Drain?
    ensures Measure(Apply(s, step).value) < Measure(s)
  {
    hide Measure, Initial, Active;
    match step
    case Send(i) =>
      ClosedMeansDone(s, i);
      var p := s.procs[i];
      SetWorks(s, i, p.(pending := p.pending[1..]), s.wg, s.received + [p.pending[0]]);
    case Done(i) =>
      ClosedMeansDone(s, i);
      SetWorks(s, i, s.procs[i].(done := true), s.wg - 1, s.received);
    case InnerSend(i) =>
      var p := s.procs[i];
      assert ProcOk(p);
      SetWorks(s, i, p.(inner := p.inner[1..], holding := Option.Some(p.inner[0])), s.wg, s.received);
    case InnerDone(i) =>
      SetWorks(s, i, s.procs[i].(innerDone := true), s.wg, s.received);
    case LocalClose(i) =>
      SetWorks(s, i, s.procs[i].(localClosed := true), s.wg, s.received);
    case Forward(i) =>
      ClosedMeansDone(s, i);
      var p := s.procs[i];
      SetWorks(s, i, p.(holding := Option.None), s.wg, s.received + [Relayed(p.holding.value)]);
  }

  /** Termination: every step brings the run closer to its end. */
  lemma StepWorks(s: State, step: Step)
    requires Inv(s) && Apply(s, step).Some?
    ensures Measure(Apply(s, step).value) < Measure(s)
  {
    hide Inv, Work, WorkAll;
    match step
    case AddGroup =>
    case Start =>
      StartWorks(s);
    case Return =>
    case Close =>
    case Drain =>
    case Send(i) => ParserStepWorks(s, step);
    case Done(i) => ParserStepWorks(s, step);
    case InnerSend(i) => ParserStepWorks(s, step);
    case InnerDone(i) => ParserStepWorks(s, step);
    case LocalClose(i) => ParserStepWorks(s, step);
    case Forward(i) => ParserStepWorks(s, step);
  }

  // ----- progress -----

  /** A parser that has not called Done, if the wait group counts one. */
  lemma {:induction false} SomeoneRuns(ps: seq<Proc>) returns (i: nat)
    requires Active(ps) > 0
    ensures i < |ps| && !ps[i].done
  {
    var n := |ps| - 1;
    if !ps[n].done {
      i := n;
    } else {
      i := SomeoneRuns(ps[..n]);
    }
  }

  /** No deadlock: until the consumer has drained the channel some step is possible. */
  lemma Progress(s: State)
    requires Inv(s) && !s.drained
    ensures exists step :: Apply(s, step).Some?
  {
    hide Initial, Deliver, Finish, Set;
    var step: Step;
    if s.toStart != [] {
      step := Start;
    } else if s.groups != [] {
      step := AddGroup;
    } else if !s.returned {
      step := Return;
    } else if s.closed {
      step := Drain;
    } else if s.wg == 0 {
      step := Close;
    } else {
      var i := SomeoneRuns(s.procs);
      step := StepOf(s.procs[i], i);
    }
    assert Apply(s, step).Some?;
  }

  /** What a running parser does next when the consumer listens. */
  function StepOf(p: Proc, i: nat): Step {
    match p
    case Direct(pending, _) => if pending != [] then Send(i) else Done(i)
    case Relay(inner, innerDone, localClosed, holding, _) =>
      if holding.Some? then Forward(i) else if inner != [] then InnerSend(i)
      else if !innerDone then InnerDone(i) else if !localClosed then LocalClose(i) else Done(i)
  }

  // ----- whole runs -----

  /** Decode about to run the parser groups of its preambles. */
  function Begin(groups: seq<seq<Proc>>): State {
    State(groups, [], [], 0, false, false, [], false, false)
  }

  ghost predicate Ready(groups: seq<seq<Proc>>) {
    forall g :: 0 <= g < |groups| ==> forall i :: 0 <= i < |groups[g]| ==> Initial(groups[g][i])
  }

  /** The state after the steps, if each is enabled in turn. */
  function Run(s: State, steps: seq<Step>): Option<State>
    decreases |steps|
  {
    if steps == [] then Some(s)
    else
      var next := Apply(s, steps[0]);
      if next.None? then None else Run(next.value, steps[1..])
  }

  lemma {:induction false} RunKeeps(s: State, steps: seq<Step>)
    requires Inv(s) && Run(s, steps).Some?
    ensures Inv(Run(s, steps).value)
    ensures Total(Run(s, steps).value) == Total(s)
    ensures |steps| + Measure(Run(s, steps).value) <= Measure(s)
    decreases |steps|
  {
    hide Inv, Total, Measure, Apply;
    if steps != [] {
      StepKeepsInv(s, steps[0]);
      StepConserves(s, steps[0]);
      StepWorks(s, steps[0]);
      RunKeeps(Apply(s, steps[0]).value, steps[1..]);
    }
  }

  lemma DrainedHasAll(s: State)
    requires Inv(s) && s.drained
    ensures multiset(s.received) == Total(s)
  {
    AllDone(s.procs);
  }

  /** Safety over every run and every interleaving: nothing panics, the channel closes only after every
      parser has called Done, nothing is received that no parser sends, and a run is never longer than the
      work its parsers were given. */
  lemma EveryRun(groups: seq<seq<Proc>>, steps: seq<Step>)
    requires Ready(groups) && Run(Begin(groups), steps).Some?
    ensures var t := Run(Begin(groups), steps).value;
            && !t.panicked
            && (t.closed ==> t.groups == [] && t.toStart == [] && forall i :: 0 <= i < |t.procs| ==> t.procs[i].done)
            && multiset(t.received) <= OwedGroups(groups)
            && |steps| <= 3 + WorkGroups(groups)
  {
    BeginTotal(groups);
    RunKeeps(Begin(groups), steps);
    var t := Run(Begin(groups), steps).value;
    assert multiset(t.received) <= Total(t);
    if t.closed {
      ClosedRunDone(t);
    }
  }

  lemma ClosedRunDone(t: State)
    requires Inv(t) && t.closed
    ensures t.groups == [] && t.toStart == []
    ensures forall i :: 0 <= i < |t.procs| ==> t.procs[i].done
  {
    forall i | 0 <= i < |t.procs|
      ensures t.procs[i].done
    {
      ClosedMeansDone(t, i);
    }
  }

  lemma BeginTotal(groups: seq<seq<Proc>>)
    requires Ready(groups)
    ensures Inv(Begin(groups)) && Total(Begin(groups)) == OwedGroups(groups)
    ensures Measure(Begin(groups)) == 3 + WorkGroups(groups)
  {
    hide Initial;
  }

  /** Liveness: a run that can go no further has closed and drained the channel, and the consumer has
      received exactly the messages of all the parsers, each as often as it was sent. */
  lemma FinishedRun(groups: seq<seq<Proc>>, steps: seq<Step>)
    requires Ready(groups) && Run(Begin(groups), steps).Some?
    requires forall step :: Apply(Run(Begin(groups), steps).value, step).None?
    ensures var t := Run(Begin(groups), steps).value;
            t.drained && t.closed && multiset(t.received) == OwedGroups(groups)
  {
    BeginTotal(groups);
    RunKeeps(Begin(groups), steps);
    var t := Run(Begin(groups), steps).value;
    hide Total, Apply;
    if !t.drained {
      Progress(t);
    }
    DrainedHasAll(t);
  }

  // ----- what one parser contributes -----

  /** What a parser still sends, in order; a relay passes on first what it holds. */
  function Pending(p: Proc): seq<Msg> {
    match p
    case Direct(pending, _) => pending
    case Relay(inner, _, _, holding, _) =>
      (if holding.Some? then [Relayed(holding.value)] else []) + RelayedAll(inner)
  }

  function OfType(ms: seq<Msg>, typ: string): seq<Msg> {
    if ms == [] then []
    else
      var n := |ms| - 1;
      OfType(ms[..n], typ) + (if ms[n].msgType == typ then [ms[n]] else [])
  }

  lemma OfTypeSnoc(ms: seq<Msg>, m: Msg, typ: string)
    ensures OfType(ms + [m], typ) == OfType(ms, typ) + (if m.msgType == typ then [m] else [])
  {
    assert (ms + [m])[..|ms|] == ms;
  }

  lemma NothingOfType(typ: string)
    ensures OfType([], typ) == []
  {
  }

  lemma Join(a: seq<Msg>, b: seq<Msg>, c: seq<Msg>)
    ensures a + b + c == a + (b + c) && a + [] == a
  {
  }

  lemma {:induction false} OfTypeConcat(a: seq<Msg>, b: seq<Msg>, typ: string)
    ensures OfType(a + b, typ) == OfType(a, typ) + OfType(b, typ)
    decreases |b|
  {
    hide *;
    if b == [] {
      Join(a, b, b);
      Join(OfType(a, typ), b, b);
      NothingOfType(typ);
    } else {
      var front, m := b[..|b| - 1], b[|b| - 1];
      OfTypeConcat(a, front, typ);
      assert b == front + [m];
      Join(a, front, [m]);
      OfTypeSnoc(a + front, m, typ);
      OfTypeSnoc(front, m, typ);
      Join(OfType(a, typ), OfType(front, typ), if m.msgType == typ then [m] else []);
    }
  }

  lemma {:induction false} OfTypeMembers(ms: seq<Msg>, typ: string, m: Msg)
    ensures m in OfType(ms, typ) <==> m in ms && m.msgType == typ
  {
    if ms != [] {
      var n := |ms| - 1;
      OfTypeMembers(ms[..n], typ, m);
      assert ms == ms[..n] + [ms[n]];
    }
  }

  function Flat(groups: seq<seq<Proc>>): seq<Proc> {
    if groups == [] then [] else groups[0] + Flat(groups[1..])
  }

  /** All parsers: running, to be started, to be added. A parser keeps its place in this list. */
  function Parsers(s: State): seq<Proc> {
    s.procs + (s.toStart + Flat(s.groups))
  }

  ghost predicate Quiet(s: State, t: State) {
    Parsers(t) == Parsers(s) && t.received == s.received
  }

  /** Parser k hands over the first of its messages, or none, and nobody else does anything. */
  ghost predicate Sends(s: State, t: State, k: nat, ms: seq<Msg>) {
    && t.received == s.received + ms
    && k < |Parsers(s)| && Parsers(t) == Parsers(s)[k := if k < |Parsers(t)| then Parsers(t)[k] else Parsers(s)[k]]
    && Pending(Parsers(s)[k]) == ms + Pending(Parsers(t)[k])
  }

  lemma ParserSends(s: State, i: nat, p: Proc, ms: seq<Msg>, wg: int)
    requires i < |s.procs| && Pending(s.procs[i]) == ms + Pending(p)
    ensures Sends(s, Set(s, i, p).(received := s.received + ms, wg := wg), i, ms)
  {
    hide Pending, Flat;
    var t := Set(s, i, p).(received := s.received + ms, wg := wg);
    assert Parsers(t) == Parsers(s)[i := p];
  }

  /** A parser changes without handing anything over. */
  lemma ParserWaits(s: State, i: nat, p: Proc, wg: int)
    requires i < |s.procs| && Pending(s.procs[i]) == Pending(p)
    ensures Sends(s, Set(s, i, p).(wg := wg), i, [])
  {
    hide Pending, Sends;
    assert s.received + [] == s.received && [] + Pending(p) == Pending(p);
    ParserSends(s, i, p, [], wg);
    assert Set(s, i, p).(received := s.received + [], wg := wg) == Set(s, i, p).(wg := wg);
  }

  /** Steps of Decode, of the closer and of the consumer. */
  lemma DecodeIsQuiet(s: State, step: Step)
    requires Apply(s, step).Some? && (step == AddGroup || step == Start || step == Return || step == Close || step == Drain)
    ensures Quiet(s, Apply(s, step).value)
  {
    hide Initial;
    if step == Start {
      assert s.toStart == [s.toStart[0]] + s.toStart[1..];
    }
  }

  lemma SendSends(s: State, i: nat) returns (m: Msg)
    requires Inv(s) && Apply(s, Send(i)).Some?
    ensures Sends(s, Apply(s, Send(i)).value, i, [m])
  {
    hide Sends, Initial;
    ClosedMeansDone(s, i);
    var p := s.procs[i];
    m := p.pending[0];
    ParserSends(s, i, p.(pending := p.pending[1..]), [m], s.wg);
  }

  lemma ForwardSends(s: State, i: nat) returns (m: Msg)
    requires Inv(s) && Apply(s, Forward(i)).Some?
    ensures Sends(s, Apply(s, Forward(i)).value, i, [m])
  {
    hide Sends, Initial, Relayed, RelayedAll;
    ClosedMeansDone(s, i);
    var p := s.procs[i];
    m := Relayed(p.holding.value);
    ParserSends(s, i, p.(holding := Option.None), [m], s.wg);
  }

  lemma DoneSends(s: State, i: nat)
    requires Inv(s) && Apply(s, Done(i)).Some?
    ensures Sends(s, Apply(s, Done(i)).value, i, [])
  {
    hide Sends, Initial, Relayed, RelayedAll;
    ClosedMeansDone(s, i);
    ParserWaits(s, i, s.procs[i].(done := true), s.wg - 1);
  }

  lemma InnerSends(s: State, i: nat)
    requires Inv(s) && Apply(s, InnerSend(i)).Some?
    ensures Sends(s, Apply(s, InnerSend(i)).value, i, [])
  {
    hide Sends, Initial, Relayed;
    var p := s.procs[i];
    assert ProcOk(p);
    ParserWaits(s, i, p.(inner := p.inner[1..], holding := Option.Some(p.inner[0])), s.wg);
  }

  lemma MarkSends(s: State, i: nat, step: Step)
    requires Apply(s, step).Some? && (step == InnerDone(i) || step == LocalClose(i))
    ensures Sends(s, Apply(s, step).value, i, [])
  {
    hide Sends, Initial, Relayed, RelayedAll;
    var p := s.procs[i];
    ParserWaits(s, i, if step == InnerDone(i) then p.(innerDone := true) else p.(localClosed := true), s.wg);
  }

  /** Order: in every step at most one parser hands over a message, and it is the first of those it has. */
  lemma StepSends(s: State, step: Step) returns (k: nat, ms: seq<Msg>)
    requires Inv(s) && Apply(s, step).Some?
    ensures Quiet(s, Apply(s, step).value) || (Sends(s, Apply(s, step).value, k, ms) && |ms| <= 1)
  {
    hide *;
    k, ms := 0, [];
    match step
    case AddGroup => DecodeIsQuiet(s, step);
    case Start => DecodeIsQuiet(s, step);
    case Return => DecodeIsQuiet(s, step);
    case Close => DecodeIsQuiet(s, step);
    case Drain => DecodeIsQuiet(s, step);
    case Send(i) =>
      var m := SendSends(s, i);
      k, ms := i, [m];
    case Done(i) =>
      DoneSends(s, i);
      k := i;
    case InnerSend(i) =>
      InnerSends(s, i);
      k := i;
    case InnerDone(i) =>
      MarkSends(s, i, step);
      k := i;
    case LocalClose(i) =>
      MarkSends(s, i, step);
      k := i;
    case Forward(i) =>
      var m := ForwardSends(s, i);
      k, ms := i, [m];
  }

  /** The parser sends nothing of this type. */
  ghost predicate Silent(p: Proc, typ: string) {
    OfType(Pending(p), typ) == []
  }

  /** Parser n's messages of type typ are msgs, received or still to be sent, and no other parser sends any. */
  ghost predicate FromOne(s: State, n: nat, typ: string, msgs: seq<Msg>) {
    && n < |Parsers(s)| && OfType(s.received, typ) + OfType(Pending(Parsers(s)[n]), typ) == msgs
    && forall j :: 0 <= j < |Parsers(s)| && j != n ==> Silent(Parsers(s)[j], typ)
  }

  lemma SendsFromOne(s: State, t: State, k: nat, ms: seq<Msg>, n: nat, typ: string, msgs: seq<Msg>)
    requires Sends(s, t, k, ms) && FromOne(s, n, typ, msgs)
    ensures FromOne(t, n, typ, msgs)
  {
    hide Pending, OfType, Parsers;
    OfTypeConcat(s.received, ms, typ);
    OfTypeConcat(ms, Pending(Parsers(t)[k]), typ);
    if k != n {
      assert Silent(Parsers(s)[k], typ);
    }
  }

  lemma {:induction false} RunFromOne(s: State, steps: seq<Step>, n: nat, typ: string, msgs: seq<Msg>)
    requires Inv(s) && Run(s, steps).Some? && FromOne(s, n, typ, msgs)
    ensures FromOne(Run(s, steps).value, n, typ, msgs)
    decreases |steps|
  {
    hide Inv, Apply, FromOne, Sends, Parsers;
    if steps != [] {
      var t := Apply(s, steps[0]).value;
      StepKeepsInv(s, steps[0]);
      var k, ms := StepSends(s, steps[0]);
      if Sends(s, t, k, ms) {
        SendsFromOne(s, t, k, ms, n, typ, msgs);
      } else {
        QuietFromOne(s, t, n, typ, msgs);
      }
      RunFromOne(t, steps[1..], n, typ, msgs);
    }
  }

  lemma QuietFromOne(s: State, t: State, n: nat, typ: string, msgs: seq<Msg>)
    requires Quiet(s, t) && FromOne(s, n, typ, msgs)
    ensures FromOne(t, n, typ, msgs)
  {
    hide Parsers, Silent, Pending, OfType;
  }

  /** Only process i of group g sends messages of this type. */
  ghost predicate OnlyFrom(groups: seq<seq<Proc>>, g: nat, i: nat, typ: string) {
    g < |groups| && i < |groups[g]|
    && forall h, j :: 0 <= h < |groups| && 0 <= j < |groups[h]| && (h != g || j != i) ==> Silent(groups[h][j], typ)
  }

  lemma {:induction false} AllSilent(groups: seq<seq<Proc>>, typ: string)
    requires forall h, j :: 0 <= h < |groups| && 0 <= j < |groups[h]| ==> Silent(groups[h][j], typ)
    ensures forall k :: 0 <= k < |Flat(groups)| ==> Silent(Flat(groups)[k], typ)
  {
    hide Silent;
    if groups != [] {
      var rest := groups[1..];
      assert forall h :: 0 <= h < |rest| ==> rest[h] == groups[h + 1];
      AllSilent(rest, typ);
    }
  }

  /** The place of the one parser of this type among all. */
  lemma {:induction false} PlaceOf(groups: seq<seq<Proc>>, g: nat, i: nat, typ: string) returns (n: nat)
    requires OnlyFrom(groups, g, i, typ)
    ensures n < |Flat(groups)| && Flat(groups)[n] == groups[g][i]
    ensures forall k :: 0 <= k < |Flat(groups)| && k != n ==> Silent(Flat(groups)[k], typ)
    decreases |groups|
  {
    hide Silent;
    var rest := groups[1..];
    assert forall h :: 0 <= h < |rest| ==> rest[h] == groups[h + 1];
    if g == 0 {
      AllSilent(rest, typ);
      n := i;
    } else {
      n := PlaceOf(rest, g - 1, i, typ);
      n := |groups[0]| + n;
    }
  }

  lemma BeginsFromOne(groups: seq<seq<Proc>>, g: nat, i: nat, typ: string) returns (n: nat)
    requires OnlyFrom(groups, g, i, typ)
    ensures FromOne(Begin(groups), n, typ, OfType(Pending(groups[g][i]), typ))
  {
    hide Silent, Pending, Flat;
    n := PlaceOf(groups, g, i, typ);
    assert Parsers(Begin(groups)) == Flat(groups);
    assert OfType([], typ) == [];
    hide OnlyFrom;
  }

  lemma DrainedIsAll(s: State, n: nat, typ: string, msgs: seq<Msg>)
    requires Inv(s) && s.drained && FromOne(s, n, typ, msgs)
    ensures OfType(s.received, typ) == msgs
  {
    hide Active, Silent;
    ClosedRunDone(s);
    assert Parsers(s) == s.procs;
    assert ProcOk(s.procs[n]) && Pending(s.procs[n]) == [];
    assert OfType([], typ) == [];
  }

  /** After a finished run the consumer holds, of one parser's message type, exactly what that parser sent, in the
      order in which it was sent. */
  lemma ParserDelivered(groups: seq<seq<Proc>>, steps: seq<Step>, g: nat, i: nat, typ: string)
    requires Ready(groups) && Run(Begin(groups), steps).Some?
    requires forall step :: Apply(Run(Begin(groups), steps).value, step).None?
    requires OnlyFrom(groups, g, i, typ)
    ensures OfType(Run(Begin(groups), steps).value.received, typ) == OfType(Pending(groups[g][i]), typ)
  {
    assert g < |groups| && i < |groups[g]|;
    hide *;
    var n := BeginsFromOne(groups, g, i, typ);
    BeginTotal(groups);
    RunKeeps(Begin(groups), steps);
    RunFromOne(Begin(groups), steps, n, typ, OfType(Pending(groups[g][i]), typ));
    FinishedRun(groups, steps);
    DrainedIsAll(Run(Begin(groups), steps).value, n, typ, OfType(Pending(groups[g][i]), typ));
  }

  /** What the parsers owe is what they still send. */
  lemma OwedIsPending(p: Proc)
    ensures Owed(p) == multiset(Pending(p))
  {
  }
}
