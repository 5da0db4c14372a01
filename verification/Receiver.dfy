/** The receiver's block loop: the filter chain, the suppression of messages already seen in the previous
    sample block, and the filter for repeated readings of a meter. */
module Receiver {
  import opened Wrappers

  /** A decoded message: what the filters look at, and the values of its record. */
  datatype Message = Message(msgType: string, meterType: nat, meterId: nat, checksum: seq<Byte>, record: seq<int>)

  datatype Digest = Digest(msgType: string, meterType: nat, meterId: nat, checksum: seq<Byte>)

  function NewDigest(m: Message): Digest {
    Digest(m.msgType, m.meterType, m.meterId, m.checksum)
  }

  // ----- filters as values -----

  /** The state of a filter: the wanted identifiers, the wanted types, or the last checksum of each meter. */
  datatype FilterState = Ids(ids: set<nat>) | Types(types: set<nat>) | Last(last: map<nat, seq<Byte>>)

  predicate Passes(f: FilterState, m: Message) {
    match f
    case Ids(ids) => m.meterId in ids
    case Types(types) => m.meterType in types
    case Last(last) => !(m.meterId in last && last[m.meterId] == m.checksum)
  }

  function After(f: FilterState, m: Message): FilterState {
    if f.Last? && Passes(f, m) then Last(f.last[m.meterId := m.checksum]) else f
  }

  ghost predicate AllPass(fs: seq<FilterState>, m: Message) {
    forall i :: 0 <= i < |fs| ==> Passes(fs[i], m)
  }

  /** A filter is asked, and so updated, only if all filters before it let the message pass. */
  ghost predicate Updated(fs: seq<FilterState>, m: Message, fs': seq<FilterState>) {
    |fs'| == |fs| && forall i :: 0 <= i < |fs| ==> fs'[i] == if AllPass(fs[..i], m) then After(fs[i], m) else fs[i]
  }

  ghost function Next(fs: seq<FilterState>, m: Message): (r: seq<FilterState>)
    ensures Updated(fs, m, r)
  {
    seq(|fs|, i requires 0 <= i < |fs| => if AllPass(fs[..i], m) then After(fs[i], m) else fs[i])
  }

  /** The states of the chain after the messages. */
  ghost function StatesAfter(fs: seq<FilterState>, ms: seq<Message>): seq<FilterState> {
    if ms == [] then fs else Next(StatesAfter(fs, ms[..|ms| - 1]), ms[|ms| - 1])
  }

  /** The messages the chain accepts, in order. */
  ghost function Accepted(fs: seq<FilterState>, ms: seq<Message>): seq<Message> {
    if ms == [] then []
    else
      var n := |ms| - 1;
      Accepted(fs, ms[..n]) + (if AllPass(StatesAfter(fs, ms[..n]), ms[n]) then [ms[n]] else [])
  }

  // ----- filters as objects -----

  class UniqueFilter {
    var last: map<nat, seq<Byte>>

    constructor ()
      ensures last == map[]
    {
      last := map[];
    }

    method Filter(m: Message) returns (ok: bool)
      modifies this
      ensures ok <==> !(m.meterId in old(last) && old(last)[m.meterId] == m.checksum)
      ensures last == if ok then old(last)[m.meterId := m.checksum] else old(last)
    {
      if m.meterId in last && last[m.meterId] == m.checksum {
        return false;
      }
      last := last[m.meterId := m.checksum];
      return true;
    }
  }

  datatype MessageFilter =
    | MeterIDFilter(ids: set<nat>)
    | MeterTypeFilter(types: set<nat>)
    | Unique(filter: UniqueFilter)

  ghost function StateOf(f: MessageFilter): FilterState
    reads if f.Unique? then {f.filter} else {}
  {
    match f
    case MeterIDFilter(ids) => Ids(ids)
    case MeterTypeFilter(types) => Types(types)
    case Unique(filter) => Last(filter.last)
  }

  /** The mutable parts of a chain. */
  ghost function Parts(filters: seq<MessageFilter>): set<UniqueFilter> {
    set i | 0 <= i < |filters| && filters[i].Unique? :: filters[i].filter
  }

  /** No filter object occurs twice. */
  ghost predicate Apart(filters: seq<MessageFilter>) {
    forall i, j :: 0 <= i < j < |filters| && filters[i].Unique? && filters[j].Unique? ==> filters[i].filter != filters[j].filter
  }

  ghost predicate Tracks(filters: seq<MessageFilter>, fs: seq<FilterState>)
    reads Parts(filters)
  {
    |fs| == |filters| && forall i :: 0 <= i < |fs| ==> StateOf(filters[i]) == fs[i]
  }

  method AskFilter(f: MessageFilter, m: Message) returns (ok: bool)
    modifies if f.Unique? then {f.filter} else {}
    ensures ok == Passes(old(StateOf(f)), m)
    ensures StateOf(f) == After(old(StateOf(f)), m)
  {
    match f
    case MeterIDFilter(ids) => ok := m.meterId in ids;
    case MeterTypeFilter(types) => ok := m.meterType in types;
    case Unique(filter) => ok := filter.Filter(m);
  }

  /** Asking one filter of a chain leaves the others alone. */
  method AskAt(filters: seq<MessageFilter>, i: nat, m: Message) returns (ok: bool)
    requires i < |filters| && Apart(filters)
    modifies Parts(filters)
    ensures ok == Passes(old(StateOf(filters[i])), m)
    ensures StateOf(filters[i]) == After(old(StateOf(filters[i])), m)
    ensures forall k :: 0 <= k < |filters| && k != i ==> StateOf(filters[k]) == old(StateOf(filters[k]))
  {
    ok := AskFilter(filters[i], m);
  }

  /** Once filter i refuses, the filters after it stay as they are. */
  lemma RefusedStays(fs: seq<FilterState>, m: Message, i: nat)
    requires i < |fs| && !Passes(fs[i], m)
    ensures !AllPass(fs, m)
    ensures forall k :: i <= k < |fs| ==> Next(fs, m)[k] == fs[k]
  {
    forall k | i < k < |fs|
      ensures !AllPass(fs[..k], m)
    {
      assert fs[..k][i] == fs[i];
    }
  }

  class FilterChain {
    var filters: seq<MessageFilter>

    constructor ()
      ensures filters == []
    {
      filters := [];
    }

    method Add(filter: MessageFilter)
      modifies this
      ensures filters == old(filters) + [filter]
    {
      filters := filters + [filter];
    }

    /** Accepts exactly when every filter does, and asks no filter after the first that refuses. */
    method Match(m: Message, ghost fs: seq<FilterState>) returns (ok: bool)
      requires Apart(filters) && Tracks(filters, fs)
      modifies Parts(filters)
      ensures ok == AllPass(fs, m)
      ensures filters == old(filters) && Tracks(filters, Next(fs, m))
    {
      ghost var after := Next(fs, m);
      if |filters| == 0 {
        return true;
      }
      var i := 0;
      while i < |filters|
        invariant 0 <= i <= |filters| && filters == old(filters)
        invariant AllPass(fs[..i], m)
        invariant forall k :: 0 <= k < i ==> StateOf(filters[k]) == after[k]
        invariant forall k :: i <= k < |filters| ==> StateOf(filters[k]) == fs[k]
      {
        hide Passes, After, StateOf;
        var passed := AskAt(filters, i, m);
        assert StateOf(filters[i]) == after[i];
        if !passed {
          RefusedStays(fs, m, i);
          return false;
        }
        i := i + 1;
      }
      assert fs[..i] == fs;
      return true;
    }
  }

  // ----- duplicates between blocks -----

  function Digests(ms: seq<Message>): set<Digest> {
    set m | m in ms :: NewDigest(m)
  }

  /** The messages whose digests have not been seen. */
  function Unseen(ms: seq<Message>, seen: set<Digest>): seq<Message> {
    if ms == [] then []
    else
      var n := |ms| - 1;
      Unseen(ms[..n], seen) + (if NewDigest(ms[n]) in seen then [] else [ms[n]])
  }

  /** The chain's states before block k, and what it accepts of block k. */
  ghost function StatesBefore(fs: seq<FilterState>, blocks: seq<seq<Message>>, k: nat): seq<FilterState>
    requires k <= |blocks|
  {
    if k == 0 then fs else StatesAfter(StatesBefore(fs, blocks, k - 1), blocks[k - 1])
  }

  ghost function AcceptedIn(fs: seq<FilterState>, blocks: seq<seq<Message>>, k: nat): seq<Message>
    requires k < |blocks|
  {
    Accepted(StatesBefore(fs, blocks, k), blocks[k])
  }

  /** The digests accepted in the block before block k. */
  ghost function Before(fs: seq<FilterState>, blocks: seq<seq<Message>>, k: nat): set<Digest>
    requires k <= |blocks|
  {
    if k == 0 then {} else Digests(AcceptedIn(fs, blocks, k - 1))
  }

  /** A digest map holds exactly the given digests, each marked. */
  ghost predicate Marks(marked: map<Digest, bool>, ds: set<Digest>) {
    marked.Keys == ds && forall d :: d in marked ==> marked[d]
  }

  class Receiver {
    const chain: FilterChain
    var prev: map<Digest, bool>
    var next: map<Digest, bool>

    constructor (fc: FilterChain)
      ensures chain == fc && Marks(prev, {})
    {
      chain := fc;
      prev, next := map[], map[];
    }

    /** One sample block: clear next, pass on what is accepted and was not accepted in the last block,
        swap the maps. */
    method Block(msgs: seq<Message>, ghost fs: seq<FilterState>, ghost seen: set<Digest>) returns (out: seq<Message>)
      requires Apart(chain.filters) && Tracks(chain.filters, fs) && Marks(prev, seen)
      modifies this, Parts(chain.filters)
      ensures out == Unseen(Accepted(fs, msgs), seen)
      ensures Marks(prev, Digests(Accepted(fs, msgs)))
      ensures chain.filters == old(chain.filters) && Tracks(chain.filters, StatesAfter(fs, msgs))
    {
      next := map[];
      out := [];
      var i := 0;
      assert msgs[..0] == [];
      while i < |msgs|
        invariant 0 <= i <= |msgs| && chain.filters == old(chain.filters) && Marks(prev, seen)
        invariant Tracks(chain.filters, StatesAfter(fs, msgs[..i]))
        invariant Marks(next, Digests(Accepted(fs, msgs[..i])))
        invariant out == Unseen(Accepted(fs, msgs[..i]), seen)
      {
        hide *;
        BlockStep(fs, msgs, i, seen);
        var ok := chain.Match(msgs[i], StatesAfter(fs, msgs[..i]));
        if ok {
          var digest := NewDigest(msgs[i]);
          MarkOne(next, Accepted(fs, msgs[..i]), msgs[i]);
          next := next[digest := true];
          Marked(prev, seen, digest);
          if !(digest in prev && prev[digest]) {
            out := out + [msgs[i]];
          }
        }
        i := i + 1;
      }
      assert msgs[..i] == msgs;
      next, prev := prev, next;
    }
  }

  lemma BlockStep(fs: seq<FilterState>, msgs: seq<Message>, i: nat, seen: set<Digest>)
    requires i < |msgs|
    ensures StatesAfter(fs, msgs[..i + 1]) == Next(StatesAfter(fs, msgs[..i]), msgs[i])
    ensures var acc := Accepted(fs, msgs[..i]);
            if AllPass(StatesAfter(fs, msgs[..i]), msgs[i]) then
              Accepted(fs, msgs[..i + 1]) == acc + [msgs[i]]
              && Unseen(acc + [msgs[i]], seen) == Unseen(acc, seen) + (if NewDigest(msgs[i]) in seen then [] else [msgs[i]])
            else Accepted(fs, msgs[..i + 1]) == acc
  {
    hide Next, AllPass;
    assert msgs[..i + 1][..i] == msgs[..i];
    var acc := Accepted(fs, msgs[..i]);
    assert (acc + [msgs[i]])[..|acc|] == acc;
  }

  lemma Marked(marked: map<Digest, bool>, ds: set<Digest>, d: Digest)
    requires Marks(marked, ds)
    ensures (d in marked && marked[d]) <==> d in ds
  {
  }

  lemma MarkOne(marked: map<Digest, bool>, acc: seq<Message>, m: Message)
    requires Marks(marked, Digests(acc))
    ensures Marks(marked[NewDigest(m) := true], Digests(acc + [m]))
  {
    hide NewDigest;
    assert Digests(acc + [m]) == Digests(acc) + {NewDigest(m)};
  }

  lemma FirstBoundary(fs: seq<FilterState>, blocks: seq<seq<Message>>)
    ensures StatesBefore(fs, blocks, 0) == fs && Before(fs, blocks, 0) == {}
  {
  }

  lemma BlockBoundary(fs: seq<FilterState>, blocks: seq<seq<Message>>, k: nat)
    requires k < |blocks|
    ensures StatesBefore(fs, blocks, k + 1) == StatesAfter(StatesBefore(fs, blocks, k), blocks[k])
    ensures AcceptedIn(fs, blocks, k) == Accepted(StatesBefore(fs, blocks, k), blocks[k])
    ensures Before(fs, blocks, k + 1) == Digests(AcceptedIn(fs, blocks, k))
  {
    hide StatesAfter, Accepted, Digests;
  }

  /** All blocks in turn: block k's output is what the chain accepts in it and did not accept in block k - 1. */
  method Run(r: Receiver, blocks: seq<seq<Message>>, ghost fs: seq<FilterState>) returns (outs: seq<seq<Message>>)
    requires Apart(r.chain.filters) && Tracks(r.chain.filters, fs) && Marks(r.prev, {})
    modifies r, Parts(r.chain.filters)
    ensures |outs| == |blocks|
    ensures forall k :: 0 <= k < |blocks| ==> outs[k] == Unseen(AcceptedIn(fs, blocks, k), Before(fs, blocks, k))
    ensures forall k, m :: 0 <= k < |blocks| ==>
              (m in outs[k] <==>
                 m in AcceptedIn(fs, blocks, k) && (k == 0 || !HoldsLike(AcceptedIn(fs, blocks, k - 1), m)))
  {
    hide *;
    FirstBoundary(fs, blocks);
    outs := [];
    var k := 0;
    while k < |blocks|
      invariant 0 <= k <= |blocks| && |outs| == k
      invariant r.chain.filters == old(r.chain.filters)
      invariant Tracks(r.chain.filters, StatesBefore(fs, blocks, k)) && Marks(r.prev, Before(fs, blocks, k))
      invariant forall j :: 0 <= j < k ==> outs[j] == Unseen(AcceptedIn(fs, blocks, j), Before(fs, blocks, j))
    {
      BlockBoundary(fs, blocks, k);
      var out := r.Block(blocks[k], StatesBefore(fs, blocks, k), Before(fs, blocks, k));
      outs := outs + [out];
      k := k + 1;
    }
    forall k, m | 0 <= k < |blocks|
      ensures m in outs[k] <==>
                m in AcceptedIn(fs, blocks, k) && (k == 0 || !HoldsLike(AcceptedIn(fs, blocks, k - 1), m))
    {
      OutputMeans(fs, blocks, k, m);
    }
  }

  /** Two messages have one digest exactly if they agree in type, meter type, meter id and checksum. */
  lemma DigestMeans(a: Message, b: Message)
    ensures NewDigest(a) == NewDigest(b) <==>
            a.msgType == b.msgType && a.meterType == b.meterType && a.meterId == b.meterId && a.checksum == b.checksum
  {
  }

  /** Suppression keeps or drops a message as a whole, and works on each part of a block alone: what is kept stays
      in order. */
  lemma {:induction false} UnseenConcat(a: seq<Message>, b: seq<Message>, seen: set<Digest>)
    ensures Unseen(a + b, seen) == Unseen(a, seen) + Unseen(b, seen)
    decreases |b|
  {
    hide *;
    if b == [] {
      AppendNothing(a);
      AppendNothing(Unseen(a, seen));
      NothingUnseen(seen);
    } else {
      var front, m := b[..|b| - 1], b[|b| - 1];
      UnseenConcat(a, front, seen);
      assert b == front + [m];
      Assoc(a, front, [m]);
      UnseenOne(a + front, m, seen);
      UnseenOne(front, m, seen);
      Assoc(Unseen(a, seen), Unseen(front, seen), if NewDigest(m) in seen then [] else [m]);
    }
  }

  lemma NothingUnseen(seen: set<Digest>)
    ensures Unseen([], seen) == []
  {
  }

  /** A message is kept exactly if its digest has not been seen. */
  lemma UnseenOne(ms: seq<Message>, m: Message, seen: set<Digest>)
    ensures Unseen(ms + [m], seen) == Unseen(ms, seen) + (if NewDigest(m) in seen then [] else [m])
  {
    hide NewDigest;
    assert (ms + [m])[..|ms|] == ms;
  }

  lemma {:induction false} UnseenMembers(ms: seq<Message>, seen: set<Digest>, m: Message)
    ensures m in Unseen(ms, seen) <==> m in ms && NewDigest(m) !in seen
  {
    hide NewDigest;
    if ms != [] {
      var n := |ms| - 1;
      UnseenMembers(ms[..n], seen, m);
      assert ms == ms[..n] + [ms[n]];
    }
  }

  /** A message that agrees with m in type, meter type, meter id and checksum is among these. */
  ghost predicate HoldsLike(ms: seq<Message>, m: Message) {
    exists p :: p in ms && p.msgType == m.msgType && p.meterType == m.meterType && p.meterId == m.meterId
                && p.checksum == m.checksum
  }

  lemma LikeIsDigest(ms: seq<Message>, m: Message)
    ensures HoldsLike(ms, m) <==> NewDigest(m) in Digests(ms)
  {
    hide NewDigest, Digests;
    InDigests(ms, m);
    forall p: Message
      ensures NewDigest(p) == NewDigest(m) <==>
              p.msgType == m.msgType && p.meterType == m.meterType && p.meterId == m.meterId && p.checksum == m.checksum
    {
      DigestMeans(p, m);
    }
  }

  lemma InDigests(ms: seq<Message>, m: Message)
    ensures NewDigest(m) in Digests(ms) <==> exists p :: p in ms && NewDigest(p) == NewDigest(m)
  {
    hide NewDigest;
  }

  /** Without digests: a message accepted in block k is output exactly if no message accepted in the block before
      agrees with it in type, meter type, meter id and checksum. */
  lemma OutputMeans(fs: seq<FilterState>, blocks: seq<seq<Message>>, k: nat, m: Message)
    requires k < |blocks|
    ensures m in Unseen(AcceptedIn(fs, blocks, k), Before(fs, blocks, k)) <==>
            m in AcceptedIn(fs, blocks, k) && (k == 0 || !HoldsLike(AcceptedIn(fs, blocks, k - 1), m))
  {
    hide AcceptedIn, Digests, NewDigest, HoldsLike, Unseen;
    UnseenMembers(AcceptedIn(fs, blocks, k), Before(fs, blocks, k), m);
    if k > 0 {
      LikeIsDigest(AcceptedIn(fs, blocks, k - 1), m);
    }
  }

  // ----- what suppression means -----

  function OfDigest(ms: seq<Message>, d: Digest): seq<Message> {
    if ms == [] then []
    else
      var n := |ms| - 1;
      OfDigest(ms[..n], d) + (if NewDigest(ms[n]) == d then [ms[n]] else [])
  }

  /** Suppression is all or nothing for each digest, and keeps the order of what it lets through. */
  lemma {:induction false} UnseenByDigest(ms: seq<Message>, seen: set<Digest>, d: Digest)
    ensures OfDigest(Unseen(ms, seen), d) == if d in seen then [] else OfDigest(ms, d)
  {
    if ms != [] {
      var n := |ms| - 1;
      UnseenByDigest(ms[..n], seen, d);
      var u := Unseen(ms[..n], seen);
      assert (u + [ms[n]])[..|u|] == u;
      assert u + [] == u;
    }
  }

  lemma {:induction false} OfDigestEmpty(ms: seq<Message>, d: Digest)
    ensures OfDigest(ms, d) == [] <==> d !in Digests(ms)
  {
    if ms != [] {
      var n := |ms| - 1;
      OfDigestEmpty(ms[..n], d);
      assert ms == ms[..n] + [ms[n]];
      if d in Digests(ms) {
        var m :| m in ms && NewDigest(m) == d;
        assert m in ms[..n] || m == ms[n];
      } else {
        assert forall m :: m in ms[..n] ==> NewDigest(m) in Digests(ms);
        assert NewDigest(ms[n]) in Digests(ms);
      }
      if d in Digests(ms[..n]) {
        var m :| m in ms[..n] && NewDigest(m) == d;
        assert m in ms;
      }
    }
  }

  /** Block k's output holds a message of digest d exactly if the chain accepts one in block k and accepted
      none in block k - 1; then it holds all of them. */
  lemma OutputIff(fs: seq<FilterState>, blocks: seq<seq<Message>>, k: nat, d: Digest)
    requires k < |blocks|
    ensures var out := Unseen(AcceptedIn(fs, blocks, k), Before(fs, blocks, k));
            && (d in Digests(out) <==>
                  d in Digests(AcceptedIn(fs, blocks, k)) && (k == 0 || d !in Digests(AcceptedIn(fs, blocks, k - 1))))
            && (d in Digests(out) ==> OfDigest(out, d) == OfDigest(AcceptedIn(fs, blocks, k), d))
  {
    hide Accepted, Digests, Unseen, OfDigest, StatesBefore, AcceptedIn;
    var acc := AcceptedIn(fs, blocks, k);
    var out := Unseen(acc, Before(fs, blocks, k));
    UnseenByDigest(acc, Before(fs, blocks, k), d);
    OfDigestEmpty(out, d);
    OfDigestEmpty(acc, d);
  }

  /** A digest accepted in every block from a to b, but not in the block before a, is output in block a only. */
  lemma FirstBlockOnly(fs: seq<FilterState>, blocks: seq<seq<Message>>, d: Digest, a: nat, b: nat)
    requires a <= b < |blocks| && (a == 0 || d !in Digests(AcceptedIn(fs, blocks, a - 1)))
    requires forall k :: a <= k <= b ==> d in Digests(AcceptedIn(fs, blocks, k))
    ensures forall k :: a <= k <= b ==>
              (d in Digests(Unseen(AcceptedIn(fs, blocks, k), Before(fs, blocks, k))) <==> k == a)
  {
    forall k | a <= k <= b
      ensures d in Digests(Unseen(AcceptedIn(fs, blocks, k), Before(fs, blocks, k))) <==> k == a
    {
      hide Accepted, Digests, Unseen, StatesBefore, AcceptedIn, Before;
      OutputIff(fs, blocks, k, d);
    }
  }

  /** Over the blocks b to e, digest d is accepted throughout and output in block b only. */
  ghost predicate OutputAtStart(fs: seq<FilterState>, blocks: seq<seq<Message>>, d: Digest, b: nat, e: nat)
    requires e < |blocks|
  {
    forall k :: b <= k <= e ==>
      d in Digests(AcceptedIn(fs, blocks, k))
      && (d in Digests(Unseen(AcceptedIn(fs, blocks, k), Before(fs, blocks, k))) <==> k == b)
  }

  /** No accepted digest is lost: the stretch of blocks that accept it and contain block c starts at some block b,
      and over that stretch, however far it continues, it is output in block b and nowhere else. */
  lemma {:induction false} OutputOnce(fs: seq<FilterState>, blocks: seq<seq<Message>>, d: Digest, c: nat)
    returns (b: nat)
    requires c < |blocks| && d in Digests(AcceptedIn(fs, blocks, c))
    ensures b <= c
    ensures forall e :: c <= e < |blocks| && (forall k :: c <= k <= e ==> d in Digests(AcceptedIn(fs, blocks, k))) ==>
              OutputAtStart(fs, blocks, d, b, e)
  {
    hide Accepted, Digests, Unseen, StatesBefore, AcceptedIn, Before;
    if c > 0 && d in Digests(AcceptedIn(fs, blocks, c - 1)) {
      b := OutputOnce(fs, blocks, d, c - 1);
    } else {
      b := c;
      forall e | c <= e < |blocks| && (forall k :: c <= k <= e ==> d in Digests(AcceptedIn(fs, blocks, k)))
        ensures OutputAtStart(fs, blocks, d, b, e)
      {
        FirstBlockOnly(fs, blocks, d, c, e);
      }
    }
  }

  /** Block k's accepted messages, or its output, hold a message like m. */
  ghost predicate AcceptsLike(fs: seq<FilterState>, blocks: seq<seq<Message>>, k: nat, m: Message)
    requires k < |blocks|
  {
    HoldsLike(AcceptedIn(fs, blocks, k), m)
  }

  ghost predicate OutputsLike(fs: seq<FilterState>, blocks: seq<seq<Message>>, k: nat, m: Message)
    requires k < |blocks|
  {
    HoldsLike(Unseen(AcceptedIn(fs, blocks, k), Before(fs, blocks, k)), m)
  }

  /** Over the blocks b to e, messages like m are accepted throughout and output in block b only. */
  ghost predicate ReportedFrom(fs: seq<FilterState>, blocks: seq<seq<Message>>, m: Message, b: nat, e: nat)
    requires e < |blocks|
  {
    forall k :: b <= k <= e ==> AcceptsLike(fs, blocks, k, m) && (OutputsLike(fs, blocks, k, m) <==> k == b)
  }

  /** An accepted message is reported once: the stretch of blocks around c that accept messages like it starts
      at some block b, and over that stretch, however far it continues, block b and no other outputs one; it is
      the message itself if the stretch starts at block c. */
  lemma ReportedOnce(fs: seq<FilterState>, blocks: seq<seq<Message>>, m: Message, c: nat) returns (b: nat)
    requires c < |blocks| && m in AcceptedIn(fs, blocks, c)
    ensures b <= c
    ensures forall e :: c <= e < |blocks| && (forall k :: c <= k <= e ==> AcceptsLike(fs, blocks, k, m)) ==>
              ReportedFrom(fs, blocks, m, b, e)
    ensures b == c ==> m in Unseen(AcceptedIn(fs, blocks, c), Before(fs, blocks, c))
  {
    hide AcceptedIn, Before, Digests, Unseen, NewDigest, OutputAtStart;
    assert HoldsLike(AcceptedIn(fs, blocks, c), m);
    LikeIsDigest(AcceptedIn(fs, blocks, c), m);
    b := OutputOnce(fs, blocks, NewDigest(m), c);
    forall e | c <= e < |blocks| && (forall k :: c <= k <= e ==> AcceptsLike(fs, blocks, k, m))
      ensures ReportedFrom(fs, blocks, m, b, e)
    {
      forall k | c <= k <= e
        ensures NewDigest(m) in Digests(AcceptedIn(fs, blocks, k))
      {
        assert AcceptsLike(fs, blocks, k, m);
        LikeIsDigest(AcceptedIn(fs, blocks, k), m);
      }
      StartIsReport(fs, blocks, m, b, e);
    }
    if b == c {
      StretchOfOne(fs, blocks, NewDigest(m), c);
      LikeIsDigest(Unseen(AcceptedIn(fs, blocks, c), Before(fs, blocks, c)), m);
      UnseenMembers(AcceptedIn(fs, blocks, c), Before(fs, blocks, c), m);
      OutputUnseen(AcceptedIn(fs, blocks, c), Before(fs, blocks, c), NewDigest(m));
    }
  }

  lemma StretchOfOne(fs: seq<FilterState>, blocks: seq<seq<Message>>, d: Digest, c: nat)
    requires c < |blocks| && OutputAtStart(fs, blocks, d, c, c)
    ensures d in Digests(Unseen(AcceptedIn(fs, blocks, c), Before(fs, blocks, c)))
  {
    hide AcceptedIn, Before, Digests, Unseen;
  }

  lemma OutputUnseen(ms: seq<Message>, seen: set<Digest>, d: Digest)
    requires d in Digests(Unseen(ms, seen))
    ensures d !in seen
  {
    hide NewDigest, Unseen;
    var p :| p in Unseen(ms, seen) && NewDigest(p) == d;
    UnseenMembers(ms, seen, p);
  }

  lemma StartIsReport(fs: seq<FilterState>, blocks: seq<seq<Message>>, m: Message, b: nat, e: nat)
    requires e < |blocks| && OutputAtStart(fs, blocks, NewDigest(m), b, e)
    ensures ReportedFrom(fs, blocks, m, b, e)
  {
    hide AcceptedIn, Before, Digests, Unseen, NewDigest, HoldsLike;
    forall k | b <= k <= e
      ensures AcceptsLike(fs, blocks, k, m) && (OutputsLike(fs, blocks, k, m) <==> k == b)
    {
      LikeIsDigest(AcceptedIn(fs, blocks, k), m);
      LikeIsDigest(Unseen(AcceptedIn(fs, blocks, k), Before(fs, blocks, k)), m);
    }
  }

  // ----- what the chain means -----

  /** The filters before the unique filter. */
  function Plain(ids: Option<set<nat>>, types: Option<set<nat>>): seq<FilterState> {
    (if ids.Some? then [Ids(ids.value)] else []) + (if types.Some? then [Types(types.value)] else [])
  }

  /** The chain the command line builds: flags are visited in the order of their names. */
  function Chain(ids: Option<set<nat>>, types: Option<set<nat>>, unique: bool): seq<FilterState> {
    Plain(ids, types) + (if unique then [Last(map[])] else [])
  }

  method BuildChain(ids: Option<set<nat>>, types: Option<set<nat>>, unique: bool) returns (fc: FilterChain)
    ensures fresh(fc) && fresh(Parts(fc.filters))
    ensures Apart(fc.filters) && Tracks(fc.filters, Chain(ids, types, unique))
  {
    fc := new FilterChain();
    if ids.Some? {
      fc.Add(MeterIDFilter(ids.value));
    }
    if types.Some? {
      fc.Add(MeterTypeFilter(types.value));
    }
    if unique {
      var uf := new UniqueFilter();
      fc.Add(Unique(uf));
    }
  }

  predicate Wanted(m: Message, ids: Option<set<nat>>, types: Option<set<nat>>) {
    (ids.None? || m.meterId in ids.value) && (types.None? || m.meterType in types.value)
  }

  /** The wanted messages of one meter. */
  function OfMeter(ms: seq<Message>, ids: Option<set<nat>>, types: Option<set<nat>>, meter: nat): seq<Message> {
    if ms == [] then []
    else
      var n := |ms| - 1;
      OfMeter(ms[..n], ids, types, meter)
      + (if ms[n].meterId == meter && Wanted(ms[n], ids, types) then [ms[n]] else [])
  }

  /** Of every stretch of messages with equal checksums, the first. */
  function Collapse(ms: seq<Message>): seq<Message> {
    if ms == [] then []
    else
      var n := |ms| - 1;
      Collapse(ms[..n]) + (if n > 0 && ms[n - 1].checksum == ms[n].checksum then [] else [ms[n]])
  }

  /** Exactly the wanted messages of the meter are taken, and in order. */
  lemma {:induction false} OfMeterMembers(ms: seq<Message>, ids: Option<set<nat>>, types: Option<set<nat>>, meter: nat,
                                          m: Message)
    ensures m in OfMeter(ms, ids, types, meter) <==>
            && m in ms && m.meterId == meter
            && (ids.Some? ==> m.meterId in ids.value) && (types.Some? ==> m.meterType in types.value)
  {
    if ms != [] {
      var n := |ms| - 1;
      OfMeterMembers(ms[..n], ids, types, meter, m);
      assert ms == ms[..n] + [ms[n]];
    }
  }

  lemma {:induction false} OfMeterConcat(a: seq<Message>, b: seq<Message>, ids: Option<set<nat>>, types: Option<set<nat>>,
                                         meter: nat)
    ensures OfMeter(a + b, ids, types, meter) == OfMeter(a, ids, types, meter) + OfMeter(b, ids, types, meter)
    decreases |b|
  {
    hide *;
    if b == [] {
      NothingOf(ids, types, meter);
      AppendNothing(a);
      AppendNothing(OfMeter(a, ids, types, meter));
    } else {
      var front, m := b[..|b| - 1], b[|b| - 1];
      OfMeterConcat(a, front, ids, types, meter);
      assert b == front + [m];
      Assoc(a, front, [m]);
      OfMeterAppend(a + front, m, ids, types, meter);
      OfMeterAppend(front, m, ids, types, meter);
      Assoc(OfMeter(a, ids, types, meter), OfMeter(front, ids, types, meter),
            if m.meterId == meter && Wanted(m, ids, types) then [m] else []);
    }
  }

  /** A stretch of messages with equal checksums collapses to its first message. */
  lemma {:induction false} CollapseStretch(ms: seq<Message>, stretch: seq<Message>)
    requires stretch != [] && (ms == [] || ms[|ms| - 1].checksum != stretch[0].checksum)
    requires forall k :: 0 <= k < |stretch| ==> stretch[k].checksum == stretch[0].checksum
    ensures Collapse(ms + stretch) == Collapse(ms) + [stretch[0]]
    decreases |stretch|
  {
    var n := |stretch| - 1;
    var all := ms + stretch;
    assert all[..|ms| + n] == ms + stretch[..n];
    if n == 0 {
      assert ms + stretch[..n] == ms;
    } else {
      CollapseStretch(ms, stretch[..n]);
      assert all[|ms| + n - 1] == stretch[n - 1];
    }
  }

  lemma AllPassConcat(a: seq<FilterState>, b: seq<FilterState>, m: Message)
    ensures AllPass(a + b, m) <==> AllPass(a, m) && AllPass(b, m)
  {
    hide Passes;
    forall i | 0 <= i < |a + b|
      ensures i < |a| ==> (a + b)[i] == a[i]
      ensures i >= |a| ==> (a + b)[i] == b[i - |a|]
    {
    }
    if AllPass(a + b, m) {
      assert forall i :: 0 <= i < |a| ==> a[i] == (a + b)[i];
      assert forall i :: 0 <= i < |b| ==> b[i] == (a + b)[|a| + i];
    }
  }

  lemma AllPassOne(f: FilterState, m: Message)
    ensures AllPass([f], m) <==> Passes(f, m)
  {
    assert [f][0] == f;
  }

  /** A filter appended to the chain is asked only about what the chain accepts. */
  lemma NextAppend(fs: seq<FilterState>, f: FilterState, m: Message)
    ensures AllPass(fs + [f], m) <==> AllPass(fs, m) && Passes(f, m)
    ensures Next(fs + [f], m) == Next(fs, m) + [if AllPass(fs, m) then After(f, m) else f]
  {
    hide Passes, After;
    AllPassConcat(fs, [f], m);
    AllPassOne(f, m);
    assert forall i :: 0 <= i <= |fs| ==> (fs + [f])[..i] == fs[..i];
    assert fs[..|fs|] == fs;
    hide AllPass;
  }

  lemma IdsPass(ids: Option<set<nat>>, m: Message)
    ensures AllPass(Plain(ids, None), m) <==> (ids.None? || m.meterId in ids.value)
    ensures Next(Plain(ids, None), m) == Plain(ids, None)
  {
    if ids.Some? {
      AllPassOne(Ids(ids.value), m);
      assert Plain(ids, None) == [Ids(ids.value)];
    }
  }

  lemma PlainPasses(ids: Option<set<nat>>, types: Option<set<nat>>, m: Message)
    ensures AllPass(Plain(ids, types), m) <==> Wanted(m, ids, types)
    ensures Next(Plain(ids, types), m) == Plain(ids, types)
  {
    hide AllPass, Next;
    IdsPass(ids, m);
    assert Plain(ids, None) + [] == Plain(ids, None);
    if types.Some? {
      NextAppend(Plain(ids, None), Types(types.value), m);
      assert Plain(ids, types) == Plain(ids, None) + [Types(types.value)];
    }
  }

  ghost predicate Knows(last: map<nat, seq<Byte>>, meter: nat, ms: seq<Message>) {
    if ms == [] then meter !in last else meter in last && last[meter] == ms[|ms| - 1].checksum
  }

  /** The unique filter remembers the last wanted message of each meter. */
  lemma KnowsStep(last: map<nat, seq<Byte>>, meter: nat, mine: seq<Message>, m: Message)
    requires Knows(last, meter, mine)
    ensures var after := After(Last(last), m).last;
            Knows(after, meter, if m.meterId == meter then mine + [m] else mine)
    ensures m.meterId == meter ==>
              Collapse(mine + [m]) == Collapse(mine) + (if Passes(Last(last), m) then [m] else [])
  {
    assert (mine + [m])[..|mine|] == mine;
  }

  lemma OfMeterAppend(ms: seq<Message>, m: Message, ids: Option<set<nat>>, types: Option<set<nat>>, meter: nat)
    ensures OfMeter(ms + [m], ids, types, meter)
            == OfMeter(ms, ids, types, meter) + (if m.meterId == meter && Wanted(m, ids, types) then [m] else [])
  {
    assert (ms + [m])[..|ms|] == ms;
  }

  lemma ChainStep(fs: seq<FilterState>, ms: seq<Message>, m: Message)
    ensures StatesAfter(fs, ms + [m]) == Next(StatesAfter(fs, ms), m)
    ensures Accepted(fs, ms + [m]) == Accepted(fs, ms) + (if AllPass(StatesAfter(fs, ms), m) then [m] else [])
  {
    hide Next, AllPass;
    assert (ms + [m])[..|ms|] == ms;
  }

  /** Appending nothing. */
  lemma AppendNothing(ms: seq<Message>)
    ensures ms + [] == ms
  {
  }

  lemma AnyWants(m: Message)
    ensures Wanted(m, None, None)
  {
  }

  lemma AfterIsLast(last: map<nat, seq<Byte>>, m: Message)
    ensures After(Last(last), m).Last? && After(Last(last), m) == Last(After(Last(last), m).last)
  {
  }

  /** The chain with the unique filter after the messages ms, for one meter. */
  ghost predicate Collapsed(ids: Option<set<nat>>, types: Option<set<nat>>, ms: seq<Message>, meter: nat,
                            last: map<nat, seq<Byte>>)
  {
    && StatesAfter(Plain(ids, types) + [Last(map[])], ms) == Plain(ids, types) + [Last(last)]
    && Knows(last, meter, OfMeter(ms, ids, types, meter))
    && OfMeter(Accepted(Plain(ids, types) + [Last(map[])], ms), None, None, meter)
       == Collapse(OfMeter(ms, ids, types, meter))
  }

  lemma UnwantedStep(ids: Option<set<nat>>, types: Option<set<nat>>, ms: seq<Message>, m: Message, meter: nat,
                     last: map<nat, seq<Byte>>)
    requires Collapsed(ids, types, ms, meter, last) && !Wanted(m, ids, types)
    ensures Collapsed(ids, types, ms + [m], meter, last)
  {
    hide Plain, Next, AllPass, Knows, OfMeter, Collapse, Wanted, Passes, After, StatesAfter, Accepted;
    var plain := Plain(ids, types);
    var fs := plain + [Last(map[])];
    ChainStep(fs, ms, m);
    NextAppend(plain, Last(last), m);
    PlainPasses(ids, types, m);
    OfMeterAppend(ms, m, ids, types, meter);
    AppendNothing(Accepted(fs, ms));
    AppendNothing(OfMeter(ms, ids, types, meter));
  }

  lemma WantedStep(ids: Option<set<nat>>, types: Option<set<nat>>, ms: seq<Message>, m: Message, meter: nat,
                   last: map<nat, seq<Byte>>) returns (after: map<nat, seq<Byte>>)
    requires Collapsed(ids, types, ms, meter, last) && Wanted(m, ids, types)
    ensures Collapsed(ids, types, ms + [m], meter, after)
  {
    hide Plain, Next, AllPass, Knows, OfMeter, Collapse, Wanted, Passes, After, StatesAfter, Accepted;
    var plain := Plain(ids, types);
    var fs := plain + [Last(map[])];
    ChainStep(fs, ms, m);
    NextAppend(plain, Last(last), m);
    PlainPasses(ids, types, m);
    AfterIsLast(last, m);
    after := After(Last(last), m).last;
    var acc, mine := Accepted(fs, ms), OfMeter(ms, ids, types, meter);
    AppendNothing(acc);
    AppendNothing(mine);
    AppendNothing(OfMeter(acc, None, None, meter));
    AppendNothing(Collapse(mine));
    OfMeterAppend(ms, m, ids, types, meter);
    AnyWants(m);
    OfMeterAppend(acc, m, None, None, meter);
    KnowsStep(last, meter, mine, m);
  }

  lemma {:induction false} UniqueCollapses(ids: Option<set<nat>>, types: Option<set<nat>>, ms: seq<Message>, meter: nat)
    returns (last: map<nat, seq<Byte>>)
    ensures Collapsed(ids, types, ms, meter, last)
  {
    if ms == [] {
      last := map[];
    } else {
      var n := |ms| - 1;
      last := UniqueCollapses(ids, types, ms[..n], meter);
      hide *;
      assert ms == ms[..n] + [ms[n]];
      if Wanted(ms[n], ids, types) {
        last := WantedStep(ids, types, ms[..n], ms[n], meter, last);
      } else {
        UnwantedStep(ids, types, ms[..n], ms[n], meter, last);
      }
    }
  }

  lemma NothingOf(ids: Option<set<nat>>, types: Option<set<nat>>, meter: nat)
    ensures OfMeter([], ids, types, meter) == []
  {
  }

  lemma {:induction false} PlainAccepts(ids: Option<set<nat>>, types: Option<set<nat>>, ms: seq<Message>, meter: nat)
    ensures StatesAfter(Plain(ids, types), ms) == Plain(ids, types)
    ensures OfMeter(Accepted(Plain(ids, types), ms), None, None, meter) == OfMeter(ms, ids, types, meter)
  {
    hide *;
    if ms == [] {
      NothingAccepted(Plain(ids, types));
      NothingOf(ids, types, meter);
      NothingOf(None, None, meter);
    } else {
      var n := |ms| - 1;
      PlainAccepts(ids, types, ms[..n], meter);
      PlainPasses(ids, types, ms[n]);
      assert ms == ms[..n] + [ms[n]];
      ChainStep(Plain(ids, types), ms[..n], ms[n]);
      AppendNothing(Accepted(Plain(ids, types), ms[..n]));
      AppendNothing(OfMeter(ms[..n], ids, types, meter));
      OfMeterAppend(ms[..n], ms[n], ids, types, meter);
      OfMeterAppend(Accepted(Plain(ids, types), ms[..n]), ms[n], None, None, meter);
      AnyWants(ms[n]);
    }
  }

  /** What the command line's filters do to the readings of each meter: the wanted ones pass in order, and
      with the unique flag repetitions of a checksum are collapsed to the first. */
  lemma ChainMeaning(ids: Option<set<nat>>, types: Option<set<nat>>, unique: bool, ms: seq<Message>, meter: nat)
    ensures var wanted := OfMeter(ms, ids, types, meter);
            OfMeter(Accepted(Chain(ids, types, unique), ms), None, None, meter)
            == if unique then Collapse(wanted) else wanted
  {
    hide Accepted, OfMeter, Collapse, StatesAfter;
    if unique {
      assert Chain(ids, types, true) == Plain(ids, types) + [Last(map[])];
      var _ := UniqueCollapses(ids, types, ms, meter);
    } else {
      assert Chain(ids, types, false) == Plain(ids, types);
      PlainAccepts(ids, types, ms, meter);
    }
  }

  /** Without the unique filter the chain has no memory: it accepts exactly the wanted messages. */
  lemma {:induction false} PlainMembers(ids: Option<set<nat>>, types: Option<set<nat>>, ms: seq<Message>, m: Message)
    ensures StatesAfter(Plain(ids, types), ms) == Plain(ids, types)
    ensures multiset(Accepted(Plain(ids, types), ms))[m] == if Wanted(m, ids, types) then multiset(ms)[m] else 0
  {
    hide *;
    if ms == [] {
      NothingAccepted(Plain(ids, types));
    } else {
      var front, last := ms[..|ms| - 1], ms[|ms| - 1];
      PlainMembers(ids, types, front, m);
      assert ms == front + [last];
      ChainStep(Plain(ids, types), front, last);
      PlainPasses(ids, types, last);
      AppendNothing(Accepted(Plain(ids, types), front));
    }
  }

  lemma {:induction false} PlainStates(ids: Option<set<nat>>, types: Option<set<nat>>, blocks: seq<seq<Message>>, k: nat)
    requires k <= |blocks|
    ensures StatesBefore(Plain(ids, types), blocks, k) == Plain(ids, types)
  {
    hide StatesAfter, Plain;
    if k > 0 {
      PlainStates(ids, types, blocks, k - 1);
      PlainMembers(ids, types, blocks[k - 1], Message("", 0, 0, [], []));
    }
  }

  // ----- the chain over all blocks -----

  lemma Assoc(x: seq<Message>, y: seq<Message>, z: seq<Message>)
    ensures (x + y) + z == x + (y + z)
  {
  }

  lemma NothingAccepted(fs: seq<FilterState>)
    ensures StatesAfter(fs, []) == fs && Accepted(fs, []) == []
  {
  }

  lemma {:induction false} AcceptedConcat(fs: seq<FilterState>, a: seq<Message>, b: seq<Message>)
    ensures StatesAfter(fs, a + b) == StatesAfter(StatesAfter(fs, a), b)
    ensures Accepted(fs, a + b) == Accepted(fs, a) + Accepted(StatesAfter(fs, a), b)
    decreases |b|
  {
    hide *;
    if b == [] {
      AppendNothing(a);
      AppendNothing(Accepted(fs, a));
      NothingAccepted(StatesAfter(fs, a));
    } else {
      var front, m := b[..|b| - 1], b[|b| - 1];
      AcceptedConcat(fs, a, front);
      assert b == front + [m];
      Assoc(a, front, [m]);
      ChainStep(fs, a + front, m);
      var mid := StatesAfter(fs, a);
      ChainStep(mid, front, m);
      Assoc(Accepted(fs, a), Accepted(mid, front), if AllPass(StatesAfter(mid, front), m) then [m] else []);
    }
  }

  /** The messages of the first k blocks, and what the chain accepts of them block by block. */
  function Joined(blocks: seq<seq<Message>>, k: nat): seq<Message>
    requires k <= |blocks|
  {
    if k == 0 then [] else Joined(blocks, k - 1) + blocks[k - 1]
  }

  ghost function AcceptedUpTo(fs: seq<FilterState>, blocks: seq<seq<Message>>, k: nat): seq<Message>
    requires k <= |blocks|
  {
    if k == 0 then [] else AcceptedUpTo(fs, blocks, k - 1) + AcceptedIn(fs, blocks, k - 1)
  }

  /** Block boundaries do not matter to the chain, so its meaning holds over whole runs. */
  lemma {:induction false} AcrossBlocks(fs: seq<FilterState>, blocks: seq<seq<Message>>, k: nat)
    requires k <= |blocks|
    ensures StatesAfter(fs, Joined(blocks, k)) == StatesBefore(fs, blocks, k)
    ensures Accepted(fs, Joined(blocks, k)) == AcceptedUpTo(fs, blocks, k)
  {
    hide StatesAfter, Accepted;
    if k == 0 {
      NothingAccepted(fs);
    } else {
      AcrossBlocks(fs, blocks, k - 1);
      AcceptedConcat(fs, Joined(blocks, k - 1), blocks[k - 1]);
    }
  }
}
