/** The sender: batch buffers, the hand-over between its two loops, and forwarding. */
module Sender {
  import opened Basics
  import opened Batches
  import opened OffsetText

  datatype Event = Event(kind: int, remote: bool, body: int)

  /** One processed queue element: its events in the order they are visited, and its offset. */
  datatype Context = Context(events: seq<Event>, offset: Option<Offset>)

  // ----- the batch buffer -----

  /** Add keeps an item unless the buffer is full or the item has no offset. */
  function Added(s: seq<Context>, capacity: nat, c: Context): seq<Context> {
    if |s| == capacity || c.offset.None? then s else s + [c]
  }

  class BatchBuffer {
    const capacity: nat
    const buf: array<Option<Context>>
    var first: Option<Offset>
    var last: Option<Offset>
    var size: nat

    ghost predicate Valid()
      reads this, buf
    {
      && buf.Length == capacity && size <= capacity
      && (forall i :: 0 <= i < size ==> buf[i].Some? && buf[i].value.offset.Some?)
      && first == (if size == 0 then None else buf[0].value.offset)
      && last == (if size == 0 then None else buf[size - 1].value.offset)
    }

    ghost function Contents(): seq<Context>
      requires Valid()
      reads this, buf
    {
      seq(size, i requires 0 <= i < size && Valid() reads this, buf => buf[i].value)
    }

    constructor (capacity: nat)
      ensures Valid() && this.capacity == capacity && Contents() == [] && fresh(buf)
    {
      this.capacity := capacity;
      buf := new Option<Context>[capacity](_ => None);
      first, last, size := None, None, 0;
    }

    method Add(data: Context)
      requires Valid()
      modifies this, buf
      ensures Valid()
      ensures Contents() == Added(old(Contents()), capacity, data)
      ensures |old(Contents())| < capacity && data.offset.Some? ==> Contents() == old(Contents()) + [data]
      ensures |old(Contents())| == capacity || data.offset.None? ==> Contents() == old(Contents())
    {
      if size == capacity {
        return;
      } else if data.offset.None? {
        return;
      }
      if size == 0 {
        first := data.offset;
      }
      last := data.offset;
      buf[size] := Some(data);
      size := size + 1;
      assert Contents() == old(Contents()) + [data];
    }
  }

  // ----- forwarding one batch -----

  /** The remote events of one kind in a list of events, in order. */
  function OfKind(events: seq<Event>, kind: int): seq<Event> {
    if events == [] then []
    else
      OfKind(events[..|events| - 1], kind) +
      (var e := events[|events| - 1]; if e.remote && e.kind == kind then [e] else [])
  }

  /** The remote events of one kind in a batch, contexts in order. */
  function Share(batch: seq<Context>, kind: int): seq<Event> {
    if batch == [] then []
    else Share(batch[..|batch| - 1], kind) + OfKind(batch[|batch| - 1].events, kind)
  }

  /** All events of a batch. */
  function Events(batch: seq<Context>): seq<Event> {
    if batch == [] then [] else Events(batch[..|batch| - 1]) + batch[|batch| - 1].events
  }

  lemma CountAppend<T>(s: seq<T>, x: T, kept: bool, y: T)
    ensures multiset(s + if kept then [x] else [])[y] == multiset(s)[y] + if kept && x == y then 1 else 0
  {
  }

  lemma {:induction false} OfKindExact(events: seq<Event>, kind: int, e: Event)
    ensures multiset(OfKind(events, kind))[e] == if e.remote && e.kind == kind then multiset(events)[e] else 0
  {
    if events == [] {
    } else {
      var n := |events| - 1;
      OfKindExact(events[..n], kind, e);
      CountAppend(events[..n], events[n], true, e);
      CountAppend(OfKind(events[..n], kind), events[n], events[n].remote && events[n].kind == kind, e);
      assert events == events[..n] + [events[n]];
    }
  }

  /** A share is exact: every remote event of the kind as often as it occurs, and no other. */
  lemma {:induction false} ShareExact(batch: seq<Context>, kind: int, e: Event)
    ensures multiset(Share(batch, kind))[e] ==
            if e.remote && e.kind == kind then multiset(Events(batch))[e] else 0
  {
    if batch == [] {
    } else {
      var n := |batch| - 1;
      ShareExact(batch[..n], kind, e);
      OfKindExact(batch[n].events, kind, e);
    }
  }

  /** Where the events of one context are among all events of the batch. */
  lemma {:induction false} EventsInOrder(batch: seq<Context>, i: nat, j: nat)
    requires i < |batch| && j < |batch[i].events|
    ensures var p := |Events(batch[..i])| + j;
            p < |Events(batch)| && Events(batch)[p] == batch[i].events[j] &&
            |Events(batch[..i + 1])| == |Events(batch[..i])| + |batch[i].events|
    decreases |batch|
  {
    var n := |batch| - 1;
    assert batch[..i + 1][..i] == batch[..i];
    if i < n {
      EventsInOrder(batch[..n], i, j);
      assert batch[..n][..i] == batch[..i];
    } else {
      assert batch[..i + 1] == batch;
    }
  }

  predicate IsOf(e: Event, kind: int) { e.remote && e.kind == kind }

  /** `part` is what `all` has at the places `m`. */
  ghost predicate Picks(m: seq<nat>, part: seq<Event>, all: seq<Event>) {
    |m| == |part| && forall i :: 0 <= i < |m| ==> m[i] < |all| && part[i] == all[m[i]]
  }

  ghost predicate Increasing(m: seq<nat>) {
    forall i, j :: 0 <= i < j < |m| ==> m[i] < m[j]
  }

  /** The places of `m` are those of the remote events of the kind. */
  ghost predicate AllOf(m: seq<nat>, all: seq<Event>, kind: int) {
    forall p: nat :: p < |all| ==> (p in m <==> IsOf(all[p], kind))
  }

  lemma PicksMore(a: seq<nat>, part: seq<Event>, all: seq<Event>, b: seq<nat>, more: seq<Event>, rest: seq<Event>, m: seq<nat>)
    requires Picks(a, part, all) && Picks(b, more, rest) && Increasing(a) && Increasing(b)
    requires m == a + Moved(b, |all|)
    ensures Picks(m, part + more, all + rest) && Increasing(m)
  {
  }

  /** The places `b`, `n` further on. */
  ghost function Moved(b: seq<nat>, n: nat): (m: seq<nat>)
    ensures |m| == |b| && forall i :: 0 <= i < |b| ==> m[i] == n + b[i]
  {
    seq(|b|, i requires 0 <= i < |b| => n + b[i])
  }

  lemma AllOfMore(a: seq<nat>, all: seq<Event>, b: seq<nat>, rest: seq<Event>, kind: int, m: seq<nat>)
    requires AllOf(a, all, kind) && AllOf(b, rest, kind) && m == a + Moved(b, |all|)
    requires forall i :: 0 <= i < |a| ==> a[i] < |all|
    ensures AllOf(m, all + rest, kind)
  {
    forall p: nat | p < |all + rest|
      ensures p in m <==> IsOf((all + rest)[p], kind)
    {
      if p < |all| {
        assert p in m <==> p in a;
      } else {
        MovedHas(b, |all|, p);
        assert p in m <==> p in Moved(b, |all|);
      }
    }
  }

  lemma MovedHas(b: seq<nat>, n: nat, p: nat)
    requires p >= n
    ensures p in Moved(b, n) <==> p - n in b
  {
    if p - n in b {
      var i :| 0 <= i < |b| && b[i] == p - n;
      assert Moved(b, n)[i] == p;
    }
  }

  /** The places of the remote events of one kind in a list of events. */
  lemma {:induction false} OfKindInOrder(events: seq<Event>, kind: int) returns (m: seq<nat>)
    ensures Picks(m, OfKind(events, kind), events) && Increasing(m) && AllOf(m, events, kind)
  {
    m := [];
    if events != [] {
      var n := |events| - 1;
      var a := OfKindInOrder(events[..n], kind);
      var e := events[n];
      var b: seq<nat>, more := if IsOf(e, kind) then [0] else [], if IsOf(e, kind) then [e] else [];
      m := a + Moved(b, n);
      PicksMore(a, OfKind(events[..n], kind), events[..n], b, more, [e], m);
      AllOfMore(a, events[..n], b, [e], kind, m);
      assert events[..n] + [e] == events;
    }
  }

  /** A share keeps the order of the batch: its events are those at the places of the remote events
      of the kind, in increasing order. */
  lemma {:induction false} ShareInOrder(batch: seq<Context>, kind: int) returns (m: seq<nat>)
    ensures |m| == |Share(batch, kind)|
    ensures forall i :: 0 <= i < |m| ==> m[i] < |Events(batch)| && Share(batch, kind)[i] == Events(batch)[m[i]]
    ensures forall i, j :: 0 <= i < j < |m| ==> m[i] < m[j]
    ensures forall p: nat :: p < |Events(batch)| ==>
              (p in m <==> Events(batch)[p].remote && Events(batch)[p].kind == kind)
  {
    m := PlacesOf(batch, kind);
    assert forall p: nat :: p < |Events(batch)| ==> (p in m <==> IsOf(Events(batch)[p], kind));
  }

  lemma {:induction false} PlacesOf(batch: seq<Context>, kind: int) returns (m: seq<nat>)
    ensures Picks(m, Share(batch, kind), Events(batch)) && Increasing(m) && AllOf(m, Events(batch), kind)
  {
    m := [];
    if batch != [] {
      var n := |batch| - 1;
      var a := PlacesOf(batch[..n], kind);
      var b := OfKindInOrder(batch[n].events, kind);
      m := a + Moved(b, |Events(batch[..n])|);
      PicksMore(a, Share(batch[..n], kind), Events(batch[..n]), b, OfKind(batch[n].events, kind), batch[n].events, m);
      AllOfMore(a, Events(batch[..n]), b, batch[n].events, kind, m);
    }
  }

  /** A remote event of a context in the batch is in the share of its kind. */
  lemma {:induction false} InShare(batch: seq<Context>, c: Context, e: Event)
    requires c in batch && e in c.events && e.remote
    ensures e in Share(batch, e.kind)
  {
    var n := |batch| - 1;
    if c == batch[n] {
      OfKindExact(c.events, e.kind, e);
      assert multiset(OfKind(c.events, e.kind))[e] > 0;
    } else {
      InShare(batch[..n], c, e);
    }
  }

  datatype Call = Call(forwarder: nat, events: seq<Event>)

  /** One call for each share that is not empty, in forwarder order. */
  function Calls(shares: seq<seq<Event>>): seq<Call> {
    if shares == [] then []
    else
      var n := |shares| - 1;
      Calls(shares[..n]) + if shares[n] != [] then [Call(n, shares[n])] else []
  }

  lemma {:induction false} CallsExact(shares: seq<seq<Event>>, c: Call)
    ensures multiset(Calls(shares))[c] ==
            if c.forwarder < |shares| && c.events == shares[c.forwarder] && c.events != [] then 1 else 0
  {
    if shares == [] {
    } else {
      var n := |shares| - 1;
      CallsExact(shares[..n], c);
      CountAppend(Calls(shares[..n]), Call(n, shares[n]), shares[n] != [], c);
    }
  }

  function Shares(kinds: seq<int>, batch: seq<Context>): (r: seq<seq<Event>>)
    ensures |r| == |kinds|
  {
    seq(|kinds|, i requires 0 <= i < |kinds| => Share(batch, kinds[i]))
  }

  /** Each forwarder is called once with its share, in forwarder order, unless that is empty. */
  function Plan(kinds: seq<int>, batch: seq<Context>): seq<Call> {
    Calls(Shares(kinds, batch))
  }

  /** The plan is exact too: forwarder `f` is called, once, with exactly its share. */
  lemma PlanExact(kinds: seq<int>, batch: seq<Context>, c: Call)
    ensures multiset(Plan(kinds, batch))[c] ==
            if c.forwarder < |kinds| && c.events == Share(batch, kinds[c.forwarder]) && c.events != [] then 1 else 0
  {
    CallsExact(Shares(kinds, batch), c);
  }

  /** The forwarders are called in their order. */
  lemma {:induction false} PlanInOrder(kinds: seq<int>, batch: seq<Context>)
    ensures forall i :: 0 <= i < |Plan(kinds, batch)| ==> Plan(kinds, batch)[i].forwarder < |kinds|
    ensures forall i, j :: 0 <= i < j < |Plan(kinds, batch)| ==>
              Plan(kinds, batch)[i].forwarder < Plan(kinds, batch)[j].forwarder
  {
    if kinds == [] {
      assert Shares(kinds, batch) == [];
    } else {
      var n := |kinds| - 1;
      PlanInOrder(kinds[..n], batch);
      PlanStep(kinds, batch, n);
      assert kinds[..n + 1] == kinds;
    }
  }

  /** How many events the plan's calls carry whose forwarder satisfies `p`. */
  function Carried(calls: seq<Call>, p: nat -> bool): nat {
    if calls == [] then 0
    else
      var c := calls[|calls| - 1];
      Carried(calls[..|calls| - 1], p) + if p(c.forwarder) then |c.events| else 0
  }

  /** Neither the forwarder nor its fallbacker took the events. */
  function Lost(accepts: nat -> bool, rescues: nat -> bool): nat -> bool {
    (f: nat) => !accepts(f) && !rescues(f)
  }

  /** The sum of the first `n` values. */
  function SumTo(f: nat -> nat, n: nat): nat {
    if n == 0 then 0 else SumTo(f, n - 1) + f(n - 1)
  }

  /** What a plan carries for the forwarders with `p` are their shares. */
  lemma {:induction false} CarriedIsSum(kinds: seq<int>, batch: seq<Context>, p: nat -> bool, sizes: nat -> nat)
    requires forall f: nat :: f < |kinds| ==> sizes(f) == if p(f) then |Share(batch, kinds[f])| else 0
    ensures Carried(Plan(kinds, batch), p) == SumTo(sizes, |kinds|)
  {
    if kinds == [] {
      assert Shares(kinds, batch) == [];
    } else {
      var n := |kinds| - 1;
      var share, before := Share(batch, kinds[n]), Plan(kinds[..n], batch);
      CarriedIsSum(kinds[..n], batch, p, sizes);
      PlanStep(kinds, batch, n);
      assert kinds[..n + 1] == kinds;
      if share == [] {
        assert Plan(kinds, batch) == before + [] == before;
      } else {
        CarriedStep(before, Call(n, share), p);
      }
    }
  }

  /** Every event of every share is counted as a success or as a failure, or was taken by the
      fallbacker, as its forwarder says. */
  lemma {:induction false} CountsAddUp(calls: seq<Call>, accepts: nat -> bool, rescues: nat -> bool)
    ensures Carried(calls, accepts) + Carried(calls, Lost(accepts, rescues)) +
            Carried(calls, (f: nat) => !accepts(f) && rescues(f)) == Carried(calls, (f: nat) => true)
  {
    if calls != [] {
      CountsAddUp(calls[..|calls| - 1], accepts, rescues);
    }
  }

  ghost predicate GroupedAt(events: map<int, seq<Event>>, batch: seq<Context>, part: seq<Event>, k: int) {
    if k in events then events[k] == Share(batch, k) + OfKind(part, k) && events[k] != []
    else Share(batch, k) + OfKind(part, k) == []
  }

  /** What the grouping has collected from whole contexts and a part of the next one. */
  ghost predicate Grouped(events: map<int, seq<Event>>, batch: seq<Context>, part: seq<Event>) {
    forall k :: GroupedAt(events, batch, part, k)
  }

  /** The grouping loops of consume. */
  method Group(b: BatchBuffer) returns (events: map<int, seq<Event>>)
    requires b.Valid()
    ensures forall k :: Share(b.Contents(), k) == if k in events then events[k] else []
  {
    ghost var batch := b.Contents();
    events := map[];
    for i := 0 to b.size
      invariant Grouped(events, batch[..i], [])
    {
      events := GroupContext(events, batch[..i], b.buf[i].value.events);
      NextContext(events, batch, i);
    }
    assert batch[..|batch|] == batch;
    GroupedShares(events, batch);
  }

  method GroupContext(grouped: map<int, seq<Event>>, ghost batch: seq<Context>, context: seq<Event>)
    returns (events: map<int, seq<Event>>)
    requires Grouped(grouped, batch, [])
    ensures Grouped(events, batch, context)
  {
    events := grouped;
    for j := 0 to |context|
      invariant Grouped(events, batch, context[..j])
    {
      var e := context[j];
      NextEvent(events, batch, context, j);
      if e.remote {
        events := events[e.kind := (if e.kind in events then events[e.kind] else []) + [e]];
      }
    }
    assert context[..|context|] == context;
  }

  function Collected(events: map<int, seq<Event>>, e: Event): map<int, seq<Event>> {
    if e.remote then events[e.kind := (if e.kind in events then events[e.kind] else []) + [e]] else events
  }

  lemma NextEventAt(events: map<int, seq<Event>>, batch: seq<Context>, part: seq<Event>, e: Event, k: int)
    requires GroupedAt(events, batch, part, k)
    ensures GroupedAt(Collected(events, e), batch, part + [e], k)
  {
    assert (part + [e])[..|part|] == part;
    var here := if e.remote && e.kind == k then [e] else [];
    assert OfKind(part + [e], k) == OfKind(part, k) + here;
    assert Share(batch, k) + (OfKind(part, k) + here) == (Share(batch, k) + OfKind(part, k)) + here;
  }

  lemma NextEvent(events: map<int, seq<Event>>, batch: seq<Context>, context: seq<Event>, j: nat)
    requires j < |context| && Grouped(events, batch, context[..j])
    ensures Grouped(Collected(events, context[j]), batch, context[..j + 1])
  {
    var next := context[..j + 1];
    assert next == context[..j] + [context[j]];
    forall k
      ensures GroupedAt(Collected(events, context[j]), batch, next, k)
    {
      NextEventAt(events, batch, context[..j], context[j], k);
    }
  }

  lemma NextContext(events: map<int, seq<Event>>, batch: seq<Context>, i: nat)
    requires i < |batch| && Grouped(events, batch[..i], batch[i].events)
    ensures Grouped(events, batch[..i + 1], [])
  {
    var next := batch[..i + 1];
    assert next[..i] == batch[..i];
    forall k
      ensures GroupedAt(events, next, [], k)
    {
      assert GroupedAt(events, batch[..i], batch[i].events, k);
    }
  }

  /** The visit of the grouped events for one forwarder: a map is visited in any order, and at
      most one key is the forwarder's type. */
  method ShareFor(events: map<int, seq<Event>>, kind: int) returns (share: seq<Event>)
    ensures share == if kind in events then events[kind] else []
  {
    share := [];
    var keys: set<int> := events.Keys;
    while keys != {}
      invariant keys <= events.Keys
      invariant kind in keys ==> share == []
      invariant kind !in keys ==> share == if kind in events then events[kind] else []
      decreases |keys|
    {
      ghost var some := HasMember(keys);
      var t :| t in keys;
      keys := keys - {t};
      if kind == t {
        share := events[t];
      }
    }
  }

  lemma GroupedShares(events: map<int, seq<Event>>, batch: seq<Context>)
    requires Grouped(events, batch, [])
    ensures forall k :: Share(batch, k) == if k in events then events[k] else []
  {
    forall k
      ensures Share(batch, k) == if k in events then events[k] else []
    {
      assert GroupedAt(events, batch, [], k);
      assert Share(batch, k) + OfKind([], k) == Share(batch, k);
    }
  }

  lemma PlanStep(kinds: seq<int>, batch: seq<Context>, f: nat)
    requires f < |kinds|
    ensures var share := Share(batch, kinds[f]);
            Plan(kinds[..f + 1], batch) == Plan(kinds[..f], batch) + if share != [] then [Call(f, share)] else []
  {
    assert Shares(kinds[..f + 1], batch)[..f] == Shares(kinds[..f], batch);
  }

  lemma CarriedStep(calls: seq<Call>, c: Call, p: nat -> bool)
    ensures Carried(calls + [c], p) == Carried(calls, p) + if p(c.forwarder) then |c.events| else 0
  {
    assert (calls + [c])[..|calls|] == calls;
  }

  /** The forwarding loops of consume. */
  method ForwardAll(events: map<int, seq<Event>>, ghost batch: seq<Context>, kinds: seq<int>,
                    accepts: nat -> bool, rescues: nat -> bool)
    returns (calls: seq<Call>, succeeded: nat, failed: nat)
    requires forall k :: Share(batch, k) == if k in events then events[k] else []
    ensures calls == Plan(kinds, batch)
    ensures succeeded == Carried(calls, accepts)
    ensures failed == Carried(calls, Lost(accepts, rescues))
  {
    calls, succeeded, failed := [], 0, 0;
    ghost var lost := Lost(accepts, rescues);
    for f := 0 to |kinds|
      invariant calls == Plan(kinds[..f], batch)
      invariant succeeded == Carried(calls, accepts)
      invariant failed == Carried(calls, lost)
    {
      var share := ShareFor(events, kinds[f]);
      PlanStep(kinds, batch, f);
      if share != [] {
        CarriedStep(calls, Call(f, share), accepts);
        CarriedStep(calls, Call(f, share), lost);
        calls := calls + [Call(f, share)];
        if accepts(f) {
          succeeded := succeeded + |share|;
        } else if !rescues(f) {
          failed := failed + |share|;
        }
      }
    }
    assert kinds[..|kinds|] == kinds;
  }

  /** consume: group by type, forward, fall back, acknowledge the last offset. The results of
      Forward and FallBack are given per forwarder. */
  method Consume(b: BatchBuffer, kinds: seq<int>, accepts: nat -> bool, rescues: nat -> bool)
    returns (calls: seq<Call>, succeeded: nat, failed: nat, ack: Option<Option<Offset>>)
    requires b.Valid()
    ensures b.Contents() == [] ==> calls == [] && ack == None
    ensures b.Contents() != [] ==> calls == Plan(kinds, b.Contents()) && ack == Some(LastOffset(b.Contents()))
    ensures succeeded == Carried(calls, accepts)
    ensures failed == Carried(calls, Lost(accepts, rescues))
  {
    if b.size == 0 {
      return [], 0, 0, None;
    }
    var events := Group(b);
    calls, succeeded, failed := ForwardAll(events, b.Contents(), kinds, accepts, rescues);
    ack := Some(b.last);
  }

  // ----- store and flush of one partition -----

  /** Where the store loop is. */
  datatype Store = Idle | Sending | Replacing

  /** Where the flush loop is. */
  datatype Flush = Waiting | Consuming(batch: seq<Context>)

  /** One partition: the configuration, the current buffer and the loops; then the history of
      inputs, of consumed batches and of acknowledged offsets. */
  datatype State = State(
    max: nat, minFlush: int, buffer: seq<Context>, store: Store, flush: Flush,
    inputs: seq<Context>, consumed: seq<seq<Context>>, acks: seq<Option<Offset>>)

  datatype Action = Input(c: Context) | Tick | HandOver | Replace | Finish

  function Start(max: nat, minFlush: int): State {
    State(max, minFlush, [], Idle, Waiting, [], [], [])
  }

  predicate Enabled(s: State, a: Action) {
    match a
    case Input(c) => s.store.Idle?
    case Tick => s.store.Idle?
    case HandOver => s.store.Sending? && s.flush.Waiting?
    case Replace => s.store.Replacing?
    case Finish => s.flush.Consuming?
  }

  /** The offset the buffer keeps as its last one. */
  function LastOffset(batch: seq<Context>): Option<Offset> {
    if batch == [] then None else batch[|batch| - 1].offset
  }

  function Apply(s: State, a: Action): State
    requires Enabled(s, a)
  {
    match a
    case Input(c) =>
      var buffer := Added(s.buffer, s.max, c);
      s.(inputs := s.inputs + [c], buffer := buffer, store := if |buffer| == s.max then Sending else Idle)
    case Tick => if |s.buffer| >= s.minFlush then s.(store := Sending) else s
    case HandOver => s.(flush := Consuming(s.buffer), store := Replacing)
    case Replace => s.(buffer := [], store := Idle)
    case Finish =>
      var b := s.flush.batch;
      if b == [] then s.(flush := Waiting)
      else s.(flush := Waiting, consumed := s.consumed + [b], acks := s.acks + [LastOffset(b)])
  }

  /** Accepted and not yet consumed: the batch handed over, then the current buffer. */
  function Held(s: State): seq<Context> {
    (if s.flush.Consuming? then s.flush.batch else []) + (if s.store.Replacing? then [] else s.buffer)
  }

  /** The inputs are what was consumed and then what is held, in order. */
  ghost predicate Conserved(s: State) {
    s.inputs == Flat(s.consumed) + Held(s)
  }

  lemma FinishConserves(s: State)
    requires Conserved(s) && Enabled(s, Finish)
    ensures Conserved(Apply(s, Finish)) == true
  {
    var b, t := s.flush.batch, Apply(s, Finish);
    if b != [] {
      FlatAppend(s.consumed, b);
      var rest := if s.store.Replacing? then [] else s.buffer;
      TakenOver(s.inputs, Flat(s.consumed), b, rest, Flat(t.consumed), Held(t));
    }
  }

  lemma TakenOver(inputs: seq<Context>, f: seq<Context>, b: seq<Context>, rest: seq<Context>,
                  f': seq<Context>, held: seq<Context>)
    requires inputs == f + (b + rest) && f' == f + b && held == [] + rest
    ensures inputs == f' + held
  {
  }

  /** The timer or a full buffer: why a buffer may be handed over. */
  predicate Due(s: State, batch: seq<Context>) {
    |batch| == s.max || |batch| >= s.minFlush
  }

  /** Nothing else is on its way to consume, or was consumed. */
  ghost predicate AllDue(s: State) {
    && (s.store.Sending? ==> Due(s, s.buffer))
    && (s.flush.Consuming? ==> Due(s, s.flush.batch))
    && (forall i :: 0 <= i < |s.consumed| ==> Due(s, s.consumed[i]))
  }

  /** Every consumed batch is non-empty and bounded, and was acknowledged by its last offset. */
  ghost predicate Acknowledged(consumed: seq<seq<Context>>, acks: seq<Option<Offset>>, max: nat) {
    && |acks| == |consumed|
    && (forall i :: 0 <= i < |consumed| ==>
          0 < |consumed[i]| <= max && acks[i] == LastOffset(consumed[i]))
  }

  lemma AcknowledgedNext(consumed: seq<seq<Context>>, acks: seq<Option<Offset>>, max: nat, b: seq<Context>)
    requires Acknowledged(consumed, acks, max) && 0 < |b| <= max
    ensures Acknowledged(consumed + [b], acks + [LastOffset(b)], max) == true
  {
  }

  ghost predicate Inv(s: State) {
    && s.max >= 1
    && Conserved(s) == true
    && |s.buffer| <= s.max && (s.store.Idle? ==> |s.buffer| < s.max)
    && (s.flush.Consuming? ==> |s.flush.batch| <= s.max)
    && Acknowledged(s.consumed, s.acks, s.max) == true
    && (forall i :: 0 <= i < |s.inputs| ==> s.inputs[i].offset.Some?)
  }

  lemma InvInput(s: State, c: Context)
    requires Inv(s) && Enabled(s, Input(c)) && c.offset.Some?
    ensures Inv(Apply(s, Input(c)))
  {
    var t := Apply(s, Input(c));
    assert t.buffer == s.buffer + [c];
    assert Held(t) == Held(s) + [c];
    assert Flat(s.consumed) + (Held(s) + [c]) == s.inputs + [c];
  }

  lemma InvFinish(s: State)
    requires Inv(s) && Enabled(s, Finish)
    ensures Inv(Apply(s, Finish))
  {
    var b := s.flush.batch;
    FinishConserves(s);
    if b != [] {
      AcknowledgedNext(s.consumed, s.acks, s.max, b);
    }
  }

  /** Every step keeps the invariant; an input needs an offset. */
  lemma InvStep(s: State, a: Action)
    requires Inv(s) && Enabled(s, a) && (a.Input? ==> a.c.offset.Some?)
    ensures Inv(Apply(s, a))
  {
    match a
    case Input(c) => InvInput(s, c);
    case Finish => InvFinish(s);
    case _ => assert Held(Apply(s, a)) == Held(s);
  }

  ghost predicate CanRun(s: State, acts: seq<Action>)
    decreases |acts|
  {
    acts == [] ||
    (Enabled(s, acts[0]) && (acts[0].Input? ==> acts[0].c.offset.Some?) && CanRun(Apply(s, acts[0]), acts[1..]))
  }

  ghost function Final(s: State, acts: seq<Action>): State
    requires CanRun(s, acts)
    decreases |acts|
  {
    if acts == [] then s else Final(Apply(s, acts[0]), acts[1..])
  }

  /** The inputs a run brings, in order. */
  function InputsOf(acts: seq<Action>): seq<Context> {
    if acts == [] then [] else (if acts[0].Input? then [acts[0].c] else []) + InputsOf(acts[1..])
  }

  /** Every state a run reaches keeps the invariant. */
  lemma {:induction false} RunInv(s: State, acts: seq<Action>)
    requires Inv(s) && CanRun(s, acts)
    ensures Inv(Final(s, acts))
    decreases |acts|
  {
    if acts == [] {
    } else {
      InvStep(s, acts[0]);
      RunInv(Apply(s, acts[0]), acts[1..]);
    }
  }

  lemma {:induction false} RunInputs(s: State, acts: seq<Action>)
    requires CanRun(s, acts)
    ensures Final(s, acts).inputs == s.inputs + InputsOf(acts)
    decreases |acts|
  {
    if acts == [] {
    } else {
      var now := if acts[0].Input? then [acts[0].c] else [];
      assert Apply(s, acts[0]).inputs == s.inputs + now;
      RunInputs(Apply(s, acts[0]), acts[1..]);
      assert s.inputs + (now + InputsOf(acts[1..])) == (s.inputs + now) + InputsOf(acts[1..]);
    }
  }

  /** Lossless batching over every run: the inputs are the consumed batches, then the batch in
      hand, then the buffer, in order. */
  lemma Lossless(s: State, acts: seq<Action>)
    requires Inv(s) && CanRun(s, acts)
    ensures s.inputs + InputsOf(acts) == Flat(Final(s, acts).consumed) + Held(Final(s, acts))
  {
    RunInv(s, acts);
    RunInputs(s, acts);
  }

  /** Every batch that a run consumes has MaxBufferSize inputs, or at least MinFlushEvents. */
  lemma {:induction false} BatchesAreDue(s: State, acts: seq<Action>)
    requires CanRun(s, acts) && AllDue(s)
    ensures AllDue(Final(s, acts)) && Final(s, acts).max == s.max && Final(s, acts).minFlush == s.minFlush
    decreases |acts|
  {
    if acts != [] {
      BatchesAreDue(Apply(s, acts[0]), acts[1..]);
    }
  }

  /** The same of a new partition. */
  lemma BatchSizes(max: nat, minFlush: int, acts: seq<Action>, i: nat)
    requires CanRun(Start(max, minFlush), acts) && i < |Final(Start(max, minFlush), acts).consumed|
    ensures var b := Final(Start(max, minFlush), acts).consumed[i]; |b| == max || |b| >= minFlush
  {
    BatchesAreDue(Start(max, minFlush), acts);
  }

  /** The first tick with enough inputs hands the buffer over. */
  lemma TimerFlushes(s: State)
    requires Inv(s) && s.store.Idle? && s.flush.Waiting? && s.buffer != [] && |s.buffer| >= s.minFlush
    ensures CanRun(s, [Tick, HandOver, Finish])
    ensures Final(s, [Tick, HandOver, Finish]).consumed == s.consumed + [s.buffer]
  {
    RunThree(s, Tick, HandOver, Finish);
  }

  /** The input that fills the buffer hands it over at once, without a tick. */
  lemma FullFlushes(s: State, c: Context)
    requires Inv(s) && s.store.Idle? && s.flush.Waiting? && c.offset.Some? && |s.buffer| + 1 == s.max
    ensures CanRun(s, [Input(c), HandOver, Finish])
    ensures Final(s, [Input(c), HandOver, Finish]).consumed == s.consumed + [s.buffer + [c]]
  {
    RunThree(s, Input(c), HandOver, Finish);
  }

  lemma RunThree(s: State, a: Action, b: Action, c: Action)
    requires Enabled(s, a) && (a.Input? ==> a.c.offset.Some?) && !b.Input? && !c.Input?
    requires Enabled(Apply(s, a), b) && Enabled(Apply(Apply(s, a), b), c)
    ensures CanRun(s, [a, b, c]) && Final(s, [a, b, c]) == Apply(Apply(Apply(s, a), b), c)
  {
    var t, u := Apply(s, a), Apply(Apply(s, a), b);
    assert [a, b, c][1..] == [b, c] && [b, c][1..] == [c] && [c][1..] == [];
    assert CanRun(u, [c]) && CanRun(t, [b, c]);
    assert Final(u, [c]) == Apply(u, c) && Final(t, [b, c]) == Final(u, [c]);
  }

  lemma RunMore(s: State, acts: seq<Action>, a: Action)
    requires CanRun(s, acts) && Enabled(Final(s, acts), a) && (a.Input? ==> a.c.offset.Some?)
    ensures CanRun(s, acts + [a]) && Final(s, acts + [a]) == Apply(Final(s, acts), a)
    decreases |acts|
  {
    if acts == [] {
      assert [a][1..] == [];
      assert [] + [a] == [a];
    } else {
      RunMore(Apply(s, acts[0]), acts[1..], a);
      assert (acts + [a])[1..] == acts[1..] + [a];
    }
  }

  /** Without further inputs the two loops can always get to where everything accepted was consumed,
      unless the buffer in hand is not yet due. */
  lemma Drains(s: State) returns (acts: seq<Action>)
    requires Inv(s) && (s.store.Idle? ==> s.buffer == [] || Due(s, s.buffer))
    ensures CanRun(s, acts) && InputsOf(acts) == []
    ensures Flat(Final(s, acts).consumed) == s.inputs && Final(s, acts).buffer == []
    ensures Final(s, acts).store.Idle? && Final(s, acts).flush.Waiting?
    decreases Stages(s)
  {
    if Stages(s) == 0 {
      acts := [];
      assert Flat(s.consumed) + [] == s.inputs;
    } else {
      var a := if s.flush.Consuming? then Finish else if s.store.Replacing? then Replace
               else if s.store.Sending? then HandOver else Tick;
      InvStep(s, a);
      var rest := Drains(Apply(s, a));
      acts := [a] + rest;
      assert acts[1..] == rest;
    }
  }

  /** A bound on the steps that are left. */
  function Stages(s: State): nat {
    (if s.flush.Consuming? then 1 else 0) +
    match s.store
    case Idle => if s.buffer == [] then 0 else 6
    case Sending => 5
    case Replacing => 1
  }

  lemma StartInv(max: nat, minFlush: int)
    requires max >= 1
    ensures Inv(Start(max, minFlush))
  {
  }

  /** No run of a new partition loses, repeats or moves an input. */
  ghost predicate NeverLoses(max: nat, minFlush: int) {
    forall acts :: CanRun(Start(max, minFlush), acts) ==> Conserved(Final(Start(max, minFlush), acts))
  }

  /** That is so exactly if the buffers have a size: without one, Add drops every input. */
  lemma NeverLosesIff(max: nat, minFlush: int)
    ensures NeverLoses(max, minFlush) <==> max >= 1
  {
    if max >= 1 {
      StartInv(max, minFlush);
      forall acts | CanRun(Start(max, minFlush), acts)
        ensures Conserved(Final(Start(max, minFlush), acts))
      {
        RunInv(Start(max, minFlush), acts);
      }
    } else {
      var s, a := Start(max, minFlush), Input(Context([], Some(Offset(0, ""))));
      var t := Apply(s, a);
      assert [a][1..] == [];
      assert CanRun(t, []) && CanRun(s, [a]) && Final(s, [a]) == t;
    }
  }

  /** An input without an offset, which CanRun excludes, is dropped by every buffer. */
  lemma NoOffsetLost(s: State, c: Context)
    requires Inv(s) && s.store.Idle? && c.offset.None?
    ensures !Conserved(Apply(s, Input(c)))
  {
    var t := Apply(s, Input(c));
    assert |t.inputs| == |s.inputs| + 1 && Held(t) == Held(s);
  }

  /** Acknowledged offsets follow input order: the `i`-th one belongs to the input that ends the
      first `i + 1` batches, and every input up to it was given to consume. */
  lemma AckSafety(s: State, i: nat)
    requires Inv(s) && i < |s.acks|
    ensures var n := |Flat(s.consumed[..i + 1])|;
            0 < n <= |s.inputs| && s.acks[i] == s.inputs[n - 1].offset &&
            s.inputs[..n] == Flat(s.consumed[..i + 1])
    ensures i > 0 ==> |Flat(s.consumed[..i])| < |Flat(s.consumed[..i + 1])|
  {
    FlatNext(s.consumed, i);
    FlatPrefix(s.consumed, i + 1);
    EndsPrefix(s.inputs, Flat(s.consumed[..i]), s.consumed[i]);
  }

  lemma EndsPrefix(s: seq<Context>, before: seq<Context>, batch: seq<Context>)
    requires batch != [] && before + batch <= s
    ensures var n := |before + batch|; s[..n] == before + batch && s[n - 1] == batch[|batch| - 1]
  {
    var n := |before + batch|;
    assert (before + batch)[n - 1] == batch[|batch| - 1];
  }
}
