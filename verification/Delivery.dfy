/** What the pipeline delivers: at least once, over every run and through any number of crashes. */
module Delivery {
  import opened Bytes
  import opened Layout
  import opened Records
  import opened MmapQueue
  import opened Basics
  import opened Batches
  import Q = Interleaving
  import S = Sender
  import opened Pipeline

  /** The batches that consume worked off during the run. */
  ghost function Handed(u: Setup, y: System, acts: seq<Action>): set<seq<S.Context>>
    requires Inv(u, y) && CanRun(u, y, acts)
    decreases |acts|
  {
    if acts == [] then {} else
    InvStep(u, y, acts[0]);
    HandedBy(y, acts[0]) + Handed(u, Apply(u, y, acts[0]), acts[1..])
  }

  ghost function HandedBy(y: System, a: Action): set<seq<S.Context>> {
    if a == Send(S.Finish) && y.s.flush.Consuming? then {y.s.flush.batch} else {}
  }

  /** Some batch has the context. */
  ghost predicate InSome(batches: set<seq<S.Context>>, c: S.Context) {
    exists b :: b in batches && c in b
  }

  lemma StepHanded(u: Setup, y: System, a: Action, i: nat)
    requires Inv(u, y) && Enabled(u, y, a) && i in Apply(u, y, a).given
    ensures var c := Apply(u, y, a).given[i]; (i in y.given && y.given[i] == c) || InSome(HandedBy(y, a), c)
  {
    var c := Apply(u, y, a).given[i];
    if !(i in y.given && y.given[i] == c) {
      assert y.s.flush.batch in HandedBy(y, a) && c in y.s.flush.batch;
    }
  }

  /** The history holds nothing that was not in some consumed batch. */
  lemma {:induction false} GivenWasHanded(u: Setup, y: System, acts: seq<Action>, i: nat)
    requires Inv(u, y) && CanRun(u, y, acts) && i in Final(u, y, acts).given
    ensures var c := Final(u, y, acts).given[i]; (i in y.given && y.given[i] == c) || InSome(Handed(u, y, acts), c)
    decreases |acts|
  {
    if acts == [] {
    } else {
      InvStep(u, y, acts[0]);
      var t := Apply(u, y, acts[0]);
      GivenWasHanded(u, t, acts[1..], i);
      if i in t.given {
        StepHanded(u, y, acts[0], i);
      }
      HandedMore(HandedBy(y, acts[0]), Handed(u, t, acts[1..]), Final(u, y, acts).given[i]);
    }
  }

  lemma HandedMore(a: set<seq<S.Context>>, b: set<seq<S.Context>>, c: S.Context)
    ensures InSome(a, c) || InSome(b, c) ==> InSome(a + b, c)
  {
    if InSome(a, c) {
      var x :| x in a && c in x;
      assert x in a + b;
    } else if InSome(b, c) {
      var x :| x in b && c in x;
      assert x in a + b;
    }
  }

  /** At-least-once across crashes: after a crash every flushed record is either pending again,
      or what the processor made of that very record was given to consume. */
  lemma NeverSkips(u: Setup, y: System, store: Store, i: nat)
    requires Inv(u, y) && i < y.q.h.mark <= |y.q.h.log|
    requires MixOf(u.cfg.g, store, y.q.disk, y.q.store)
    requires y.q.hw <= Linear(u.cfg.g, y.q.diskMeta.committed) + u.cfg.g.Total()
    ensures Enabled(u, y, Crash(store))
    ensures var z := Apply(u, y, Crash(store)).q;
            if i < z.h.head then i in y.given && y.given[i].events == u.process(y.q.h.log[i])
            else i < |z.h.log| && Q.Pending(z)[i - z.h.head] == y.q.h.log[i]
  {
    assert Recovered(y.q, QueueStep(u.cfg, y.q, Q.Crash(store)));
    assert DeliveryKey(true);
    assert i in y.given ==> GivenAt(u, y.q.h.log, y.given, i);
  }

  /** Consume called the forwarders with what the processor made of the record: the batch has a context
      with just these events, and every remote one of them is in the share of its kind, with which each
      forwarder of that kind is called. */
  ghost predicate Served(batch: seq<S.Context>, events: seq<S.Event>) {
    && (exists c :: c in batch && c.events == events)
    && (forall e :: e in events && e.remote ==>
          e in S.Share(batch, e.kind) &&
          forall kinds: seq<int>, f: nat :: f < |kinds| && kinds[f] == e.kind ==>
            S.Call(f, S.Share(batch, e.kind)) in S.Plan(kinds, batch))
  }

  lemma HandedServes(batch: seq<S.Context>, c: S.Context)
    requires c in batch
    ensures Served(batch, c.events)
  {
    forall e | e in c.events && e.remote
      ensures e in S.Share(batch, e.kind)
    {
      S.InShare(batch, c, e);
    }
    forall e, kinds: seq<int>, f: nat | e in c.events && e.remote && f < |kinds| && kinds[f] == e.kind
      ensures S.Call(f, S.Share(batch, e.kind)) in S.Plan(kinds, batch)
    {
      S.InShare(batch, c, e);
      S.PlanExact(kinds, batch, S.Call(f, S.Share(batch, e.kind)));
      assert multiset(S.Plan(kinds, batch))[S.Call(f, S.Share(batch, e.kind))] == 1;
    }
  }

  /** The same over every run from an empty queue, through any number of earlier crashes: a
      flushed record is pending again, or consume worked off some batch with what the processor made
      of the record, and called every forwarder of the kind with each remote event of it. */
  lemma NeverSkipsInRuns(u: Setup, store0: Store, acts: seq<Action>, y: System, store: Store, i: nat)
    requires u.Valid() && WellFormed(u.cfg.g, store0)
    requires RunsTo(u, Boot(u, store0), acts, y)
    requires i < y.q.h.mark <= |y.q.h.log| && MixOf(u.cfg.g, store, y.q.disk, y.q.store)
    requires y.q.hw <= Linear(u.cfg.g, y.q.diskMeta.committed) + u.cfg.g.Total()
    ensures Inv(u, y) && Enabled(u, y, Crash(store))
    ensures var z := Apply(u, y, Crash(store)).q;
            if i < z.h.head then
              exists b :: b in Handed(u, Boot(u, store0), acts) && Served(b, u.process(y.q.h.log[i]))
            else i < |z.h.log| && Q.Pending(z)[i - z.h.head] == y.q.h.log[i]
  {
    NeverSkips(u, y, store, i);
    if i < Apply(u, y, Crash(store)).q.h.head {
      GivenWasHanded(u, Boot(u, store0), acts, i);
      var b :| b in Handed(u, Boot(u, store0), acts) && y.given[i] in b;
      HandedServes(b, y.given[i]);
    }
  }

  /** What the sender has, and what is on its way to it: for each record of this session, in order, what
      the processor made of it, with an offset that names the partition and decodes to the place after
      the record. */
  lemma CarriesEvents(u: Setup, y: System, i: nat)
    requires Inv(u, y) && i < |y.s.inputs + y.wire|
    ensures i < |y.q.offsets| && y.q.h.base + i < |y.q.h.log|
    ensures var c := (y.s.inputs + y.wire)[i];
            c.events == u.process(y.q.h.log[y.q.h.base + i]) && c.offset.Some? &&
            c.offset.value.partition == u.partition && u.decode(c.offset.value.position) == y.q.offsets[i]
  {
    assert CarriedAt(u, y.q.h.log, y.q.h.base, y.q.offsets, y.s.inputs + y.wire, i);
    OffsetShape(u.cfg, y.q, i);
  }

  /** What consume was given in this session are the session's records in order, each with the
      events its processing produced. */
  lemma ConsumedAreRecords(u: Setup, y: System, i: nat)
    requires Inv(u, y) && i < Consumed(y)
    ensures i < |y.q.offsets| && y.q.h.base + i < |y.q.h.log|
    ensures Flat(y.s.consumed)[i].events == u.process(y.q.h.log[y.q.h.base + i])
    ensures y.q.h.base + i in y.given && y.given[y.q.h.base + i] == Flat(y.s.consumed)[i]
  {
    assert y.s.inputs[i] == Flat(y.s.consumed)[i];
    assert (y.s.inputs + y.wire)[i] == y.s.inputs[i];
    assert DeliveryKey(true);
    assert RecordedAt(y.q.h.base, Flat(y.s.consumed), y.given, i);
    assert CarriedAt(u, y.q.h.log, y.q.h.base, y.q.offsets, y.s.inputs + y.wire, i);
  }
}
