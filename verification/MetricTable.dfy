/** The table of sub-metrics: hash buckets that must behave like a map from label vectors. */
module MetricTable {
  import opened Labels
  import opened Basics

  /** A sub-metric is known by the number of the NewSubMetric call that made it. */
  datatype Entry = Entry(values: seq<Label>, metric: nat)

  type Buckets<H> = map<H, seq<Entry>>

  /** The index of the first entry with these values, or the length of the bucket. */
  function Find(bucket: seq<Entry>, values: seq<Label>): (i: nat)
    ensures i <= |bucket|
    ensures i < |bucket| ==> bucket[i].values == values
    ensures forall k :: 0 <= k < i ==> bucket[k].values != values
  {
    if bucket == [] then 0
    else if bucket[0].values == values then 0
    else 1 + Find(bucket[1..], values)
  }

  function Lookup<H>(t: Buckets<H>, h: H, values: seq<Label>): Option<nat> {
    if h in t && Find(t[h], values) < |t[h]| then Some(t[h][Find(t[h], values)].metric) else None
  }

  function Inserted<H>(t: Buckets<H>, h: H, e: Entry): Buckets<H> {
    t[h := (if h in t then t[h] else []) + [e]]
  }

  ghost predicate BucketOk<H>(f: Hasher<H>, h: H, bucket: seq<Entry>, created: seq<seq<Label>>) {
    && (forall i :: 0 <= i < |bucket| ==>
          HashOf(f, bucket[i].values) == h && bucket[i].metric < |created| &&
          created[bucket[i].metric] == bucket[i].values)
    && (forall i, j :: 0 <= i < j < |bucket| ==> bucket[i].values != bucket[j].values)
  }

  /** The vector of the `m`-th call is in its bucket. */
  ghost predicate Present<H>(f: Hasher<H>, t: Buckets<H>, created: seq<seq<Label>>, m: nat)
    requires m < |created|
  {
    HashOf(f, created[m]) in t && Entry(created[m], m) in t[HashOf(f, created[m])]
  }

  /** The table holds each created vector once, in the bucket of its hash, and nothing else. */
  ghost predicate TableOk<H>(f: Hasher<H>, t: Buckets<H>, created: seq<seq<Label>>) {
    && (forall h :: h in t ==> BucketOk(f, h, t[h], created))
    && (forall m :: 0 <= m < |created| ==> Present(f, t, created, m))
    && (forall m, n :: 0 <= m < n < |created| ==> created[m] != created[n])
  }

  /** Lookup is a map lookup: it finds the call that created the vector, if there was one. */
  lemma LookupIff<H>(f: Hasher<H>, t: Buckets<H>, created: seq<seq<Label>>, values: seq<Label>)
    requires TableOk(f, t, created)
    ensures match Lookup(t, HashOf(f, values), values)
            case Some(m) => m < |created| && created[m] == values
            case None => values !in created
  {
    var h := HashOf(f, values);
    match Lookup(t, h, values)
    case Some(m) => assert BucketOk(f, h, t[h], created);
    case None =>
      forall m | 0 <= m < |created|
        ensures created[m] != values
      {
        assert Present(f, t, created, m);
      }
  }

  /** Inserting a vector that was never created keeps the table right. */
  lemma InsertKeeps<H>(f: Hasher<H>, t: Buckets<H>, created: seq<seq<Label>>, values: seq<Label>)
    requires TableOk(f, t, created) && values !in created
    ensures TableOk(f, Inserted(t, HashOf(f, values), Entry(values, |created|)), created + [values])
  {
    var h, e := HashOf(f, values), Entry(values, |created|);
    var t', created' := Inserted(t, h, e), created + [values];
    forall k | k in t'
      ensures BucketOk(f, k, t'[k], created')
    {
      if k in t {
        assert BucketOk(f, k, t[k], created);
      }
    }
    forall m | 0 <= m < |created'|
      ensures Present(f, t', created', m)
    {
      if m < |created| {
        assert Present(f, t, created, m);
        var k := HashOf(f, created[m]);
        if k == h {
          assert t'[k] == t[k] + [e];
        }
      } else {
        assert t'[h][|t'[h]| - 1] == e;
      }
    }
  }

  class BaseMetric<H(==)> {
    const f: Hasher<H>
    const keys: seq<Label>
    const curry: seq<Curried>
    var metrics: Buckets<H>
    var created: seq<seq<Label>>

    ghost predicate Valid()
      reads this
    {
      && |curry| <= |keys| && WellCurried(curry, |keys|)
      && TableOk(f, metrics, created)
      && (forall m :: 0 <= m < |created| ==> |created[m]| == |keys|)
    }

    /** NewBaseMetric is the case of no curried labels. */
    constructor (f: Hasher<H>, keys: seq<Label>, curry: seq<Curried>)
      requires |curry| <= |keys| && WellCurried(curry, |keys|)
      ensures Valid() && this.f == f && this.keys == keys && this.curry == curry && created == []
    {
      this.f, this.keys, this.curry := f, keys, curry;
      metrics, created := map[], [];
    }

    /** getMetricWithHashAndLabelValues, for labels that merge into `merged`. */
    method Get(h: H, lvs: seq<Label>, ghost merged: seq<Label>) returns (r: Option<nat>)
      requires WellCurried(curry, |lvs| + |curry|) && Merged(merged, lvs, curry)
      ensures r == Lookup(metrics, h, merged)
    {
      if h in metrics {
        var i := FindMetric(metrics[h], lvs, curry, merged);
        if i < |metrics[h]| {
          return Some(metrics[h][i].metric);
        }
      }
      return None;
    }

    /** GetMetricWithLabelValues, run without other callers: the sub-metric of the merged vector,
        created now if it did not exist; None if validation fails. */
    method GetMetricWithLabelValues(lvs: seq<Label>) returns (r: Option<nat>, ghost merged: seq<Label>)
      requires Valid()
      modifies this
      ensures Valid()
      ensures r.Some? <==> |lvs| == |keys| - |curry| && forall k :: 0 <= k < |lvs| ==> ValidUtf8(lvs[k])
      ensures r.None? ==> metrics == old(metrics) && created == old(created)
      ensures r.Some? ==> Merged(merged, lvs, curry) && r.value < |created| && created[r.value] == merged
      ensures r.Some? ==> created == old(created) + if merged in old(created) then [] else [merged]
    {
      merged := [];
      var ok := ValidateLabelValues(lvs, |keys| - |curry|);
      if !ok {
        return None, merged;
      }
      var inlined := InlineLabelValues(lvs, curry);
      merged := inlined.value;
      var h := HashLabelValues(f, lvs, curry, merged);
      LookupIff(f, metrics, created, merged);
      var found := Get(h, lvs, merged);
      if found.None? {
        // under the write lock the lookup is made again
        found := Get(h, lvs, merged);
        if found.None? {
          InsertKeeps(f, metrics, created, merged);
          metrics := Inserted(metrics, h, Entry(inlined.value, |created|));
          created := created + [inlined.value];
          found := Some(|created| - 1);
        }
      }
      return found, merged;
    }

    /** WriteMetric: each created vector once, its values paired with the keys, in whatever order the
        map is visited. */
    method WriteMetric() returns (out: seq<Written>)
      requires Valid()
      ensures forall m :: 0 <= m < |created| ==> Emits(out, m)
      ensures forall i, j :: 0 <= i < j < |out| ==> out[i].metric != out[j].metric
      ensures forall i :: 0 <= i < |out| ==>
                out[i].metric < |created| && |out[i].labels| == |keys| &&
                forall k :: 0 <= k < |keys| ==> out[i].labels[k] == (keys[k], created[out[i].metric][k])
    {
      out := [];
      ghost var visited: seq<Entry> := [];
      var todo := metrics.Keys;
      while todo != {}
        invariant Visiting(f, metrics, created, todo, visited) == true
        invariant WrittenAs(keys, visited, out) == true
        decreases |todo|
      {
        ghost var some := HasMember(todo);
        var h :| h in todo;
        VisitNext(f, metrics, created, todo, visited, h);
        assert BucketOk(f, h, metrics[h], created);
        var written := WriteBucket(keys, metrics[h]);
        WrittenMore(keys, visited, out, metrics[h], written);
        todo := todo - {h};
        visited := visited + metrics[h];
        out := out + written;
      }
      VisitedAll(f, metrics, created, visited);
      WrittenAll(f, metrics, created, keys, visited, out);
    }
  }

  lemma WrittenAll<H>(f: Hasher<H>, t: Buckets<H>, created: seq<seq<Label>>, keys: seq<Label>,
                      visited: seq<Entry>, out: seq<Written>)
    requires Visiting(f, t, created, {}, visited) && WrittenAs(keys, visited, out)
    requires forall m :: 0 <= m < |created| ==> |created[m]| == |keys| && Entry(created[m], m) in visited
    ensures forall m :: 0 <= m < |created| ==> Emits(out, m)
    ensures forall i, j :: 0 <= i < j < |out| ==> out[i].metric != out[j].metric
    ensures forall i :: 0 <= i < |out| ==>
              out[i].metric < |created| && |out[i].labels| == |keys| &&
              forall k :: 0 <= k < |keys| ==> out[i].labels[k] == (keys[k], created[out[i].metric][k])
  {
    forall m: nat | m < |created|
      ensures Emits(out, m)
    {
      var i :| 0 <= i < |visited| && visited[i] == Entry(created[m], m);
      assert out[i].metric == m;
    }
    forall i | 0 <= i < |out|
      ensures out[i].metric < |created| && |out[i].labels| == |keys|
      ensures forall k :: 0 <= k < |keys| ==> out[i].labels[k] == (keys[k], created[out[i].metric][k])
    {
      assert Listed(f, visited[i], t, created);
    }
  }

  /** The entries of all buckets but those still to do, each once. */
  ghost predicate Visiting<H>(f: Hasher<H>, t: Buckets<H>, created: seq<seq<Label>>, todo: set<H>, visited: seq<Entry>) {
    && todo <= t.Keys
    && (forall h :: h in t && h !in todo ==> forall e :: e in t[h] ==> e in visited)
    && (forall i :: 0 <= i < |visited| ==>
          Listed(f, visited[i], t, created) && HashOf(f, visited[i].values) !in todo)
    && (forall i, j :: 0 <= i < j < |visited| ==> visited[i].metric != visited[j].metric)
  }

  lemma VisitNext<H>(f: Hasher<H>, t: Buckets<H>, created: seq<seq<Label>>, todo: set<H>, visited: seq<Entry>, h: H)
    requires TableOk(f, t, created) && Visiting(f, t, created, todo, visited) && h in todo
    ensures Visiting(f, t, created, todo - {h}, visited + t[h]) == true
  {
    assert BucketOk(f, h, t[h], created);
    BucketDistinct(f, h, t[h], created, visited);
  }

  lemma VisitedAll<H>(f: Hasher<H>, t: Buckets<H>, created: seq<seq<Label>>, visited: seq<Entry>)
    requires TableOk(f, t, created) && Visiting(f, t, created, {}, visited)
    ensures forall m :: 0 <= m < |created| ==> Entry(created[m], m) in visited
  {
    forall m | 0 <= m < |created|
      ensures Entry(created[m], m) in visited
    {
      assert Present(f, t, created, m);
    }
  }

  /** What a sub-metric is given to write itself with. */
  datatype Written = Written(labels: seq<(Label, Label)>, metric: nat)

  ghost predicate Emits(out: seq<Written>, m: nat) {
    exists i :: 0 <= i < |out| && out[i].metric == m
  }

  /** Each key with the value at its place. */
  function Labelled(keys: seq<Label>, values: seq<Label>): (r: seq<(Label, Label)>)
    requires |values| == |keys|
    ensures |r| == |keys|
  {
    seq(|keys|, i requires 0 <= i < |keys| => (keys[i], values[i]))
  }

  ghost predicate WrittenAs(keys: seq<Label>, entries: seq<Entry>, out: seq<Written>) {
    |out| == |entries| &&
    forall i :: 0 <= i < |out| ==>
      |entries[i].values| == |keys| && out[i] == Written(Labelled(keys, entries[i].values), entries[i].metric)
  }

  lemma WrittenMore(keys: seq<Label>, entries: seq<Entry>, out: seq<Written>, more: seq<Entry>, written: seq<Written>)
    requires WrittenAs(keys, entries, out) && WrittenAs(keys, more, written)
    ensures WrittenAs(keys, entries + more, out + written) == true
  {
  }

  /** The inner loops of WriteMetric. */
  method WriteBucket(keys: seq<Label>, bucket: seq<Entry>) returns (out: seq<Written>)
    requires forall i :: 0 <= i < |bucket| ==> |bucket[i].values| == |keys|
    ensures WrittenAs(keys, bucket, out)
  {
    out := [];
    for i := 0 to |bucket|
      invariant WrittenAs(keys, bucket[..i], out)
    {
      var labels: seq<(Label, Label)> := [];
      for k := 0 to |keys|
        invariant |labels| == k && forall j :: 0 <= j < k ==> labels[j] == (keys[j], bucket[i].values[j])
      {
        labels := labels + [(keys[k], bucket[i].values[k])];
      }
      assert labels == Labelled(keys, bucket[i].values);
      out := out + [Written(labels, bucket[i].metric)];
    }
    assert bucket[..|bucket|] == bucket;
  }

  /** findMetricWithLabelValues. */
  method FindMetric(bucket: seq<Entry>, lvs: seq<Label>, curry: seq<Curried>, ghost merged: seq<Label>) returns (i: nat)
    requires WellCurried(curry, |lvs| + |curry|) && Merged(merged, lvs, curry)
    ensures i == Find(bucket, merged)
  {
    i := 0;
    while i < |bucket|
      invariant i <= |bucket| && forall k :: 0 <= k < i ==> bucket[k].values != merged
    {
      var same := MatchLabelValues(bucket[i].values, lvs, curry);
      SameMerged(bucket[i].values, merged, lvs, curry);
      if same {
        return;
      }
      i := i + 1;
    }
  }

  ghost predicate Listed<H>(f: Hasher<H>, e: Entry, t: Buckets<H>, created: seq<seq<Label>>) {
    e.metric < |created| && created[e.metric] == e.values && HashOf(f, e.values) in t
  }

  lemma BucketDistinct<H>(f: Hasher<H>, h: H, bucket: seq<Entry>, created: seq<seq<Label>>, out: seq<Entry>)
    requires BucketOk(f, h, bucket, created)
    requires forall m, n :: 0 <= m < n < |created| ==> created[m] != created[n]
    requires forall i :: 0 <= i < |out| ==> out[i].metric < |created| && created[out[i].metric] == out[i].values
    requires forall i :: 0 <= i < |out| ==> HashOf(f, out[i].values) != h
    requires forall i, j :: 0 <= i < j < |out| ==> out[i].metric != out[j].metric
    ensures var all := out + bucket; forall i, j :: 0 <= i < j < |all| ==> all[i].metric != all[j].metric
  {
  }

  lemma SameMerged(v: seq<Label>, merged: seq<Label>, lvs: seq<Label>, curry: seq<Curried>)
    requires Merged(merged, lvs, curry)
    ensures Merged(v, lvs, curry) <==> v == merged
  {
    if Merged(v, lvs, curry) {
      forall i | 0 <= i < |v|
        ensures v[i] == merged[i]
      {
        assert MergedAt(v[i], lvs, curry, i) && MergedAt(merged[i], lvs, curry, i);
        MergedUnique(v[i], merged[i], lvs, curry, i);
      }
    }
  }

  // ----- callers interleaving between the two locks -----

  /** A caller before its read-locked lookup, after a miss, and with its sub-metric. */
  datatype Caller = Asking(v: seq<Label>) | Missed(v: seq<Label>) | Got(v: seq<Label>, metric: nat)

  datatype State<H> = State(t: Buckets<H>, created: seq<seq<Label>>, callers: seq<Caller>)

  /** One atomic step of caller `i`: the lookup under the read lock, or the retry and creation
      under the write lock. */
  ghost function Step<H>(f: Hasher<H>, s: State<H>, i: nat): State<H>
    requires i < |s.callers| && !s.callers[i].Got?
  {
    var v := s.callers[i].v;
    match Lookup(s.t, HashOf(f, v), v)
    case Some(m) => s.(callers := s.callers[i := Got(v, m)])
    case None =>
      if s.callers[i].Asking? then s.(callers := s.callers[i := Missed(v)])
      else State(Inserted(s.t, HashOf(f, v), Entry(v, |s.created|)), s.created + [v],
                 s.callers[i := Got(v, |s.created|)])
  }

  /** The labels a caller asks for. */
  ghost predicate Asks(c: Caller, asked: seq<Label>, times: nat) {
    c.v == asked && (c.Asking? <==> times == 0) && (c.Missed? ==> times == 1)
  }

  /** Every caller still asks for its labels; one that had a step has missed once, and one that had
      two has its sub-metric. */
  ghost predicate Inv<H>(f: Hasher<H>, s: State<H>, asked: seq<seq<Label>>, done: multiset<nat>) {
    && TableOk(f, s.t, s.created)
    && |s.callers| == |asked|
    && (forall i :: 0 <= i < |s.callers| ==> Asks(s.callers[i], asked[i], done[i]))
    && (forall i :: 0 <= i < |s.callers| && s.callers[i].Got? ==>
          s.callers[i].metric < |s.created| && s.created[s.callers[i].metric] == asked[i])
  }

  lemma InvStep<H>(f: Hasher<H>, s: State<H>, asked: seq<seq<Label>>, done: multiset<nat>, i: nat)
    requires Inv(f, s, asked, done) && i < |s.callers| && !s.callers[i].Got?
    ensures Inv(f, Step(f, s, i), asked, done + multiset{i})
  {
    var v := s.callers[i].v;
    LookupIff(f, s.t, s.created, v);
    if Lookup(s.t, HashOf(f, v), v).None? {
      InsertKeeps(f, s.t, s.created, v);
    }
  }

  ghost predicate CanRun<H>(f: Hasher<H>, s: State<H>, who: seq<nat>)
    decreases |who|
  {
    who == [] ||
    (who[0] < |s.callers| && !s.callers[who[0]].Got? && CanRun(f, Step(f, s, who[0]), who[1..]))
  }

  ghost function Final<H>(f: Hasher<H>, s: State<H>, who: seq<nat>): State<H>
    requires CanRun(f, s, who)
    decreases |who|
  {
    if who == [] then s else Final(f, Step(f, s, who[0]), who[1..])
  }

  lemma {:induction false} RunInv<H>(f: Hasher<H>, s: State<H>, asked: seq<seq<Label>>, done: multiset<nat>, who: seq<nat>)
    requires Inv(f, s, asked, done) && CanRun(f, s, who)
    ensures Inv(f, Final(f, s, who), asked, done + multiset(who))
    decreases |who|
  {
    if who == [] {
      assert done + multiset(who) == done;
    } else {
      InvStep(f, s, asked, done, who[0]);
      RunInv(f, Step(f, s, who[0]), asked, done + multiset{who[0]}, who[1..]);
      assert who == [who[0]] + who[1..];
      assert done + multiset{who[0]} + multiset(who[1..]) == done + multiset(who);
    }
  }

  /** Callers that ask for these labels, on an empty table. */
  ghost function Begin<H>(asked: seq<seq<Label>>): State<H> {
    State(map[], [], seq(|asked|, k requires 0 <= k < |asked| => Asking(asked[k])))
  }

  /** A caller that had two turns has its sub-metric, and one that has it was given that of the labels
      it asked for. */
  lemma GetsItsOwn<H>(f: Hasher<H>, asked: seq<seq<Label>>, who: seq<nat>, i: nat)
    requires CanRun(f, Begin(asked), who) && i < |asked|
    ensures var s := Final(f, Begin(asked), who);
            |s.callers| == |asked| && (multiset(who)[i] >= 2 ==> s.callers[i].Got?) &&
            (s.callers[i].Got? ==> s.callers[i].metric < |s.created| && s.created[s.callers[i].metric] == asked[i])
  {
    RunInv(f, Begin(asked), asked, multiset{}, who);
    assert multiset{} + multiset(who) == multiset(who);
  }

  /** For any hash function, however it collides, and any interleaving of any number of callers:
      two callers get the same sub-metric exactly when they asked for the same labels. */
  lemma SameLabelsSameMetric<H>(f: Hasher<H>, asked: seq<seq<Label>>, who: seq<nat>, i: nat, j: nat)
    requires CanRun(f, Begin(asked), who) && i < |asked| && j < |asked|
    ensures var cs := Final(f, Begin(asked), who).callers;
            |cs| == |asked| &&
            (cs[i].Got? && cs[j].Got? ==> (cs[i].metric == cs[j].metric <==> asked[i] == asked[j]))
  {
    RunInv(f, Begin(asked), asked, multiset{}, who);
    assert multiset{} + multiset(who) == multiset(who);
  }
}
