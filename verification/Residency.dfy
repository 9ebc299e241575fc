/** Which segments are mapped while the queue runs, and when the swap of a full cache can end. */
module Residency {
  import opened Bytes
  import opened Layout
  import opened Records
  import opened SegmentCache
  import opened MmapQueue
  import opened Basics
  import opened Interleaving

  /** The queue at chunk grain and the indices of its mapped segments. */
  datatype System = System(q: State, mapped: set<nat>)

  /** The segment a step gets before it reads or writes. */
  ghost function Access(g: Geometry, q: State, a: Action): Option<nat> {
    match a
    case PutLength => Some(SkipCursor(g, q.meta.writing).id)
    case PutChunk => if q.writer.WBytes? then Some(q.writer.at.id) else None
    case GetLength => Some(SkipCursor(g, q.meta.reading).id)
    case GetChunk => if q.reader.RBytes? then Some(q.reader.at.id) else None
    case _ => None
  }

  /** What a step does to the mapped segments. A step that fails may have swapped before; a reader
      that leaves a segment has it unmapped. */
  ghost predicate Remapped(cfg: Config, y: System, a: Action, z: System)
    requires cfg.Valid()
  {
    var rid, wid := y.q.meta.reading.id, y.q.meta.writing.id;
    match Access(cfg.g, y.q, a)
    case Some(id) => Fetched(cfg.g, cfg.maxInMem, y.mapped, z.mapped, rid, wid, id)
    case None =>
      if a.WriteFails? || a.ReadFails? then
        z.mapped == y.mapped ||
        (|y.mapped| >= cfg.maxInMem && SwappedTo(cfg.g, cfg.maxInMem, y.mapped, z.mapped, rid, wid))
      else if a.PutReading? && z.q.meta.reading.id != rid then
        z.mapped == y.mapped - {Index(cfg.g, rid)}
      else z.mapped == y.mapped
  }

  ghost predicate Step(cfg: Config, y: System, a: Action, z: System) {
    Inv(cfg, y.q) && Enabled(cfg, y.q, a) && !a.Crash? && z.q == Apply(cfg, y.q, a) && Remapped(cfg, y, a, z)
  }

  /** What Initialize starts with, on a new queue or on what a crash left. */
  ghost predicate Opened(cfg: Config, y: System) {
    && Inv(cfg, y.q) && y.q.writer.WIdle? && y.q.reader.RIdle?
    && y.mapped == {Index(cfg.g, y.q.meta.reading.id), Index(cfg.g, y.q.meta.writing.id)}
  }

  ghost predicate IsRun(cfg: Config, ys: seq<System>, acts: seq<Action>) {
    && |ys| == |acts| + 1 && Opened(cfg, ys[0])
    && forall i :: 0 <= i < |acts| ==> StepAt(cfg, ys, acts, i)
  }

  ghost predicate StepAt(cfg: Config, ys: seq<System>, acts: seq<Action>, i: nat)
    requires i < |acts| && i + 1 < |ys|
  {
    Step(cfg, ys[i], acts[i], ys[i + 1])
  }

  /** A swap asked for now would never end. */
  ghost predicate Hung(cfg: Config, y: System)
    requires cfg.Valid()
  {
    |y.mapped| >= cfg.maxInMem && NoneFree(cfg.g, cfg.maxInMem, y.mapped, y.q.meta.reading.id, y.q.meta.writing.id)
  }

  /** No event touches more than two segments. */
  predicate Short(cfg: Config) {
    cfg.maxEventSize + WORD < cfg.g.size
  }

  /** The configurations that are safe: all segments are at most twice as many as can be mapped, less
      two; or events are short, and at least eight segments can be mapped or more than half of all. */
  predicate Spacious(cfg: Config)
    requires cfg.Valid()
  {
    cfg.g.count + 2 <= 2 * cfg.maxInMem || (Short(cfg) && (cfg.maxInMem >= 8 || cfg.g.count < 2 * cfg.maxInMem))
  }

  // ----- indices and ids -----

  lemma IndexDistinct(g: Geometry, j: nat, k: nat)
    requires g.Valid() && j < k < j + g.count
    ensures Index(g, j) != Index(g, k)
  {
    if Index(g, j) == Index(g, k) {
      assert (k / g.count - j / g.count) * g.count == k - j;
      SmallMultiple(k / g.count - j / g.count, g.count);
    }
  }

  lemma IndexAhead(g: Geometry, k: nat)
    requires g.Valid()
    ensures Index(g, k + g.count) == Index(g, k)
  {
    var a, b := k / g.count, (k + g.count) / g.count;
    assert (b - 1 - a) * g.count == Index(g, k) - Index(g, k + g.count);
    SmallMultiple(b - 1 - a, g.count);
  }

  /** Some id of the set has index `x`. */
  ghost predicate Covers(g: Geometry, ids: set<nat>, x: nat)
    requires g.Valid()
  {
    exists k :: k in ids && Index(g, k) == x
  }

  lemma {:induction false} CoverCount(g: Geometry, mapped: set<nat>, ids: set<nat>)
    requires g.Valid() && forall x :: x in mapped ==> Covers(g, ids, x)
    ensures |mapped| <= |ids|
    decreases |ids|
  {
    if mapped != {} {
      var x :| x in mapped;
      assert Covers(g, ids, x);
      var k :| k in ids && Index(g, k) == x;
      forall z | z in mapped - {x}
        ensures Covers(g, ids - {k}, z)
      {
        assert Covers(g, ids, z);
        var l :| l in ids && Index(g, l) == z;
        assert l in ids - {k};
      }
      CoverCount(g, mapped - {x}, ids - {k});
    }
  }

  /** Ids of one ring that are all mapped are no more than there are mapped segments. */
  lemma {:induction false} InjectCount(g: Geometry, mapped: set<nat>, ids: set<nat>, low: nat)
    requires g.Valid() && forall k :: k in ids ==> low <= k < low + g.count && Index(g, k) in mapped
    ensures |ids| <= |mapped|
    decreases |ids|
  {
    if ids != {} {
      var k :| k in ids;
      forall l | l in ids - {k}
        ensures Index(g, l) in mapped - {Index(g, k)}
      {
        if l < k {
          IndexDistinct(g, l, k);
        } else {
          IndexDistinct(g, k, l);
        }
      }
      InjectCount(g, mapped - {Index(g, k)}, ids - {k}, low);
    }
  }

  predicate Between(a: int, b: int, k: int) { a <= k < b }

  ghost function Range(a: nat, b: nat): set<nat> {
    set k: nat | k < b && Between(a, b, k)
  }

  lemma {:induction false} RangeCount(a: nat, b: nat)
    requires a <= b
    ensures |Range(a, b)| == b - a
    decreases b - a
  {
    if a < b {
      RangeCount(a, b - 1);
      assert Between(a, b, b - 1);
      assert Range(a, b) == Range(a, b - 1) + {b - 1} by {
        forall k: nat
          ensures k in Range(a, b) <==> k in Range(a, b - 1) + {b - 1}
        {
          assert Between(a, b, k) <==> Between(a, b - 1, k) || k == b - 1;
        }
      }
    } else {
      assert Range(a, b) == {};
    }
  }

  lemma UnionCount(a: set<nat>, b: set<nat>)
    ensures |a + b| <= |a| + |b|
  {
    assert a + b == a + (b - a);
    Subset(b - a, b);
  }

  lemma FourCount(a: nat, b: nat, c: nat, d: nat)
    ensures |{a, b, c, d}| <= 4
  {
    UnionCount({a, b, c}, {d});
    UnionCount({a, b}, {c});
    UnionCount({a}, {b});
    assert {a, b, c, d} == {a, b, c} + {d} && {a, b, c} == {a, b} + {c} && {a, b} == {a} + {b};
  }

  lemma Smaller(a: set<nat>, b: set<nat>)
    requires a <= b && a != b
    ensures |a| < |b|
  {
    var x :| x in b && x !in a;
    Subset(a, b - {x});
  }

  lemma {:induction false} Subset(a: set<nat>, b: set<nat>)
    requires a <= b
    ensures |a| <= |b|
  {
    if a != {} {
      var x :| x in a;
      Subset(a - {x}, b - {x});
    }
  }

  lemma MinusCount(a: set<nat>, b: set<nat>)
    requires b <= a
    ensures |a - b| == |a| - |b|
  {
    assert a == b + (a - b);
  }

  // ----- the invariant -----

  /** The mapped ids behind the reader's next segment and below `last`, the writing id of the last
      swap. */
  ghost function Old(g: Geometry, mapped: set<nat>, rid: nat, last: nat): set<nat>
    requires g.Valid()
  {
    set k | k in Range(rid + 2, last) && Index(g, k) in mapped
  }

  /** As many ids as there are, up to `top`. */
  predicate Block(ids: set<nat>, top: int) {
    forall k :: k in ids ==> top - |ids| < k <= top
  }

  /** Everything mapped lies between the reader and one segment beyond the writer, and everything the
      writer passed since the last swap is still mapped. What is older lies half the limit below that
      swap, since so much was freed above it; and if there is enough of it to fill the cache but for
      the four segments that reader and writer use, then it is one block right below. */
  ghost predicate Settled(g: Geometry, max: nat, mapped: set<nat>, rid: nat, wid: nat, last: nat)
    requires g.Valid()
  {
    && rid <= last <= wid < rid + g.count && |mapped| <= max
    && (forall x :: x in mapped ==> Held(g, rid, wid, x))
    && (forall k: nat :: last <= k < wid ==> Index(g, k) in mapped)
    && OldRight(g, max, mapped, rid, last) == true
  }

  ghost predicate OldRight(g: Geometry, max: nat, mapped: set<nat>, rid: nat, last: nat)
    requires g.Valid()
  {
    && (forall k :: k in Old(g, mapped, rid, last) ==> k + max / 2 <= last)
    && (max >= 8 && |Old(g, mapped, rid, last)| + 4 >= max ==> Block(Old(g, mapped, rid, last), last - max / 2))
  }

  ghost predicate Held(g: Geometry, rid: nat, wid: nat, x: nat)
    requires g.Valid()
  {
    exists k: nat :: rid <= k <= wid + 1 && k < rid + g.count && Index(g, k) == x
  }

  lemma BlockTop(ids: set<nat>, top: nat)
    requires ids != {} && Block(ids, top)
    ensures top in ids
  {
    if top !in ids {
      var low := if top + 1 >= |ids| then top + 1 - |ids| else 0;
      forall k | k in ids
        ensures k in Range(low, top)
      {
        assert Between(low, top, k);
      }
      Subset(ids, Range(low, top));
      if low <= top {
        RangeCount(low, top);
      }
    }
  }

  /** A full cache of eight segments or more always has one that a swap can free. */
  lemma FullHasFree(g: Geometry, max: nat, mapped: set<nat>, rid: nat, wid: nat, last: nat)
    requires g.Valid() && g.count > max + 1 && Settled(g, max, mapped, rid, wid, last) && |mapped| == max >= 8
    ensures !NoneFree(g, max, mapped, rid, wid)
  {
    MostAreNew(g, max, mapped, rid, wid, last);
    if last == wid {
      OldIsFree(g, max, mapped, rid, wid);
    } else if wid - 1 != rid {
      FreeBelow(g, max, mapped, rid, wid, 0, wid - 1);
    } else {
      NoneOld(g, mapped, rid, last);
    }
  }

  lemma OldIsFree(g: Geometry, max: nat, mapped: set<nat>, rid: nat, wid: nat)
    requires g.Valid() && Settled(g, max, mapped, rid, wid, wid) && max >= 8 && |Old(g, mapped, rid, wid)| + 4 >= max
    ensures !NoneFree(g, max, mapped, rid, wid)
  {
    var old', h := Old(g, mapped, rid, wid), max / 2;
    var some :| some in old';
    assert some + h <= wid;
    BlockTop(old', wid - h);
    FreeBelow(g, max, mapped, rid, wid, 0, wid - h);
  }

  lemma NoneOld(g: Geometry, mapped: set<nat>, rid: nat, last: nat)
    requires g.Valid() && last <= rid + 2
    ensures Old(g, mapped, rid, last) == {}
  {
  }

  /** What is mapped in the window, other than for the reader and the writer, can be freed. */
  lemma FreeBelow(g: Geometry, max: nat, mapped: set<nat>, rid: nat, wid: nat, at: nat, k: nat)
    requires g.Valid() && rid < k < wid < rid + g.count && wid <= k + max && Index(g, k) in mapped && at <= k + g.count
    ensures FreeFrom(g, max, mapped, rid, wid, at, Index(g, k))
  {
    IndexDistinct(g, k, wid);
    IndexDistinct(g, rid, k);
    IndexAhead(g, k);
    assert InSwapWindow(g, max, wid, k + g.count);
  }

  /** The old segments, four near the reader and the writer, and what the writer passed since the
      last swap. */
  ghost function Known(g: Geometry, mapped: set<nat>, rid: nat, wid: nat, last: nat): set<nat>
    requires g.Valid()
  {
    {rid, rid + 1, wid, wid + 1} + Old(g, mapped, rid, last) + Range(last, wid)
  }

  lemma KnownCount(g: Geometry, mapped: set<nat>, rid: nat, wid: nat, last: nat)
    requires g.Valid() && last <= wid
    ensures |Known(g, mapped, rid, wid, last)| <= 4 + |Old(g, mapped, rid, last)| + (wid - last)
  {
    var near, old', new' := {rid, rid + 1, wid, wid + 1}, Old(g, mapped, rid, last), Range(last, wid);
    UnionCount(near + old', new');
    UnionCount(near, old');
    FourCount(rid, rid + 1, wid, wid + 1);
    RangeCount(last, wid);
  }

  lemma IsKnown(g: Geometry, mapped: set<nat>, rid: nat, wid: nat, last: nat, k: nat)
    requires g.Valid() && rid <= k <= wid + 1 && Index(g, k) in mapped
    ensures k in Known(g, mapped, rid, wid, last)
  {
    assert Between(last, wid, k) || Between(rid + 2, last, k) || k in {rid, rid + 1, wid, wid + 1};
  }

  /** Nothing else is mapped. */
  lemma MostAreNew(g: Geometry, max: nat, mapped: set<nat>, rid: nat, wid: nat, last: nat)
    requires g.Valid() && Settled(g, max, mapped, rid, wid, last)
    ensures |mapped| <= 4 + |Old(g, mapped, rid, last)| + (wid - last)
  {
    var known := Known(g, mapped, rid, wid, last);
    forall x | x in mapped
      ensures Covers(g, known, x)
    {
      assert Held(g, rid, wid, x);
      var k: nat :| rid <= k <= wid + 1 && k < rid + g.count && Index(g, k) == x;
      IsKnown(g, mapped, rid, wid, last, k);
    }
    CoverCount(g, mapped, known);
    KnownCount(g, mapped, rid, wid, last);
  }

  // ----- what a swap leaves -----

  /** An id of the window with a mapped index is that segment's id, one ring on. */
  lemma FreedId(g: Geometry, max: nat, mapped: set<nat>, rid: nat, wid: nat, at: nat, x: nat) returns (k: nat)
    requires g.Valid() && wid < rid + g.count && g.count > max + 1
    requires FreeFrom(g, max, mapped, rid, wid, at, x) && Held(g, rid, wid, x)
    ensures rid < k < wid && at <= k + g.count && wid <= k + max && Index(g, k) == x
  {
    var i: nat :| at <= i && InSwapWindow(g, max, wid, i) && Index(g, i) == x;
    k :| rid <= k <= wid + 1 && k < rid + g.count && Index(g, k) == x;
    IndexAhead(g, k);
    if i < k + g.count {
      IndexDistinct(g, i, k + g.count);
    } else if k + g.count < i {
      IndexDistinct(g, k + g.count, i);
    }
  }

  /** A swap to the bottom of the window leaves of the old segments those below it, and then they do
      not nearly fill the cache. */
  lemma ClearedOld(g: Geometry, max: nat, mapped: set<nat>, left: set<nat>, rid: nat, wid: nat, last: nat)
    requires g.Valid() && Settled(g, max, mapped, rid, wid, last) && |mapped| == max && left <= mapped
    requires NoneFree(g, max, left, rid, wid)
    ensures forall k :: k in Old(g, left, rid, wid) ==> k + max < wid
    ensures max >= 8 ==> |Old(g, left, rid, wid)| + 4 < max
  {
    forall k | k in Old(g, left, rid, wid)
      ensures k + max < wid
    {
      if wid <= k + max {
        FreeBelow(g, max, left, rid, wid, 0, k);
      }
    }
    if max >= 8 {
      FewOutside(g, max, mapped, left, rid, wid, last);
    }
  }

  lemma FewOutside(g: Geometry, max: nat, mapped: set<nat>, left: set<nat>, rid: nat, wid: nat, last: nat)
    requires g.Valid() && Settled(g, max, mapped, rid, wid, last) && |mapped| == max >= 8 && left <= mapped
    requires forall k :: k in Old(g, left, rid, wid) ==> k + max < wid
    ensures |Old(g, left, rid, wid)| + 4 < max
  {
    var old', before := Old(g, left, rid, wid), Old(g, mapped, rid, last);
    OldAndNew(g, max, mapped, rid, wid, last);
    forall k | k in old'
      ensures k in before
    {
      assert Between(rid + 2, last, k);
    }
    Subset(old', before);
    if |before| + 4 >= max {
      // a block up to half the limit below the last swap, and at most four segments passed since
      var low := if last + 1 >= max / 2 + |before| then last + 1 - max / 2 - |before| else 0;
      forall k | k in old'
        ensures k in Range(low, wid - max)
      {
        assert k in before;
        assert Between(low, wid - max, k);
      }
      Subset(old', Range(low, if wid >= max then wid - max else 0));
      if wid >= max && low <= wid - max {
        RangeCount(low, wid - max);
      }
    }
  }

  /** The old segments and those passed since the last swap fit in the cache. */
  lemma OldAndNew(g: Geometry, max: nat, mapped: set<nat>, rid: nat, wid: nat, last: nat)
    requires g.Valid() && Settled(g, max, mapped, rid, wid, last)
    ensures |Old(g, mapped, rid, last)| + (wid - last) <= |mapped|
    ensures wid <= last + max
  {
    var old', new' := Old(g, mapped, rid, last), Range(last, wid);
    assert old' !! new' by {
      forall k | k in old'
        ensures k !in new'
      {
        assert Between(rid + 2, last, k) && !Between(last, wid, k);
      }
    }
    RangeCount(last, wid);
    InjectCount(g, mapped, old' + new', rid);
  }

  /** An early stop freed the topmost half of the limit less one, so what is left lies below that. */
  lemma EarlyOld(g: Geometry, max: nat, mapped: set<nat>, left: set<nat>, rid: nat, wid: nat, last: nat, at: nat)
    requires g.Valid() && g.count > max + 1 && Settled(g, max, mapped, rid, wid, last) && |mapped| == max
    requires SwappedFrom(g, max, mapped, left, rid, wid, at) && at > Bottom(g, max, wid)
    ensures forall k :: k in Old(g, left, rid, wid) ==> k + g.count < at && k + max / 2 <= wid
  {
    MinusCount(mapped, left);
    var cut := if at >= g.count then at - g.count else 0;
    forall x | x in mapped - left
      ensures Covers(g, Range(cut, wid), x)
    {
      var k := FreedId(g, max, mapped, rid, wid, at, x);
      assert Between(cut, wid, k);
      assert k in Range(cut, wid);
    }
    CoverCount(g, mapped - left, Range(cut, wid));
    forall k | k in Old(g, left, rid, wid)
      ensures k + g.count < at && k + max / 2 <= wid
    {
      if at <= k + g.count {
        FreeBelow(g, max, left, rid, wid, at, k);
      }
      RangeCount(cut, wid);
    }
  }

  /** If that is enough to nearly fill the cache, everything mapped between reader and writer is one
      run up to the writer: were some of it older, the reader would be so far behind that all of the
      window had been cleared. */
  lemma EarlyIsBlock(g: Geometry, max: nat, mapped: set<nat>, left: set<nat>, rid: nat, wid: nat, last: nat, at: nat)
    requires g.Valid() && g.count > max + 1 && Settled(g, max, mapped, rid, wid, last) && |mapped| == max >= 8
    requires SwappedFrom(g, max, mapped, left, rid, wid, at) && at > Bottom(g, max, wid)
    requires |Old(g, left, rid, wid)| + 4 >= max
    ensures Block(Old(g, left, rid, wid), wid - max / 2)
  {
    EarlyOld(g, max, mapped, left, rid, wid, last, at);
    var passed, old' := Old(g, mapped, rid, wid), Old(g, left, rid, wid);
    PassedCount(g, max, mapped, left, rid, wid, last, at);
    if Old(g, mapped, rid, last) == {} {
      forall k | k in old'
        ensures wid - |passed| <= k
      {
        RunUp(g, max, mapped, rid, wid, last, k);
      }
    } else {
      FarBehind(g, max, mapped, rid, wid, last);
    }
  }

  /** What was mapped between reader and writer is what is left of it and what was freed. */
  lemma PassedCount(g: Geometry, max: nat, mapped: set<nat>, left: set<nat>, rid: nat, wid: nat, last: nat, at: nat)
    requires g.Valid() && g.count > max + 1 && Settled(g, max, mapped, rid, wid, last) && |mapped| == max
    requires SwappedFrom(g, max, mapped, left, rid, wid, at) && at > Bottom(g, max, wid)
    requires Old(g, left, rid, wid) != {}
    ensures |Old(g, mapped, rid, wid)| == |Old(g, left, rid, wid)| + max / 2 - 1
  {
    EarlyOld(g, max, mapped, left, rid, wid, last, at);
    MinusCount(mapped, left);
    var passed, old' := Old(g, mapped, rid, wid), Old(g, left, rid, wid);
    MinusCount(passed, old');
    var some :| some in old';
    forall x | x in mapped - left
      ensures Covers(g, passed - old', x)
    {
      var k := FreedId(g, max, mapped, rid, wid, at, x);
      assert Between(rid + 2, wid, k);
      assert k in passed - old';
    }
    CoverCount(g, mapped - left, passed - old');
    forall k | k in passed - old'
      ensures rid <= k < rid + g.count && Index(g, k) in mapped - left
    {
    }
    InjectCount(g, mapped - left, passed - old', rid);
  }

  /** Without old segments, what is mapped above the reader is a run up to the writer. */
  lemma RunUp(g: Geometry, max: nat, mapped: set<nat>, rid: nat, wid: nat, last: nat, k: nat)
    requires g.Valid() && Settled(g, max, mapped, rid, wid, last) && Old(g, mapped, rid, last) == {}
    requires k in Old(g, mapped, rid, wid)
    ensures wid - |Old(g, mapped, rid, wid)| <= k
  {
    var passed := Old(g, mapped, rid, wid);
    assert k >= last by {
      assert k !in Old(g, mapped, rid, last);
      assert Between(rid + 2, last, k) || k >= last;
    }
    forall l | l in Range(k, wid)
      ensures l in passed
    {
      assert Between(rid + 2, wid, l);
    }
    Subset(Range(k, wid), passed);
    RangeCount(k, wid);
  }

  /** With an old segment the reader is behind by all that is mapped above it and half the limit. */
  lemma FarBehind(g: Geometry, max: nat, mapped: set<nat>, rid: nat, wid: nat, last: nat)
    requires g.Valid() && Settled(g, max, mapped, rid, wid, last) && Old(g, mapped, rid, last) != {}
    ensures rid + |Old(g, mapped, rid, wid)| + max / 2 < wid
  {
    var old', new' := Old(g, mapped, rid, last), Range(last, wid);
    var some :| some in old';
    assert some + max / 2 <= last;
    forall k | k in old'
      ensures k in Range(rid + 2, last - max / 2 + 1)
    {
      assert Between(rid + 2, last - max / 2 + 1, k);
    }
    Subset(old', Range(rid + 2, last - max / 2 + 1));
    RangeCount(rid + 2, last - max / 2 + 1);
    forall k | k in Old(g, mapped, rid, wid)
      ensures k in old' + new'
    {
      assert Between(rid + 2, last, k) || Between(last, wid, k);
    }
    Subset(Old(g, mapped, rid, wid), old' + new');
    UnionCount(old', new');
    RangeCount(last, wid);
  }

  lemma SwapOldRight(g: Geometry, max: nat, mapped: set<nat>, left: set<nat>, rid: nat, wid: nat, last: nat, at: nat)
    requires g.Valid() && g.count > max + 1 && Settled(g, max, mapped, rid, wid, last) == true && |mapped| == max
    requires SwappedFrom(g, max, mapped, left, rid, wid, at) == true
    ensures OldRight(g, max, left, rid, wid) == true
  {
    if at <= Bottom(g, max, wid) {
      ClearedOldRight(g, max, mapped, left, rid, wid, last, at);
    } else {
      EarlyOldRight(g, max, mapped, left, rid, wid, last, at);
    }
  }

  lemma ClearedOldRight(g: Geometry, max: nat, mapped: set<nat>, left: set<nat>, rid: nat, wid: nat, last: nat, at: nat)
    requires g.Valid() && Settled(g, max, mapped, rid, wid, last) == true && |mapped| == max
    requires SwappedFrom(g, max, mapped, left, rid, wid, at) == true && at <= Bottom(g, max, wid)
    ensures OldRight(g, max, left, rid, wid) == true
  {
    DownToBottom(g, max, mapped, left, rid, wid, at);
    ClearedOld(g, max, mapped, left, rid, wid, last);
  }

  lemma EarlyOldRight(g: Geometry, max: nat, mapped: set<nat>, left: set<nat>, rid: nat, wid: nat, last: nat, at: nat)
    requires g.Valid() && g.count > max + 1 && Settled(g, max, mapped, rid, wid, last) == true && |mapped| == max
    requires SwappedFrom(g, max, mapped, left, rid, wid, at) == true && at > Bottom(g, max, wid)
    ensures OldRight(g, max, left, rid, wid) == true
  {
    EarlyOld(g, max, mapped, left, rid, wid, last, at);
    if max >= 8 && |Old(g, left, rid, wid)| + 4 >= max {
      EarlyIsBlock(g, max, mapped, left, rid, wid, last, at);
    }
  }

  lemma DownToBottom(g: Geometry, max: nat, mapped: set<nat>, left: set<nat>, rid: nat, wid: nat, at: nat)
    requires g.Valid() && SwappedFrom(g, max, mapped, left, rid, wid, at) && at <= Bottom(g, max, wid)
    ensures NoneFree(g, max, left, rid, wid)
  {
    forall x
      ensures !FreeFrom(g, max, left, rid, wid, 0, x)
    {
      assert !FreeFrom(g, max, left, rid, wid, at, x);
      assert forall i: nat :: InSwapWindow(g, max, wid, i) ==> at <= i;
    }
  }

  /** A swap starts the count of new segments again. */
  lemma SwapSettled(g: Geometry, max: nat, mapped: set<nat>, left: set<nat>, rid: nat, wid: nat, last: nat)
    requires g.Valid() && g.count > max + 1 && Settled(g, max, mapped, rid, wid, last) && |mapped| == max
    requires SwappedTo(g, max, mapped, left, rid, wid)
    ensures Settled(g, max, left, rid, wid, wid) && |left| < max
  {
    var at :| SwappedFrom(g, max, mapped, left, rid, wid, at);
    SwapOldRight(g, max, mapped, left, rid, wid, last, at);
    Smaller(left, mapped);
  }

  // ----- what else happens to the mapped segments -----

  /** A segment next to the reader's or the writer's is never an old one. */
  lemma AddSettled(g: Geometry, max: nat, mapped: set<nat>, rid: nat, wid: nat, last: nat, id: nat)
    requires g.Valid() && Settled(g, max, mapped, rid, wid, last) && |mapped| < max
    requires id in {rid, rid + 1, wid, wid + 1} && id <= wid + 1 && id < rid + g.count
    ensures Settled(g, max, mapped + {Index(g, id)}, rid, wid, last)
  {
    var now := mapped + {Index(g, id)};
    assert Held(g, rid, wid, Index(g, id));
    forall k | k in Old(g, now, rid, last)
      ensures k in Old(g, mapped, rid, last)
    {
      if k < id {
        IndexDistinct(g, k, id);
      } else {
        IndexDistinct(g, id, k);
      }
    }
    assert Old(g, now, rid, last) == Old(g, mapped, rid, last);
  }

  /** The reader moves to the next segment, and the one it leaves is unmapped. */
  lemma CrossSettled(g: Geometry, max: nat, mapped: set<nat>, rid: nat, wid: nat, last: nat)
    requires g.Valid() && Settled(g, max, mapped, rid, wid, last) && rid < wid
    ensures Settled(g, max, mapped - {Index(g, rid)}, rid + 1, wid, if last == rid then rid + 1 else last)
  {
    var now, last' := mapped - {Index(g, rid)}, if last == rid then rid + 1 else last;
    Subset(now, mapped);
    forall x | x in now
      ensures Held(g, rid + 1, wid, x)
    {
      assert Held(g, rid, wid, x);
      var k: nat :| rid <= k <= wid + 1 && k < rid + g.count && Index(g, k) == x;
      assert rid + 1 <= k;
    }
    forall k: nat | last' <= k < wid
      ensures Index(g, k) in now
    {
      IndexDistinct(g, rid, k);
    }
    CrossOldRight(g, max, mapped, rid, wid, last);
  }

  lemma CrossOldRight(g: Geometry, max: nat, mapped: set<nat>, rid: nat, wid: nat, last: nat)
    requires g.Valid() && rid <= last <= wid < rid + g.count && rid < wid && OldRight(g, max, mapped, rid, last)
    ensures OldRight(g, max, mapped - {Index(g, rid)}, rid + 1, if last == rid then rid + 1 else last) == true
  {
    var old' := Old(g, mapped - {Index(g, rid)}, rid + 1, if last == rid then rid + 1 else last);
    var before := Old(g, mapped, rid, last);
    CrossOld(g, mapped, rid, wid, last);
    if last == rid {
      NoneOld(g, mapped, rid, last);
    }
    Subset(old', before);
  }

  /** Of the old segments at most the lowest stops being one. */
  lemma CrossOld(g: Geometry, mapped: set<nat>, rid: nat, wid: nat, last: nat)
    requires g.Valid() && rid <= last <= wid < rid + g.count && rid < wid
    ensures var last' := if last == rid then rid + 1 else last;
            Old(g, mapped - {Index(g, rid)}, rid + 1, last') == Old(g, mapped, rid, last) - {rid + 2}
    ensures forall k :: k in Old(g, mapped, rid, last) ==> rid + 2 <= k
  {
    var last' := if last == rid then rid + 1 else last;
    var old', before := Old(g, mapped - {Index(g, rid)}, rid + 1, last'), Old(g, mapped, rid, last);
    forall k | k in old'
      ensures k in before - {rid + 2}
    {
      assert Between(rid + 3, last', k);
      assert Between(rid + 2, last, k);
    }
    forall k | k in before - {rid + 2}
      ensures k in old'
    {
      assert Between(rid + 2, last, k);
      assert Between(rid + 3, last', k);
      IndexDistinct(g, rid, k);
    }
  }

  /** The writer leaves a segment that is not mapped, with nothing old below it. */
  lemma LeaveSettled(g: Geometry, max: nat, mapped: set<nat>, rid: nat, wid: nat, last: nat)
    requires g.Valid() && Settled(g, max, mapped, rid, wid, last) && Index(g, wid) !in mapped && wid + 1 < rid + g.count
    requires Old(g, mapped, rid, wid) == {}
    ensures Settled(g, max, mapped, rid, wid + 1, wid + 1)
  {
    forall x | x in mapped
      ensures Held(g, rid, wid + 1, x)
    {
      assert Held(g, rid, wid, x);
    }
    forall k | k in Old(g, mapped, rid, wid + 1)
      ensures k in Old(g, mapped, rid, wid)
    {
      assert Between(rid + 2, wid + 1, k);
      assert Between(rid + 2, wid, k);
    }
    assert Old(g, mapped, rid, wid + 1) == {};
  }

  /** The writer moves to the next segment. */
  lemma AdvanceSettled(g: Geometry, max: nat, mapped: set<nat>, rid: nat, wid: nat, last: nat)
    requires g.Valid() && Settled(g, max, mapped, rid, wid, last) && Index(g, wid) in mapped && wid + 1 < rid + g.count
    ensures Settled(g, max, mapped, rid, wid + 1, last)
  {
    forall x | x in mapped
      ensures Held(g, rid, wid + 1, x)
    {
      assert Held(g, rid, wid, x);
    }
  }

  // ----- every step keeps it -----

  /** What is known of the writer's segments. A segment is mapped once something was written to it
      and until the writer has left it, unless the queue was opened in it and nothing but the reader's
      segments and those beyond is mapped; past the fullness check there is one more to go to. */
  ghost predicate WriterSettled(g: Geometry, mapped: set<nat>, w: Writer, writing: Cursor, rid: nat)
    requires g.Valid()
  {
    && (!w.WIdle? ==> writing.id + 1 < rid + g.count)
    && (writing.offset > 0 || w.WBytes? || w.WPublish? ==>
          Index(g, writing.id) in mapped || Old(g, mapped, rid, writing.id) == {})
    && ((w.WBytes? || w.WPublish?) && w.at.id == writing.id + 1 && w.at.offset > 0 ==> Index(g, w.at.id) in mapped)
  }

  ghost predicate Tame(cfg: Config, y: System) {
    && Inv(cfg, y.q)
    && WriterSettled(cfg.g, y.mapped, y.q.writer, y.q.meta.writing, y.q.meta.reading.id)
    && SomehowSettled(cfg.g, cfg.maxInMem, y.mapped, y.q.meta.reading.id, y.q.meta.writing.id)
  }

  /** Enough segments in the ring for the window to stay clear of the writer's next segment. */
  predicate Wide(cfg: Config) {
    Short(cfg) && cfg.g.count > cfg.maxInMem + 1
  }

  /** A swap frees neither the writer's segment nor the one after it. */
  lemma SwapKeepsWriter(g: Geometry, max: nat, mapped: set<nat>, left: set<nat>, rid: nat, wid: nat)
    requires g.Valid() && SwappedTo(g, max, mapped, left, rid, wid) && g.count > max + 1
    ensures Index(g, wid) in mapped ==> Index(g, wid) in left
    ensures Index(g, wid + 1) in mapped ==> Index(g, wid + 1) in left
  {
    forall i: nat | InSwapWindow(g, max, wid, i)
      ensures Index(g, i) != Index(g, wid + 1)
    {
      IndexAhead(g, wid + 1);
      IndexDistinct(g, i, wid + 1 + g.count);
    }
  }

  lemma AddsNoOld(g: Geometry, now: set<nat>, mapped: set<nat>, rid: nat, wid: nat, id: nat)
    requires g.Valid() && now <= mapped + {Index(g, id)} && wid < rid + g.count
    requires id in {rid, rid + 1, wid, wid + 1} && id < rid + g.count
    ensures Old(g, mapped, rid, wid) == {} ==> Old(g, now, rid, wid) == {}
  {
    forall k | k in Old(g, now, rid, wid)
      ensures k in Old(g, mapped, rid, wid)
    {
      assert Between(rid + 2, wid, k);
      if k < id {
        IndexDistinct(g, k, id);
      } else {
        IndexDistinct(g, id, k);
      }
    }
  }

  /** Getting a segment next to the reader's or the writer's, with a swap or without. */
  lemma FetchSettled(g: Geometry, max: nat, mapped: set<nat>, now: set<nat>, rid: nat, wid: nat, last: nat, id: nat)
    requires g.Valid() && g.count > max + 1 && Settled(g, max, mapped, rid, wid, last)
    requires Fetched(g, max, mapped, now, rid, wid, id)
    requires id in {rid, rid + 1, wid, wid + 1} && id <= wid + 1 && id < rid + g.count
    ensures exists last' :: Settled(g, max, now, rid, wid, last')
    ensures Index(g, id) in now
    ensures Index(g, wid) in mapped ==> Index(g, wid) in now
    ensures Index(g, wid + 1) in mapped ==> Index(g, wid + 1) in now
    ensures Old(g, mapped, rid, wid) == {} ==> Old(g, now, rid, wid) == {}
  {
    AddsNoOld(g, now, mapped, rid, wid, id);
    if |mapped| < max {
      AddSettled(g, max, mapped, rid, wid, last, id);
    } else {
      var left :| SwappedTo(g, max, mapped, left, rid, wid) && now == left + {Index(g, id)};
      SwapSettled(g, max, mapped, left, rid, wid, last);
      SwapKeepsWriter(g, max, mapped, left, rid, wid);
      AddSettled(g, max, left, rid, wid, wid, id);
    }
  }

  /** Anywhere in a record that is shorter than a segment is its first segment or the next. */
  lemma NearStart(g: Geometry, c: Cursor, at: Cursor, n: nat)
    requires g.Valid() && c.offset < g.size && n < g.size && At(g, at, Skip(g, Linear(g, c)) + n)
    ensures c.id <= at.id <= c.id + 1
  {
    CursorUnique(g, c);
    CursorUnique(g, at);
    SkipBounds(g, Linear(g, c));
    IdMonotone(g, Linear(g, c), Linear(g, at));
    EndsBefore(g, SkipCursor(g, c), n);
    IdMonotone(g, Linear(g, at), Linear(g, Cursor(c.id + 1, g.size - 1)));
    CursorUnique(g, Cursor(c.id + 1, g.size - 1));
  }

  lemma EndsBefore(g: Geometry, c: Cursor, n: nat)
    requires g.Valid() && c.offset + WORD <= g.size && n < g.size
    ensures Linear(g, c) + n <= Linear(g, Cursor(c.id + 1, g.size - 1))
    ensures c.offset == 0 ==> Linear(g, c) + n <= Linear(g, Cursor(c.id, g.size - 1))
  {
    assert (c.id + 1) * g.size == c.id * g.size + g.size;
  }

  lemma WriterNear(cfg: Config, q: State)
    requires Inv(cfg, q) && Wide(cfg) && (q.writer.WBytes? || q.writer.WPublish?)
    ensures q.meta.writing.id <= q.writer.at.id <= q.meta.writing.id + 1
  {
    assert HistoryKey(true) && WriterKey(true);
    var n := WORD + if q.writer.WBytes? then q.writer.done else |q.writer.data|;
    NearStart(cfg.g, q.meta.writing, q.writer.at, n);
  }

  lemma ReaderNear(cfg: Config, q: State)
    requires Inv(cfg, q) && Wide(cfg) && (q.reader.RBytes? || q.reader.RPublish?)
    ensures q.meta.reading.id <= q.reader.at.id <= q.meta.reading.id + 1
  {
    assert HistoryKey(true) && ReaderKey(true);
    NearStart(cfg.g, q.meta.reading, q.reader.at, WORD + |q.reader.buf|);
  }

  lemma CursorsInOrder(cfg: Config, q: State)
    requires Inv(cfg, q)
    ensures q.meta.reading.id <= q.meta.writing.id
  {
    CursorOrder(cfg, q);
    assert HistoryKey(true);
    CursorUnique(cfg.g, q.meta.reading);
    CursorUnique(cfg.g, q.meta.writing);
    IdMonotone(cfg.g, Linear(cfg.g, q.meta.reading), Linear(cfg.g, q.meta.writing));
  }

  ghost predicate SomehowSettled(g: Geometry, max: nat, mapped: set<nat>, rid: nat, wid: nat)
    requires g.Valid()
  {
    exists last :: Settled(g, max, mapped, rid, wid, last)
  }

  /** What a step that gets segment `id` leaves, as far as the mapping goes. */
  lemma TameFetch(g: Geometry, max: nat, mapped: set<nat>, now: set<nat>, w: Writer, writing: Cursor, rid: nat, id: nat)
    requires g.Valid() && g.count > max + 1
    requires SomehowSettled(g, max, mapped, rid, writing.id) && WriterSettled(g, mapped, w, writing, rid)
    requires Fetched(g, max, mapped, now, rid, writing.id, id)
    requires id == rid || id == rid + 1 || id == writing.id || (id == writing.id + 1 && !w.WIdle?)
    ensures SomehowSettled(g, max, now, rid, writing.id) == true && WriterSettled(g, now, w, writing, rid) == true
    ensures Index(g, id) in now
  {
    var last :| Settled(g, max, mapped, rid, writing.id, last);
    FetchSettled(g, max, mapped, now, rid, writing.id, last, id);
  }

  lemma TamePutLength(cfg: Config, y: System, z: System)
    requires Tame(cfg, y) && Wide(cfg) && Step(cfg, y, PutLength, z)
    ensures Tame(cfg, z)
  {
    InvStep(cfg, y.q, PutLength);
    TameFetch(cfg.g, cfg.maxInMem, y.mapped, z.mapped, y.q.writer, y.q.meta.writing, y.q.meta.reading.id,
              SkipCursor(cfg.g, y.q.meta.writing).id);
  }

  lemma TamePutChunk(cfg: Config, y: System, z: System)
    requires Tame(cfg, y) && Wide(cfg) && Step(cfg, y, PutChunk, z)
    ensures Tame(cfg, z)
  {
    InvStep(cfg, y.q, PutChunk);
    WriterNear(cfg, y.q);
    TameFetch(cfg.g, cfg.maxInMem, y.mapped, z.mapped, y.q.writer, y.q.meta.writing, y.q.meta.reading.id,
              y.q.writer.at.id);
  }

  lemma TamePutWriting(cfg: Config, y: System, z: System)
    requires Tame(cfg, y) && Wide(cfg) && Step(cfg, y, PutWriting, z)
    ensures Tame(cfg, z)
  {
    InvStep(cfg, y.q, PutWriting);
    WriterNear(cfg, y.q);
    var rid, wid := y.q.meta.reading.id, y.q.meta.writing.id;
    var last :| Settled(cfg.g, cfg.maxInMem, y.mapped, rid, wid, last);
    if z.q.meta.writing.id == wid + 1 {
      if Index(cfg.g, wid) in y.mapped {
        AdvanceSettled(cfg.g, cfg.maxInMem, y.mapped, rid, wid, last);
      } else {
        LeaveSettled(cfg.g, cfg.maxInMem, y.mapped, rid, wid, last);
      }
    }
  }

  lemma TameGetLength(cfg: Config, y: System, z: System)
    requires Tame(cfg, y) && Wide(cfg) && Step(cfg, y, GetLength, z)
    ensures Tame(cfg, z)
  {
    InvStep(cfg, y.q, GetLength);
    TameFetch(cfg.g, cfg.maxInMem, y.mapped, z.mapped, y.q.writer, y.q.meta.writing, y.q.meta.reading.id,
              SkipCursor(cfg.g, y.q.meta.reading).id);
  }

  lemma TameGetChunk(cfg: Config, y: System, z: System)
    requires Tame(cfg, y) && Wide(cfg) && Step(cfg, y, GetChunk, z)
    ensures Tame(cfg, z)
  {
    InvStep(cfg, y.q, GetChunk);
    ReaderNear(cfg, y.q);
    TameFetch(cfg.g, cfg.maxInMem, y.mapped, z.mapped, y.q.writer, y.q.meta.writing, y.q.meta.reading.id,
              y.q.reader.at.id);
  }

  lemma TamePutReading(cfg: Config, y: System, z: System)
    requires Tame(cfg, y) && Wide(cfg) && Step(cfg, y, PutReading, z)
    ensures Tame(cfg, z)
  {
    InvStep(cfg, y.q, PutReading);
    ReaderNear(cfg, y.q);
    CursorsInOrder(cfg, z.q);
    var rid, wid := y.q.meta.reading.id, y.q.meta.writing.id;
    var last :| Settled(cfg.g, cfg.maxInMem, y.mapped, rid, wid, last);
    if z.q.meta.reading.id == rid + 1 {
      CrossSettled(cfg.g, cfg.maxInMem, y.mapped, rid, wid, last);
      IndexDistinct(cfg.g, rid, wid);
      if !y.q.writer.WIdle? {
        IndexDistinct(cfg.g, rid, wid + 1);
      }
    }
  }

  lemma TameFails(cfg: Config, y: System, a: Action, z: System)
    requires Tame(cfg, y) && Wide(cfg) && Step(cfg, y, a, z) && (a.WriteFails? || a.ReadFails?)
    ensures Tame(cfg, z)
  {
    InvStep(cfg, y.q, a);
    var rid, wid := y.q.meta.reading.id, y.q.meta.writing.id;
    var last :| Settled(cfg.g, cfg.maxInMem, y.mapped, rid, wid, last);
    if z.mapped != y.mapped {
      SwapSettled(cfg.g, cfg.maxInMem, y.mapped, z.mapped, rid, wid, last);
      SwapKeepsWriter(cfg.g, cfg.maxInMem, y.mapped, z.mapped, rid, wid);
    }
  }

  lemma TameCheckRoom(cfg: Config, y: System, data: Record, z: System)
    requires Tame(cfg, y) && Wide(cfg) && Step(cfg, y, CheckRoom(data), z)
    ensures Tame(cfg, z)
  {
    InvStep(cfg, y.q, CheckRoom(data));
    NotFull(cfg.g, cfg.maxEventSize, y.q.meta.reading.id, y.q.meta.writing.id);
  }

  lemma TameStep(cfg: Config, y: System, a: Action, z: System)
    requires Tame(cfg, y) && Wide(cfg) && Step(cfg, y, a, z)
    ensures Tame(cfg, z)
  {
    match a
    case CheckRoom(data) => TameCheckRoom(cfg, y, data, z);
    case PutLength => TamePutLength(cfg, y, z);
    case PutChunk => TamePutChunk(cfg, y, z);
    case PutWriting => TamePutWriting(cfg, y, z);
    case GetLength => TameGetLength(cfg, y, z);
    case GetChunk => TameGetChunk(cfg, y, z);
    case PutReading => TamePutReading(cfg, y, z);
    case WriteFails => TameFails(cfg, y, a, z);
    case ReadFails => TameFails(cfg, y, a, z);
    case _ => InvStep(cfg, y.q, a);
  }

  // ----- opened a whole ring ahead -----

  /** The writer is a whole ring of segments ahead and the queue full; only the reader's segments are
      mapped. */
  ghost predicate Brimful(cfg: Config, y: System) {
    && Inv(cfg, y.q) && y.q.writer.WIdle?
    && y.q.meta.writing.id == y.q.meta.reading.id + cfg.g.count
    && y.mapped <= {Index(cfg.g, y.q.meta.reading.id), Index(cfg.g, y.q.meta.reading.id + 1)}
  }

  lemma AtMostTwo(mapped: set<nat>, a: nat, b: nat)
    requires mapped <= {a, b}
    ensures |mapped| <= 2
  {
    Subset(mapped, {a, b});
  }

  /** Unread records are never more than a ring apart. */
  lemma WithinOneRing(cfg: Config, q: State)
    requires Inv(cfg, q)
    ensures q.meta.writing.id <= q.meta.reading.id + cfg.g.count
  {
    assert HistoryKey(true) && StorageKey(true);
    assert Linear(cfg.g, q.meta.writing) <= Linear(cfg.g, q.meta.reading) + cfg.g.Total();
    OneRingApart(cfg.g, q.meta.reading, q.meta.writing);
  }

  lemma OneRingApart(g: Geometry, r: Cursor, w: Cursor)
    requires g.Valid() && r.offset < g.size && w.offset < g.size && Linear(g, w) <= Linear(g, r) + g.Total()
    ensures w.id <= r.id + g.count
  {
    var c := Cursor(r.id + g.count, r.offset);
    assert (r.id + g.count) * g.size == r.id * g.size + g.count * g.size;
    CursorUnique(g, w);
    CursorUnique(g, c);
    IdMonotone(g, Linear(g, w), Linear(g, c));
  }

  /** Such a queue waits for the reader to leave its segment. */
  lemma BrimfulStep(cfg: Config, y: System, a: Action, z: System)
    requires Brimful(cfg, y) && Wide(cfg) && Step(cfg, y, a, z)
    ensures Tame(cfg, z) || Brimful(cfg, z)
  {
    match a
    case CheckRoom(data) => NotFull(cfg.g, cfg.maxEventSize, y.q.meta.reading.id, y.q.meta.writing.id);
    case PutReading => BrimfulReads(cfg, y, z);
    case _ =>
      InvStep(cfg, y.q, a);
      BrimfulGets(cfg, y, a, z);
  }

  lemma BrimfulGets(cfg: Config, y: System, a: Action, z: System)
    requires Brimful(cfg, y) && Wide(cfg) && Step(cfg, y, a, z) && !a.CheckRoom? && !a.PutReading?
    ensures z.q.writer.WIdle? && z.q.meta.reading == y.q.meta.reading && z.q.meta.writing == y.q.meta.writing
    ensures z.mapped <= {Index(cfg.g, y.q.meta.reading.id), Index(cfg.g, y.q.meta.reading.id + 1)}
  {
    var rid := y.q.meta.reading.id;
    AtMostTwo(y.mapped, Index(cfg.g, rid), Index(cfg.g, rid + 1));
    if a.GetChunk? {
      ReaderNear(cfg, y.q);
      BrimfulGet(cfg, y, a, z, y.q.reader.at.id);
    } else if a.GetLength? {
      BrimfulGet(cfg, y, a, z, SkipCursor(cfg.g, y.q.meta.reading).id);
    }
  }

  lemma BrimfulGet(cfg: Config, y: System, a: Action, z: System, id: nat)
    requires cfg.Valid() && Remapped(cfg, y, a, z) && Access(cfg.g, y.q, a) == Some(id) && |y.mapped| < cfg.maxInMem
    requires id == y.q.meta.reading.id || id == y.q.meta.reading.id + 1
    requires y.mapped <= {Index(cfg.g, y.q.meta.reading.id), Index(cfg.g, y.q.meta.reading.id + 1)}
    ensures z.mapped <= {Index(cfg.g, y.q.meta.reading.id), Index(cfg.g, y.q.meta.reading.id + 1)}
  {
  }

  lemma BrimfulReads(cfg: Config, y: System, z: System)
    requires Brimful(cfg, y) && Wide(cfg) && Step(cfg, y, PutReading, z)
    ensures Tame(cfg, z) || Brimful(cfg, z)
  {
    InvStep(cfg, y.q, PutReading);
    ReaderNear(cfg, y.q);
    var rid, wid := z.q.meta.reading.id, y.q.meta.writing.id;
    if rid == y.q.meta.reading.id + 1 {
      assert z.mapped <= {Index(cfg.g, rid)};
      OneSettled(cfg.g, cfg.maxInMem, z.mapped, rid, wid);
    }
  }

  lemma OneSettled(g: Geometry, max: nat, mapped: set<nat>, rid: nat, wid: nat)
    requires g.Valid() && mapped <= {Index(g, rid)} && rid <= wid < rid + g.count && max >= 4
    ensures Settled(g, max, mapped, rid, wid, wid) && Old(g, mapped, rid, wid) == {}
  {
    AtMostTwo(mapped, Index(g, rid), Index(g, rid));
    assert Held(g, rid, wid, Index(g, rid));
    forall k | k in Old(g, mapped, rid, wid)
      ensures false
    {
      IndexDistinct(g, rid, k);
    }
    assert Old(g, mapped, rid, wid) == {};
  }

  lemma StartsTameOrBrimful(cfg: Config, y: System)
    requires Opened(cfg, y) && Wide(cfg)
    ensures Tame(cfg, y) || Brimful(cfg, y)
  {
    WithinOneRing(cfg, y.q);
    if y.q.meta.writing.id < y.q.meta.reading.id + cfg.g.count {
      TameOpened(cfg, y);
    } else {
      IndexAhead(cfg.g, y.q.meta.reading.id);
    }
  }

  lemma TameOpened(cfg: Config, y: System)
    requires Opened(cfg, y) && Wide(cfg) && y.q.meta.writing.id < y.q.meta.reading.id + cfg.g.count
    ensures Tame(cfg, y)
  {
    CursorsInOrder(cfg, y.q);
    var rid, wid := y.q.meta.reading.id, y.q.meta.writing.id;
    assert Held(cfg.g, rid, wid, Index(cfg.g, rid)) && Held(cfg.g, rid, wid, Index(cfg.g, wid));
    forall k | k in Old(cfg.g, y.mapped, rid, wid)
      ensures false
    {
      IndexDistinct(cfg.g, rid, k);
      IndexDistinct(cfg.g, k, wid);
    }
    assert Old(cfg.g, y.mapped, rid, wid) == {};
    UnionCount({Index(cfg.g, rid)}, {Index(cfg.g, wid)});
    assert y.mapped == {Index(cfg.g, rid)} + {Index(cfg.g, wid)};
    assert Settled(cfg.g, cfg.maxInMem, y.mapped, rid, wid, wid);
  }

  // ----- runs -----

  lemma {:induction false} TameRun(cfg: Config, ys: seq<System>, acts: seq<Action>, i: nat)
    requires Wide(cfg) && IsRun(cfg, ys, acts) && i < |ys|
    ensures Tame(cfg, ys[i]) || Brimful(cfg, ys[i])
  {
    if i == 0 {
      StartsTameOrBrimful(cfg, ys[0]);
    } else {
      TameRun(cfg, ys, acts, i - 1);
      TameNext(cfg, ys, acts, i - 1);
    }
  }

  lemma TameNext(cfg: Config, ys: seq<System>, acts: seq<Action>, i: nat)
    requires Wide(cfg) && IsRun(cfg, ys, acts) && i < |acts| && (Tame(cfg, ys[i]) == true || Brimful(cfg, ys[i]) == true)
    ensures Tame(cfg, ys[i + 1]) == true || Brimful(cfg, ys[i + 1]) == true
  {
    assert StepAt(cfg, ys, acts, i);
    if Brimful(cfg, ys[i]) {
      BrimfulStep(cfg, ys[i], acts[i], ys[i + 1]);
    } else {
      TameStep(cfg, ys[i], acts[i], ys[i + 1]);
    }
  }

  lemma {:induction false} MappedInRing(cfg: Config, ys: seq<System>, acts: seq<Action>, i: nat)
    requires IsRun(cfg, ys, acts) && i < |ys|
    ensures cfg.Valid() && forall x :: x in ys[i].mapped ==> x < cfg.g.count
  {
    if i > 0 {
      MappedInRing(cfg, ys, acts, i - 1);
      assert StepAt(cfg, ys, acts, i - 1);
    }
  }

  /** The ids outside the window of a swap, one for each index, and the reader's. */
  ghost function BeyondWindow(g: Geometry, max: nat, rid: nat, wid: nat): set<nat> {
    Range(wid, WindowStart(g, max, wid)) + {rid}
  }

  /** The window of a swap, as ids one ring below. */
  function WindowStart(g: Geometry, max: nat, wid: nat): nat {
    if g.count > max then wid + g.count - max else wid + 1
  }

  /** In a ring of less than twice the limit less one, too few segments are outside the window. */
  lemma SmallRingFree(cfg: Config, mapped: set<nat>, rid: nat, wid: nat)
    requires cfg.Valid() && cfg.g.count + 2 <= 2 * cfg.maxInMem && |mapped| >= cfg.maxInMem
    requires forall x :: x in mapped ==> x < cfg.g.count
    ensures !NoneFree(cfg.g, cfg.maxInMem, mapped, rid, wid)
  {
    var g, max := cfg.g, cfg.maxInMem;
    if NoneFree(g, max, mapped, rid, wid) {
      forall x | x in mapped
        ensures Covers(g, BeyondWindow(g, max, rid, wid), x)
      {
        NotInWindow(g, max, mapped, rid, wid, x);
      }
      CoverCount(g, mapped, BeyondWindow(g, max, rid, wid));
      UnionCount(Range(wid, WindowStart(g, max, wid)), {rid});
      RangeCount(wid, WindowStart(g, max, wid));
    }
  }

  lemma NotInWindow(g: Geometry, max: nat, mapped: set<nat>, rid: nat, wid: nat, x: nat)
    requires g.Valid() && NoneFree(g, max, mapped, rid, wid) && x in mapped && x < g.count
    ensures Covers(g, BeyondWindow(g, max, rid, wid), x)
  {
    if x == Index(g, rid) {
      assert rid in BeyondWindow(g, max, rid, wid);
    } else if x == Index(g, wid) {
      assert Between(wid, WindowStart(g, max, wid), wid);
      assert wid in BeyondWindow(g, max, rid, wid);
    } else {
      WindowIndex(g, wid, x);
      var k := wid + g.count - Below(g, wid, x);
      assert !FreeFrom(g, max, mapped, rid, wid, 0, x);
      assert !InSwapWindow(g, max, wid, k);
      assert Between(wid, WindowStart(g, max, wid), k);
      assert k in BeyondWindow(g, max, rid, wid);
    }
  }

  /** How far below the writing id the latest id with index `x` is. */
  function Below(g: Geometry, wid: nat, x: nat): (n: nat)
    requires g.Valid() && x < g.count && x != Index(g, wid)
    ensures 1 <= n < g.count
  {
    if x < Index(g, wid) then Index(g, wid) - x else Index(g, wid) + g.count - x
  }

  lemma WindowIndex(g: Geometry, wid: nat, x: nat)
    requires g.Valid() && x < g.count && x != Index(g, wid)
    ensures Index(g, wid + g.count - Below(g, wid, x)) == x
  {
    if x < Index(g, wid) {
      ModUnique(wid + g.count - Below(g, wid, x), g.count, wid / g.count + 1, x);
    } else {
      ModUnique(wid + g.count - Below(g, wid, x), g.count, wid / g.count, x);
    }
  }

  /** In a safe configuration no swap ever hangs, whatever reader, writer, flushes and failures do,
      from anything that Initialize opens. */
  lemma NeverHangs(cfg: Config, ys: seq<System>, acts: seq<Action>, i: nat)
    requires cfg.Valid() && Spacious(cfg) && IsRun(cfg, ys, acts) && i < |ys|
    ensures !Hung(cfg, ys[i])
  {
    var y := ys[i];
    if cfg.g.count + 2 <= 2 * cfg.maxInMem {
      if |y.mapped| >= cfg.maxInMem {
        MappedInRing(cfg, ys, acts, i);
        SmallRingFree(cfg, y.mapped, y.q.meta.reading.id, y.q.meta.writing.id);
      }
    } else {
      TameRun(cfg, ys, acts, i);
      if Brimful(cfg, y) {
        AtMostTwo(y.mapped, Index(cfg.g, y.q.meta.reading.id), Index(cfg.g, y.q.meta.reading.id + 1));
      } else {
        TameFree(cfg.g, cfg.maxInMem, y.mapped, y.q.meta.reading.id, y.q.meta.writing.id);
      }
    }
  }

  lemma TameFree(g: Geometry, max: nat, mapped: set<nat>, rid: nat, wid: nat)
    requires g.Valid() && g.count > max + 1 && SomehowSettled(g, max, mapped, rid, wid) && max >= 4
    requires max >= 8 || g.count < 2 * max
    ensures |mapped| >= max ==> !NoneFree(g, max, mapped, rid, wid)
  {
    var last :| Settled(g, max, mapped, rid, wid, last);
    if |mapped| >= max {
      if max >= 8 {
        FullHasFree(g, max, mapped, rid, wid, last);
      } else {
        HalfRingFree(g, max, mapped, rid, wid, last);
      }
    }
  }

  /** The ids that a hung swap leaves: the reader's, those below the window, the writer's and its
      next, if that is not the reader's again. */
  ghost function OutsideIds(g: Geometry, max: nat, rid: nat, wid: nat): set<nat> {
    Range(rid, if wid > max + rid + 1 then wid - max else rid + 1) +
    Range(wid, if wid + 1 < rid + g.count then wid + 2 else wid + 1)
  }

  lemma OutsideCount(g: Geometry, max: nat, rid: nat, wid: nat)
    requires wid < rid + g.count && 4 <= max && g.count < 2 * max
    ensures |OutsideIds(g, max, rid, wid)| < max
  {
    var a, b := if wid > max + rid + 1 then wid - max else rid + 1, if wid + 1 < rid + g.count then wid + 2 else wid + 1;
    RangeCount(rid, a);
    RangeCount(wid, b);
    UnionCount(Range(rid, a), Range(wid, b));
  }

  /** In a ring of less than twice the limit, too few segments are outside the window. */
  lemma HalfRingFree(g: Geometry, max: nat, mapped: set<nat>, rid: nat, wid: nat, last: nat)
    requires g.Valid() && Settled(g, max, mapped, rid, wid, last)
    requires |mapped| >= max >= 4 && g.count < 2 * max
    ensures !NoneFree(g, max, mapped, rid, wid)
  {
    if NoneFree(g, max, mapped, rid, wid) {
      forall x | x in mapped
        ensures Covers(g, OutsideIds(g, max, rid, wid), x)
      {
        assert Held(g, rid, wid, x);
        var k: nat :| rid <= k <= wid + 1 && k < rid + g.count && Index(g, k) == x;
        OutsideOnly(g, max, mapped, rid, wid, k);
      }
      CoverCount(g, mapped, OutsideIds(g, max, rid, wid));
      OutsideCount(g, max, rid, wid);
    }
  }

  lemma OutsideOnly(g: Geometry, max: nat, mapped: set<nat>, rid: nat, wid: nat, k: nat)
    requires g.Valid() && wid < rid + g.count && NoneFree(g, max, mapped, rid, wid)
    requires rid <= k <= wid + 1 && k < rid + g.count && Index(g, k) in mapped
    ensures k in OutsideIds(g, max, rid, wid)
  {
    if rid < k < wid && wid <= k + max {
      FreeBelow(g, max, mapped, rid, wid, 0, k);
    }
    var a, b := if wid > max + rid + 1 then wid - max else rid + 1, if wid + 1 < rid + g.count then wid + 2 else wid + 1;
    assert Between(rid, a, k) || Between(wid, b, k);
  }
}
