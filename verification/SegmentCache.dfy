/** The bounded cache of mapped segments in front of the segment files. */
module SegmentCache {
  import opened Bytes
  import opened Layout

  datatype Mapping = Absent | Mapped(bytes: seq<byte>)

  type Segments = seq<Mapping>

  ghost predicate Fits(g: Geometry, files: Store, segments: Segments) {
    WellFormed(g, files) && |segments| == g.count &&
    forall i :: 0 <= i < |segments| && segments[i].Mapped? ==> |segments[i].bytes| == g.size
  }

  /** What the processes see: the mapped bytes where a segment is mapped, else the file. */
  ghost function Image(g: Geometry, files: Store, segments: Segments): (st: Store)
    requires Fits(g, files, segments)
    ensures WellFormed(g, st)
  {
    seq(g.count, i requires 0 <= i < g.count => if segments[i].Mapped? then segments[i].bytes else files[i])
  }

  function CountMapped(segments: Segments): nat {
    if segments == [] then 0 else
    (if segments[0].Mapped? then 1 else 0) + CountMapped(segments[1..])
  }

  lemma {:induction false} CountUpdate(segments: Segments, i: nat, m: Mapping)
    requires i < |segments|
    ensures CountMapped(segments[i := m]) ==
            CountMapped(segments) - (if segments[i].Mapped? then 1 else 0) + (if m.Mapped? then 1 else 0)
  {
    var s := segments[i := m];
    if i == 0 {
      assert s[1..] == segments[1..];
    } else {
      CountUpdate(segments[1..], i - 1, m);
      assert s[1..] == segments[1..][i - 1 := m];
    }
  }

  /** Mapping a segment shows the bytes of its file. */
  lemma MapKeepsImage(g: Geometry, files: Store, segments: Segments, i: nat)
    requires Fits(g, files, segments) && i < g.count && segments[i].Absent?
    ensures Fits(g, files, segments[i := Mapped(files[i])])
    ensures Image(g, files, segments[i := Mapped(files[i])]) == Image(g, files, segments)
  {
  }

  /** Unmapping keeps what was seen because the bytes are flushed first. */
  lemma UnmapKeepsImage(g: Geometry, files: Store, segments: Segments, i: nat)
    requires Fits(g, files, segments) && i < g.count && segments[i].Mapped?
    ensures var files' := files[i := segments[i].bytes];
            var segments' := segments[i := Absent];
            Fits(g, files', segments') &&
            Image(g, files', segments') == Image(g, files, segments) &&
            MixOf(g, files', files, Image(g, files, segments))
  {
  }

  /** The same for a flush that leaves the segment mapped. */
  lemma FlushKeepsImage(g: Geometry, files: Store, segments: Segments, i: nat)
    requires Fits(g, files, segments) && i < g.count && segments[i].Mapped?
    ensures var files' := files[i := segments[i].bytes];
            Fits(g, files', segments) &&
            Image(g, files', segments) == Image(g, files, segments) &&
            MixOf(g, files', files, Image(g, files, segments))
  {
  }

  // ----- eviction -----

  /** The logical ids doSwap walks over: the `max` ids below the writing id, one ring ahead. */
  ghost predicate InSwapWindow(g: Geometry, max: nat, wid: nat, i: nat) {
    wid + g.count - max <= i < wid + g.count
  }

  /** A segment doSwap may unmap: mapped, in the window, not the reading or writing one. */
  ghost predicate Evictable(g: Geometry, max: nat, segments: Segments, rid: nat, wid: nat, i: nat)
    requires g.Valid() && |segments| == g.count
  {
    InSwapWindow(g, max, wid, i) &&
    Index(g, i) != Index(g, wid) && Index(g, i) != Index(g, rid) &&
    segments[Index(g, i)].Mapped?
  }

  ghost predicate CanEvict(g: Geometry, max: nat, segments: Segments, rid: nat, wid: nat)
    requires g.Valid() && |segments| == g.count
  {
    exists i: nat :: Evictable(g, max, segments, rid, wid, i)
  }

  /** Only the segment at `i` may differ. */
  ghost predicate OtherwiseSame(before: Segments, after: Segments, i: nat) {
    |before| == |after| && forall x :: 0 <= x < |before| && x != i ==> after[x] == before[x]
  }

  /** `after` is `before` with some segments unmapped, never the reading or writing one. */
  ghost predicate OnlyEvicted(g: Geometry, before: Segments, after: Segments, rid: nat, wid: nat)
    requires g.Valid() && |before| == |after| == g.count
  {
    && (forall i :: 0 <= i < g.count ==> after[i] == before[i] || after[i] == Absent)
    && after[Index(g, rid)] == before[Index(g, rid)]
    && after[Index(g, wid)] == before[Index(g, wid)]
  }

  /** Progress of one sweep down to id `i`: what it unmapped, and nothing left above `i`. */
  ghost predicate SweptTo(g: Geometry, max: nat, before: Segments, now: Segments, rid: nat, wid: nat, i: nat)
    requires g.Valid() && |before| == |now| == g.count
  {
    && OnlyEvicted(g, before, now, rid, wid)
    && (forall k: nat :: i <= k < wid + g.count ==> !Evictable(g, max, now, rid, wid, k))
    && (forall x :: 0 <= x < g.count && now[x] != before[x] ==> Visited(g, wid, i, x))
    && (now == before || CanEvict(g, max, before, rid, wid))
  }

  /** The sweep down to id `i` came past index `x`. */
  ghost predicate Visited(g: Geometry, wid: nat, i: nat, x: nat)
    requires g.Valid()
  {
    exists k: nat :: i <= k < wid + g.count && Index(g, k) == x
  }

  /** More than one and a half times the limit between reader and writer: clear everything. */
  predicate ClearAll(max: nat, rid: nat, wid: nat) {
    wid - rid + 1 > max * 3 / 2
  }

  /** What a swap leaves with `count` segments mapped: it unmapped downwards from the id below the
      writing one and stopped either at the bottom of the window or, unless all is to be cleared,
      exactly when half of the limit less one was free. */
  ghost predicate Swapped(g: Geometry, max: nat, before: Segments, now: Segments, count: nat, rid: nat, wid: nat)
    requires g.Valid() && |before| == |now| == g.count
  {
    exists at: nat ::
      Bottom(g, max, wid) <= at && SweptTo(g, max, before, now, rid, wid, at) &&
      (at == Bottom(g, max, wid) || (!ClearAll(max, rid, wid) && count + max / 2 - 1 == max))
  }

  function Bottom(g: Geometry, max: nat, wid: nat): nat {
    if wid + g.count < max then 0 else wid + g.count - max
  }

  lemma SweepStep(g: Geometry, max: nat, before: Segments, now: Segments, rid: nat, wid: nat, i: nat)
    requires g.Valid() && |before| == |now| == g.count
    requires SweptTo(g, max, before, now, rid, wid, i + 1) && InSwapWindow(g, max, wid, i)
    ensures Index(g, i) == Index(g, wid) || Index(g, i) == Index(g, rid) ==>
              SweptTo(g, max, before, now, rid, wid, i)
    ensures Index(g, i) != Index(g, wid) && Index(g, i) != Index(g, rid) ==>
              SweptTo(g, max, before, now[Index(g, i) := Absent], rid, wid, i)
  {
    var x := Index(g, i);
    if x != Index(g, wid) && x != Index(g, rid) {
      var now' := now[x := Absent];
      if now[x].Mapped? {
        assert Evictable(g, max, before, rid, wid, i);
      } else {
        assert now' == now;
      }
      forall k: nat | i <= k < wid + g.count
        ensures !Evictable(g, max, now', rid, wid, k)
      {
        if i < k {
          assert !Evictable(g, max, now, rid, wid, k);
        }
      }
    }
    VisitedGrows(g, wid, i);
  }

  lemma VisitedGrows(g: Geometry, wid: nat, i: nat)
    requires g.Valid() && i < wid + g.count
    ensures Visited(g, wid, i, Index(g, i))
    ensures forall x :: 0 <= x < g.count && Visited(g, wid, i + 1, x) ==> Visited(g, wid, i, x)
  {
    assert i <= i < wid + g.count && Index(g, i) == Index(g, i);
  }

  /** A sweep that reached the bottom unmapped something exactly when something was evictable. */
  lemma SweepEnd(g: Geometry, max: nat, before: Segments, now: Segments, rid: nat, wid: nat, low: nat)
    requires g.Valid() && |before| == |now| == g.count
    requires SweptTo(g, max, before, now, rid, wid, low) && low == Bottom(g, max, wid)
    ensures now == before <==> !CanEvict(g, max, before, rid, wid)
  {
    if now == before {
      forall k: nat
        ensures !Evictable(g, max, before, rid, wid, k)
      {
        if InSwapWindow(g, max, wid, k) {
          assert low <= k;
        }
      }
    } else {
      var k: nat :| Evictable(g, max, before, rid, wid, k);
      assert !Evictable(g, max, now, rid, wid, k);
    }
  }

  // ----- the cache as the set of mapped indices -----

  ghost function Indices(segments: Segments): set<nat> {
    set i: nat | i < |segments| && segments[i].Mapped?
  }

  lemma {:induction false} CountIndices(segments: Segments)
    ensures CountMapped(segments) == |Indices(segments)|
    decreases |Indices(segments)|
  {
    if Indices(segments) == {} {
      forall i | 0 <= i < |segments|
        ensures segments[i] == Absent
      {
        assert i !in Indices(segments);
      }
      NothingMapped(segments);
    } else {
      var x :| x in Indices(segments);
      CountUpdate(segments, x, Absent);
      IndicesLess(segments, x);
      CountIndices(segments[x := Absent]);
    }
  }

  lemma IndicesLess(segments: Segments, x: nat)
    requires x in Indices(segments)
    ensures Indices(segments[x := Absent]) == Indices(segments) - {x}
  {
  }

  lemma {:induction false} NothingMapped(segments: Segments)
    requires forall i :: 0 <= i < |segments| ==> segments[i] == Absent
    ensures CountMapped(segments) == 0
  {
    if segments == [] {
    } else {
      NothingMapped(segments[1..]);
    }
  }

  /** A swap that went down to id `at` may have freed index `x`: it is mapped, in the window, and
      not the reader's or writer's. */
  ghost predicate FreeFrom(g: Geometry, max: nat, mapped: set<nat>, rid: nat, wid: nat, at: nat, x: nat)
    requires g.Valid()
  {
    x in mapped && x != Index(g, wid) && x != Index(g, rid) &&
    exists i: nat :: at <= i && InSwapWindow(g, max, wid, i) && Index(g, i) == x
  }

  /** No swap of these segments can end. */
  ghost predicate NoneFree(g: Geometry, max: nat, mapped: set<nat>, rid: nat, wid: nat)
    requires g.Valid()
  {
    forall x :: !FreeFrom(g, max, mapped, rid, wid, 0, x)
  }

  /** A swap of a full cache that went down to id `at`: it freed at least one index, and all that it
      may from there up, and stopped at the bottom of the window or, unless all is to be cleared,
      when half of the limit less one was free. */
  ghost predicate SwappedFrom(g: Geometry, max: nat, mapped: set<nat>, left: set<nat>, rid: nat, wid: nat, at: nat)
    requires g.Valid()
  {
    && left <= mapped && left != mapped
    && (forall x :: x in mapped && x !in left ==> FreeFrom(g, max, mapped, rid, wid, at, x))
    && (forall x :: !FreeFrom(g, max, left, rid, wid, at, x))
    && (at <= Bottom(g, max, wid) || (!ClearAll(max, rid, wid) && |left| + max / 2 - 1 == max))
  }

  ghost predicate SwappedTo(g: Geometry, max: nat, mapped: set<nat>, left: set<nat>, rid: nat, wid: nat)
    requires g.Valid()
  {
    exists at :: SwappedFrom(g, max, mapped, left, rid, wid, at)
  }

  /** The indices mapped once GetSegment has returned segment `id`. */
  ghost predicate Fetched(g: Geometry, max: nat, mapped: set<nat>, now: set<nat>, rid: nat, wid: nat, id: nat)
    requires g.Valid()
  {
    if |mapped| < max then now == mapped + {Index(g, id)}
    else exists left :: SwappedTo(g, max, mapped, left, rid, wid) && now == left + {Index(g, id)}
  }

  // kept folded in the contract of GetSegment, whose callers have no use for it
  predicate FetchKey(b: bool) { true }

  ghost predicate Fetches(g: Geometry, max: nat, before: Segments, now: Segments, rid: nat, wid: nat, id: nat)
    requires g.Valid()
  {
    forall b :: FetchKey(b) ==> Fetched(g, max, Indices(before), Indices(now), rid, wid, id)
  }

  ghost predicate NoWayOn(g: Geometry, max: nat, segments: Segments, rid: nat, wid: nat)
    requires g.Valid()
  {
    forall b :: FetchKey(b) ==> |Indices(segments)| == max && NoneFree(g, max, Indices(segments), rid, wid)
  }

  /** No swap of a full cache can end exactly when doSwap finds nothing to evict. */
  lemma NoWayOnIff(g: Geometry, max: nat, segments: Segments, rid: nat, wid: nat)
    requires g.Valid() && |segments| == g.count
    ensures NoWayOn(g, max, segments, rid, wid) <==>
            CountMapped(segments) == max && !CanEvict(g, max, segments, rid, wid)
  {
    CountIndices(segments);
    FreeIff(g, max, segments, rid, wid);
    assert FetchKey(true);
  }

  lemma FreeIff(g: Geometry, max: nat, segments: Segments, rid: nat, wid: nat)
    requires g.Valid() && |segments| == g.count
    ensures CanEvict(g, max, segments, rid, wid) <==> !NoneFree(g, max, Indices(segments), rid, wid)
  {
    var mapped := Indices(segments);
    if i: nat :| Evictable(g, max, segments, rid, wid, i) {
      assert FreeFrom(g, max, mapped, rid, wid, 0, Index(g, i));
    }
    if x :| FreeFrom(g, max, mapped, rid, wid, 0, x) {
      var i: nat :| 0 <= i && InSwapWindow(g, max, wid, i) && Index(g, i) == x;
      assert Evictable(g, max, segments, rid, wid, i);
    }
  }

  /** doSwap on segments is a swap of their indices. */
  lemma SwapOfIndices(g: Geometry, max: nat, before: Segments, now: Segments, count: nat, rid: nat, wid: nat)
    requires g.Valid() && |before| == |now| == g.count && count == CountMapped(now) < CountMapped(before) == max
    requires Swapped(g, max, before, now, count, rid, wid)
    ensures SwappedTo(g, max, Indices(before), Indices(now), rid, wid)
  {
    CountIndices(before);
    CountIndices(now);
    var at: nat :|
      Bottom(g, max, wid) <= at && SweptTo(g, max, before, now, rid, wid, at) &&
      (at == Bottom(g, max, wid) || (!ClearAll(max, rid, wid) && count + max / 2 - 1 == max));
    forall x | x in Indices(before) && x !in Indices(now)
      ensures FreeFrom(g, max, Indices(before), rid, wid, at, x)
    {
      assert Visited(g, wid, at, x);
      var k: nat :| at <= k < wid + g.count && Index(g, k) == x;
      assert InSwapWindow(g, max, wid, k);
    }
    forall x
      ensures !FreeFrom(g, max, Indices(now), rid, wid, at, x)
    {
      if FreeFrom(g, max, Indices(now), rid, wid, at, x) {
        var k: nat :| at <= k && InSwapWindow(g, max, wid, k) && Index(g, k) == x;
        assert Evictable(g, max, now, rid, wid, k);
      }
    }
    assert SwappedFrom(g, max, Indices(before), Indices(now), rid, wid, at);
  }
}
