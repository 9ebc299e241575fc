/** The partitioned queue: round-robin choice with a scan for a partition that is not full. */
module Partition {
  import opened Basics
  import opened OffsetText

  /** The partition `d` places after `start`, counting around. */
  function Turn(start: nat, d: nat, n: nat): (p: nat)
    requires start < n && d <= n
    ensures p == (start + d) % n
  {
    if start + d >= n then start + d - n else start + d
  }

  /** The partition `d` places after `start` is free and those before it are full. */
  ghost predicate FirstFree(full: seq<bool>, start: nat, d: nat)
    requires start < |full|
  {
    d < |full| && !full[Turn(start, d, |full|)] && Blocked(full, start, d)
  }

  /** The `d` partitions from `start` on are full. */
  ghost predicate Blocked(full: seq<bool>, start: nat, d: nat)
    requires start < |full| && d <= |full|
  {
    forall k :: 0 <= k < d ==> full[Turn(start, k, |full|)]
  }

  /** What findPartition answers when the round-robin index came out at `start`. */
  ghost predicate Answer(full: seq<bool>, start: nat, r: Option<nat>) {
    start < |full| &&
    match r
    case None => forall p :: 0 <= p < |full| ==> full[p]
    case Some(p) => exists d :: 0 <= d < |full| && FirstFree(full, start, d) && p == Turn(start, d, |full|)
  }

  /** A sub-queue as the partitioned queue uses it: waiting elements with their positions, the
      positions acknowledged so far, and whether it reports itself full. */
  datatype SubQueue = SubQueue(waiting: seq<(int, string)>, acked: seq<string>, full: bool)

  datatype Dequeued = Element(data: int, offset: Offset) | Empty

  class PartitionedQueue {
    const partition: nat
    var loadBalancerIndex: nat
    var subQueues: seq<SubQueue>

    ghost predicate Valid()
      reads this
    {
      partition >= 1 && |subQueues| == partition && loadBalancerIndex < partition
    }

    constructor (queues: seq<SubQueue>)
      requires |queues| >= 1
      ensures Valid() && subQueues == queues && partition == |queues| && loadBalancerIndex == 0
    {
      partition, loadBalancerIndex, subQueues := |queues|, 0, queues;
    }

    /** The add and compare-and-swap loop. `others[k]` is what other callers have made of the index,
        by increments and by resets, between this caller's increment and its swap in round `k`. */
    method NextIndex(others: seq<nat>) returns (p: nat)
      requires partition >= 1
      modifies `loadBalancerIndex
      ensures p < partition
      ensures others == [] && old(loadBalancerIndex) < partition ==>
                p == loadBalancerIndex == Turn(old(loadBalancerIndex), 1, partition)
    {
      var round := 0;
      while true
        invariant round <= |others|
        invariant round == 0 ==> loadBalancerIndex == old(loadBalancerIndex)
        decreases |others| - round
      {
        loadBalancerIndex := loadBalancerIndex + 1;
        var result := loadBalancerIndex;
        if result < partition {
          return result;
        }
        if round < |others| {
          loadBalancerIndex := others[round];
        }
        if loadBalancerIndex == result {
          loadBalancerIndex := 0;
          return 0;
        }
        round := round + 1;
      }
    }

    /** findPartition: ErrFull exactly when every partition is full, else the first free one from
        the round-robin index on. A single partition is returned without asking. */
    method FindPartition(others: seq<nat>) returns (r: Option<nat>)
      requires partition >= 1 && |subQueues| == partition
      modifies `loadBalancerIndex
      ensures partition == 1 ==> r == Some(0) && loadBalancerIndex == old(loadBalancerIndex)
      ensures partition >= 2 ==> exists start :: Answer(Fullness(subQueues), start, r)
      ensures partition >= 2 ==> (r.None? <==> forall p :: 0 <= p < partition ==> subQueues[p].full)
      ensures partition >= 2 && others == [] && old(loadBalancerIndex) < partition ==>
                loadBalancerIndex == Turn(old(loadBalancerIndex), 1, partition) &&
                Answer(Fullness(subQueues), loadBalancerIndex, r)
    {
      if partition == 1 {
        return Some(0);
      }
      var start := NextIndex(others);
      ghost var full := Fullness(subQueues);
      if !subQueues[start].full {
        assert FirstFree(full, start, 0);
        r := Some(start);
        assert Answer(full, start, r);
        return;
      }
      for addition := 1 to partition
        invariant Blocked(full, start, addition)
      {
        var p := start + addition;
        if p >= partition {
          p := p - partition;
        }
        assert p == Turn(start, addition, partition);
        if !subQueues[p].full {
          assert FirstFree(full, start, addition);
          r := Some(p);
          assert Answer(full, start, r);
          return;
        }
      }
      AllBlocked(full, start);
      r := None;
      assert Answer(full, start, r);
    }

    method Dequeue(p: nat) returns (r: Dequeued)
      requires Valid() && p < partition
      modifies `subQueues
      ensures Valid()
      ensures old(subQueues)[p].waiting == [] ==> r == Empty && subQueues == old(subQueues)
      ensures old(subQueues)[p].waiting != [] ==>
                var q := old(subQueues)[p];
                r == Element(q.waiting[0].0, Offset(p, q.waiting[0].1)) &&
                subQueues == old(subQueues)[p := q.(waiting := q.waiting[1..])]
    {
      var q := subQueues[p];
      if q.waiting == [] {
        return Empty;
      }
      subQueues := subQueues[p := q.(waiting := q.waiting[1..])];
      return Element(q.waiting[0].0, Offset(p, q.waiting[0].1));
    }

    method Ack(o: Offset)
      requires Valid() && o.partition < partition
      modifies `subQueues
      ensures Valid()
      ensures var q := old(subQueues)[o.partition];
              subQueues == old(subQueues)[o.partition := q.(acked := q.acked + [o.position])]
    {
      var q := subQueues[o.partition];
      subQueues := subQueues[o.partition := q.(acked := q.acked + [o.position])];
    }

    /** Acknowledging what Dequeue handed out reaches the sub-queue it came from, with that
        sub-queue's own position, and no other. */
    method DequeueThenAck(p: nat) returns (r: Dequeued)
      requires Valid() && p < partition
      modifies `subQueues
      ensures Valid()
      ensures r.Element? <==> old(subQueues)[p].waiting != []
      ensures r.Element? ==>
                subQueues[p].acked == old(subQueues)[p].acked + [old(subQueues)[p].waiting[0].1]
      ensures forall k :: 0 <= k < partition && k != p ==> subQueues[k] == old(subQueues)[k]
    {
      r := Dequeue(p);
      if r.Element? {
        Ack(r.offset);
      }
    }

    /** As many undisturbed calls as there are partitions, none of them full. */
    method Round() returns (hits: seq<nat>)
      requires Valid() && partition >= 2 && forall p :: 0 <= p < partition ==> !subQueues[p].full
      modifies `loadBalancerIndex
      ensures loadBalancerIndex == old(loadBalancerIndex)
      ensures |hits| == partition && forall p :: 0 <= p < partition ==> p in hits
      ensures forall i, j :: 0 <= i < j < |hits| ==> hits[i] != hits[j]
    {
      hits := [];
      ghost var from := loadBalancerIndex;
      for i := 0 to partition
        invariant |hits| == i && loadBalancerIndex == Turn(from, i, partition)
        invariant forall k :: 0 <= k < i ==> hits[k] == Turn(from, k + 1, partition)
      {
        var r := FindPartition([]);
        NoneFull(Fullness(subQueues), loadBalancerIndex, r);
        hits := hits + [r.value];
      }
      forall p | 0 <= p < partition
        ensures p in hits
      {
        var d := if p > from then p - from else p + partition - from;
        assert hits[d - 1] == p;
      }
    }
  }

  function Fullness(queues: seq<SubQueue>): (full: seq<bool>)
    ensures |full| == |queues|
    ensures forall p :: 0 <= p < |queues| ==> full[p] == queues[p].full
  {
    seq(|queues|, p requires 0 <= p < |queues| => queues[p].full)
  }

  lemma AllBlocked(full: seq<bool>, start: nat)
    requires start < |full| && Blocked(full, start, |full|)
    ensures forall p :: 0 <= p < |full| ==> full[p]
  {
    forall p | 0 <= p < |full|
      ensures full[p]
    {
      var d := if p >= start then p - start else p + |full| - start;
      assert full[Turn(start, d, |full|)];
    }
  }

  lemma NoneFull(full: seq<bool>, start: nat, r: Option<nat>)
    requires Answer(full, start, r) && forall p :: 0 <= p < |full| ==> !full[p]
    ensures r == Some(start)
  {
    assert !full[Turn(start, 0, |full|)];
  }
}
