/** The connection limit: an optimistic counter with rollback, shared by accepting threads. */
module AcceptLimiter {

  const INT32: int := 0x1_0000_0000
  const MAX_INT32: int := 0x7FFF_FFFF

  /** A 32-bit signed counter. */
  function Wrap(v: int): int {
    var u := v % INT32;
    if u > MAX_INT32 then u - INT32 else u
  }

  /** The counter; how many threads are between the check and the increment and between the
      increment and the rollback; the connections handed out, open or closed. */
  datatype State = State(active: int, checked: nat, over: nat, open: set<nat>, closed: set<nat>)

  datatype Action = Check(busy: bool) | Increment(id: nat) | Rollback | Close(id: nat)

  /** At most `threads` are inside CouldHandleConnection at once. A granted connection is new. */
  predicate Enabled(threads: nat, s: State, a: Action) {
    match a
    case Check(busy) => s.checked + s.over < threads
    case Increment(id) => s.checked > 0 && id !in s.open && id !in s.closed
    case Rollback => s.over > 0
    case Close(id) => id in s.open || id in s.closed
  }

  function Apply(limit: int, s: State, a: Action): State
    requires match a case Increment(_) => s.checked > 0 case Rollback => s.over > 0 case _ => true
  {
    match a
    case Check(busy) =>
      if busy || s.active >= limit then s else s.(checked := s.checked + 1)
    case Increment(id) =>
      var n := Wrap(s.active + 1);
      if n > limit then s.(active := n, checked := s.checked - 1, over := s.over + 1)
      else s.(active := n, checked := s.checked - 1, open := s.open + {id})
    case Rollback => s.(active := Wrap(s.active - 1), over := s.over - 1)
    case Close(id) =>
      // closeOnce: only the first Close reaches the limiter
      if id in s.closed then s
      else s.(active := Wrap(s.active - 1), open := s.open - {id}, closed := s.closed + {id})
  }

  /** The configurations in which the counter cannot overflow. */
  predicate Roomy(limit: int, threads: nat) {
    limit + threads <= MAX_INT32 + 1
  }

  predicate Inv(limit: int, threads: nat, s: State) {
    && s.active == |s.open| + s.over
    && s.checked + s.over <= threads
    && (s.checked + s.active > 0 ==> s.checked + s.active < limit + threads)
    && (s.open != {} ==> |s.open| <= limit)
    && s.open !! s.closed
  }

  const Start := State(0, 0, 0, {}, {})

  lemma InRange(v: int)
    requires -MAX_INT32 <= v <= MAX_INT32
    ensures Wrap(v) == v
  {
    if v < 0 {
      assert v % INT32 == v + INT32;
    }
  }

  lemma KeepsIncrement(limit: int, threads: nat, s: State, id: nat)
    requires Roomy(limit, threads) && Inv(limit, threads, s) && Enabled(threads, s, Increment(id))
    ensures Inv(limit, threads, Apply(limit, s, Increment(id)))
  {
    InRange(s.active + 1);
    assert |s.open + {id}| == |s.open| + 1;
  }

  lemma KeepsClose(limit: int, threads: nat, s: State, id: nat)
    requires Roomy(limit, threads) && Inv(limit, threads, s) && id in s.open
    ensures Inv(limit, threads, Apply(limit, s, Close(id)))
  {
    assert |s.open - {id}| == |s.open| - 1;
    InRange(s.active - 1);
  }

  lemma InvStep(limit: int, threads: nat, s: State, a: Action)
    requires Roomy(limit, threads) && Inv(limit, threads, s) && Enabled(threads, s, a)
    ensures Inv(limit, threads, Apply(limit, s, a))
  {
    match a
    case Check(_) =>
    case Increment(id) => KeepsIncrement(limit, threads, s, id);
    case Rollback => InRange(s.active - 1);
    case Close(id) =>
      if id in s.open {
        KeepsClose(limit, threads, s, id);
      }
  }

  ghost predicate CanRun(limit: int, threads: nat, s: State, acts: seq<Action>)
    decreases |acts|
  {
    acts == [] || (Enabled(threads, s, acts[0]) && CanRun(limit, threads, Apply(limit, s, acts[0]), acts[1..]))
  }

  ghost function Final(limit: int, threads: nat, s: State, acts: seq<Action>): State
    requires CanRun(limit, threads, s, acts)
    decreases |acts|
  {
    if acts == [] then s else Final(limit, threads, Apply(limit, s, acts[0]), acts[1..])
  }

  lemma {:induction false} RunInv(limit: int, threads: nat, s: State, acts: seq<Action>)
    requires Roomy(limit, threads) && Inv(limit, threads, s) && CanRun(limit, threads, s, acts)
    ensures Inv(limit, threads, Final(limit, threads, s, acts))
    decreases |acts|
  {
    if acts == [] {
    } else {
      InvStep(limit, threads, s, acts[0]);
      RunInv(limit, threads, Apply(limit, s, acts[0]), acts[1..]);
    }
  }

  /** In every interleaving the counter is the open connections plus the attempts not yet rolled
      back, it is never negative, and the open connections never exceed the limit. */
  lemma AcceptLimit(limit: int, threads: nat, acts: seq<Action>)
    requires Roomy(limit, threads) && CanRun(limit, threads, Start, acts)
    ensures var t := Final(limit, threads, Start, acts);
            t.active == |t.open| + t.over >= 0 && |t.open| <= (if limit < 0 then 0 else limit)
  {
    RunInv(limit, threads, Start, acts);
  }

  /** A closed connection stays closed whatever the threads do, and closing it again, at any
      later time, changes nothing. */
  lemma {:induction false} CloseOnce(limit: int, threads: nat, s: State, acts: seq<Action>, id: nat)
    requires id in s.closed && id !in s.open && CanRun(limit, threads, s, acts)
    ensures var t := Final(limit, threads, s, acts);
            id in t.closed && id !in t.open && Apply(limit, t, Close(id)) == t
    decreases |acts|
  {
    if acts == [] {
    } else {
      CloseOnce(limit, threads, Apply(limit, s, acts[0]), acts[1..], id);
    }
  }

  // ----- single connections -----

  /** A busy process takes no connection and counts nothing. */
  lemma BusyChangesNothing(limit: int, threads: nat, s: State)
    requires Enabled(threads, s, Check(true))
    ensures Apply(limit, s, Check(true)) == s
  {
  }

  /** With no attempt under way and the process not busy, a connection is granted exactly when fewer than
      the limit are open; otherwise nothing changes. */
  lemma GrantedIff(limit: int, threads: nat, acts: seq<Action>, id: nat)
    requires Roomy(limit, threads) && CanRun(limit, threads, Start, acts) && threads >= 1
    requires var s := Final(limit, threads, Start, acts); s.checked == s.over == 0 && id !in s.open && id !in s.closed
    ensures var s := Final(limit, threads, Start, acts);
            if |s.open| < limit then
              CanRun(limit, threads, s, [Check(false), Increment(id)]) &&
              Final(limit, threads, s, [Check(false), Increment(id)]).open == s.open + {id}
            else Apply(limit, s, Check(false)) == s
  {
    var s := Final(limit, threads, Start, acts);
    RunInv(limit, threads, Start, acts);
    if |s.open| < limit {
      var t := Apply(limit, s, Check(false));
      InRange(s.active + 1);
      assert [Check(false), Increment(id)][1..] == [Increment(id)] && [Increment(id)][1..] == [];
      var u := Apply(limit, t, Increment(id));
      assert CanRun(limit, threads, u, []) && Final(limit, threads, u, []) == u;
      assert CanRun(limit, threads, t, [Increment(id)]) && Final(limit, threads, t, [Increment(id)]) == u;
    }
  }

  /** Attempts over the limit are all taken back, one by one, and then the counter is the number of open
      connections. */
  lemma {:induction false} RollsBack(limit: int, threads: nat, s: State) returns (t: State)
    requires Roomy(limit, threads) && Inv(limit, threads, s) && s.checked == 0
    ensures RunsTo(limit, threads, s, seq(s.over, _ => Rollback), t)
    ensures t == s.(over := 0, active := |s.open|)
    decreases s.over
  {
    var acts := seq(s.over, _ => Rollback);
    if s.over == 0 {
      t := s;
      assert acts == [];
    } else {
      InvStep(limit, threads, s, Rollback);
      InRange(s.active - 1);
      t := RollsBack(limit, threads, Apply(limit, s, Rollback));
      assert acts[1..] == seq(s.over - 1, _ => Rollback);
    }
  }

  /** Closing an open connection makes room for another one. */
  lemma CloseMakesRoom(limit: int, threads: nat, s: State, id: nat)
    requires Roomy(limit, threads) && Inv(limit, threads, s) && id in s.open
    ensures Enabled(threads, s, Close(id))
    ensures var t := Apply(limit, s, Close(id));
            id !in t.open && id in t.closed && |t.open| == |s.open| - 1 && t.active == s.active - 1
  {
    assert |s.open - {id}| == |s.open| - 1;
    InRange(s.active - 1);
  }

  // ----- why the counter must not overflow -----

  function Ids(n: nat): set<nat> {
    if n == 0 then {} else Ids(n - 1) + {n - 1}
  }

  lemma {:induction false} IdsCount(n: nat)
    ensures |Ids(n)| == n && forall i :: i in Ids(n) ==> i < n
  {
    if n == 0 {
    } else {
      IdsCount(n - 1);
      assert |Ids(n - 1) + {n - 1}| == n;
    }
  }

  ghost predicate Reaches(limit: int, threads: nat, s: State) {
    exists acts :: RunsTo(limit, threads, Start, acts, s)
  }

  ghost predicate RunsTo(limit: int, threads: nat, s: State, acts: seq<Action>, t: State) {
    CanRun(limit, threads, s, acts) && Final(limit, threads, s, acts) == t
  }

  lemma {:induction false} RunAppend(limit: int, threads: nat, s: State, acts: seq<Action>, t: State, a: Action)
    requires RunsTo(limit, threads, s, acts, t) && Enabled(threads, t, a)
    ensures RunsTo(limit, threads, s, acts + [a], Apply(limit, t, a))
    decreases |acts|
  {
    var all := acts + [a];
    if acts == [] {
      assert all[1..] == [];
    } else {
      assert all[0] == acts[0] && all[1..] == acts[1..] + [a];
      RunAppend(limit, threads, Apply(limit, s, acts[0]), acts[1..], t, a);
    }
  }

  lemma Reach(limit: int, threads: nat, s: State, a: Action)
    requires Reaches(limit, threads, s) && Enabled(threads, s, a)
    ensures Reaches(limit, threads, Apply(limit, s, a))
  {
    var acts :| RunsTo(limit, threads, Start, acts, s);
    RunAppend(limit, threads, Start, acts, s, a);
  }

  /** One thread alone grants the first `n` connections. */
  lemma {:induction false} ReachOpen(limit: int, threads: nat, n: nat)
    requires n <= limit <= MAX_INT32 && threads >= 1
    ensures Reaches(limit, threads, State(n, 0, 0, Ids(n), {}))
  {
    if n == 0 {
      assert RunsTo(limit, threads, Start, [], Start);
    } else {
      ReachOpen(limit, threads, n - 1);
      IdsCount(n - 1);
      var s := State(n - 1, 0, 0, Ids(n - 1), {});
      Reach(limit, threads, s, Check(false));
      InRange(n);
      Reach(limit, threads, s.(checked := 1), Increment(n - 1));
    }
  }

  /** With one connection left, any number of threads get past the check. */
  lemma {:induction false} ReachChecked(limit: int, threads: nat, k: nat)
    requires 1 <= limit <= MAX_INT32 && k <= threads && threads >= 1
    ensures Reaches(limit, threads, State(limit - 1, k, 0, Ids(limit - 1), {}))
  {
    if k == 0 {
      ReachOpen(limit, threads, limit - 1);
    } else {
      ReachChecked(limit, threads, k - 1);
      Reach(limit, threads, State(limit - 1, k - 1, 0, Ids(limit - 1), {}), Check(false));
    }
  }

  /** One of them gets the connection, and the others raise the counter before rolling back. */
  lemma {:induction false} ReachOver(limit: int, threads: nat, k: nat, j: nat)
    requires 1 <= limit && limit + j <= MAX_INT32 && j < k <= threads
    ensures Reaches(limit, threads, State(limit + j, k - 1 - j, j, Ids(limit), {}))
    decreases j
  {
    if j == 0 {
      ReachGranted(limit, threads, k);
    } else {
      ReachOver(limit, threads, k, j - 1);
      IdsCount(limit);
      InRange(limit + j);
      Reach(limit, threads, State(limit + j - 1, k - j, j - 1, Ids(limit), {}), Increment(limit));
    }
  }

  lemma ReachGranted(limit: int, threads: nat, k: nat)
    requires 1 <= limit <= MAX_INT32 && 1 <= k <= threads
    ensures Reaches(limit, threads, State(limit, k - 1, 0, Ids(limit), {}))
  {
    var s := State(limit - 1, k, 0, Ids(limit - 1), {});
    ReachChecked(limit, threads, k);
    IdsCount(limit - 1);
    InRange(limit);
    assert Apply(limit, s, Increment(limit - 1)) == State(limit, k - 1, 0, Ids(limit), {});
    Reach(limit, threads, s, Increment(limit - 1));
  }

  /** With a limit that is not positive no thread gets past the check. */
  lemma {:induction false} NothingGranted(limit: int, threads: nat, s: State, acts: seq<Action>)
    requires limit <= 0 && s == Start && CanRun(limit, threads, s, acts)
    ensures Final(limit, threads, s, acts) == Start
    decreases |acts|
  {
    if acts == [] {
    } else {
      NothingGranted(limit, threads, Apply(limit, s, acts[0]), acts[1..]);
    }
  }

  /** In no run are more connections open than the limit allows. */
  ghost predicate WithinLimit(limit: int, threads: nat) {
    forall s :: Reaches(limit, threads, s) ==> |s.open| <= (if limit < 0 then 0 else limit)
  }

  /** That holds exactly when the counter has room or nothing is ever granted; otherwise some run
      wraps the counter around to a negative value and grants one connection too many. */
  lemma WithinLimitIff(limit: int, threads: nat)
    requires limit <= MAX_INT32
    ensures WithinLimit(limit, threads) <==> Roomy(limit, threads) || limit <= 0
  {
    if Roomy(limit, threads) || limit <= 0 {
      forall s | Reaches(limit, threads, s)
        ensures |s.open| <= (if limit < 0 then 0 else limit)
      {
        var acts :| RunsTo(limit, threads, Start, acts, s);
        if limit <= 0 {
          NothingGranted(limit, threads, Start, acts);
        } else {
          AcceptLimit(limit, threads, acts);
        }
      }
    } else {
      OneTooMany(limit, threads);
    }
  }

  lemma OneTooMany(limit: int, threads: nat)
    requires 1 <= limit <= MAX_INT32 && !Roomy(limit, threads)
    ensures exists s :: Reaches(limit, threads, s) && |s.open| == limit + 1
  {
    var j := MAX_INT32 - limit;
    ReachOver(limit, threads, j + 2, j);
    IdsCount(limit);
    var s := State(MAX_INT32, 1, j, Ids(limit), {});
    Reach(limit, threads, s, Increment(limit));
    assert |s.open + {limit}| == limit + 1;
  }
}
