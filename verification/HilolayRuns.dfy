/** Runs of the hilolay library: what every step keeps, who is dispatched when,
    and what becomes of threads that are created or finished. */
module HilolayRuns {
  import opened HilolaySpec

  // ----- One step

  /** The step gives the processor to another thread. */
  predicate Switches(s: Sched, e: Event) {
    if e.DoCreate? then HasFreeSlot(s) else s.ready != []
  }

  /** The step ends the current thread. */
  predicate Finishes(s: Sched, e: Event) {
    (e.DoReturn? || e.DoStop?) && s.current != MAIN_SLOT
  }

  /** The slot the step takes from the free ones, if any. */
  function Spawned(s: Sched, e: Event): seq<nat> {
    if e.DoCreate? && HasFreeSlot(s) then [FreeSlot(s.tcbs, 0)] else []
  }

  function StillRunnable(s: Sched, e: Event): seq<nat> {
    if Finishes(s, e) then [] else [s.current]
  }

  /** The law of the queue: the invariant holds before and after; the head of the
      queue, after a newly created thread has joined its tail, becomes current;
      and the previous thread goes to the tail unless it has finished. */
  predicate QueueLaw(s: Sched, e: Event, r: Sched) {
    && Inv(s) && Inv(r)
    && (!Switches(s, e) ==> r == s)
    && (Finishes(s, e) ==> Switches(s, e))
    && (Switches(s, e) ==>
          var queue := s.ready + Spawned(s, e);
          queue != [] && r.current == queue[0] != s.current && r.ready == queue[1..] + StillRunnable(s, e))
  }

  lemma SpawnKeepsInv(s: Sched)
    requires Inv(s) && HasFreeSlot(s)
    ensures Inv(Spawn(s)) && Spawn(s).current == s.current
    ensures Spawn(s).ready == s.ready + [FreeSlot(s.tcbs, 0)]
    ensures FreeSlot(s.tcbs, 0) != s.current && FreeSlot(s.tcbs, 0) !in s.ready
  {
  }

  lemma LeaveKeepsQueue(s: Sched)
    requires Inv(s)
    ensures Leave(s).current == s.current && Leave(s).ready == s.ready
    ensures if s.current == MAIN_SLOT then Inv(Leave(s)) else Leaving(Leave(s))
  {
  }

  /** Up to its yield, an event changes the queue by the thread it creates only,
      and ends the current thread if it is one that finishes. */
  lemma PrepareLaw(s: Sched, e: Event)
    requires Inv(s) && Enabled(s, e)
    ensures Prepare(s, e).current == s.current
    ensures Prepare(s, e).ready == s.ready + Spawned(s, e)
    ensures if Finishes(s, e) then Leaving(Prepare(s, e)) else Inv(Prepare(s, e))
  {
    match e
    case DoYield(_, _) =>
    case DoCreate(_, _) =>
      if HasFreeSlot(s) {
        SpawnKeepsInv(s);
      }
    case DoReturn(_, _) =>
      LeaveKeepsQueue(s);
    case DoStop(printAt, _, _) =>
      LeaveKeepsQueue(Summarize(s, printAt));
  }

  /** Every event obeys the law. */
  lemma StepLaw(s: Sched, e: Event)
    requires Inv(s) && Enabled(s, e)
    ensures QueueLaw(s, e, Step(s, e))
  {
    PrepareLaw(s, e);
    YieldKeepsInv(Prepare(s, e), e.stopAt, e.startAt);
    if Finishes(s, e) {
      assert s.ready[0] in s.ready;
    }
  }

  // ----- Creations and endings, field by field

  /** A creation without a free slot among the 5000 changes nothing. */
  lemma CreateWithoutSlot(s: Sched, stopAt: int, startAt: int)
    requires Inv(s)
    ensures HasFreeSlot(s) <==> exists x :: 0 <= x < 5000 && s.tcbs[x].state == FREE
    ensures !HasFreeSlot(s) ==> Step(s, DoCreate(stopAt, startAt)) == s
  {
    assert HasFreeSlot(s) ==> s.tcbs[FreeSlot(s.tcbs, 0)].state == FREE;
  }

  /** Otherwise the first free slot `k` becomes a thread with the next number and empty
      books. If nobody waited it runs at once; else it waits behind the others, and its
      creator, charged with its burst, behind it. */
  lemma CreateByFields(s: Sched, k: nat, stopAt: int, startAt: int)
    requires Inv(s) && k < 5000 && s.tcbs[k].state == FREE
    requires forall x :: 0 <= x < k ==> s.tcbs[x].state != FREE
    ensures var r, c := Step(s, DoCreate(stopAt, startAt)), s.current;
            var me, last := s.tcbs[c], stopAt - s.tcbs[c].burstStart;
            && k != c && k !in s.ready && |r.tcbs| == 5000
            && r.nextId == s.nextId + 1
            && r.tcbs[c] == Tcb(me.id, READY, me.burstStart, last, me.executionTime + last)
            && (s.ready == [] ==>
                  && r.current == k && r.ready == [c]
                  && r.tcbs[k] == Tcb(s.nextId, RUNNING, startAt, 0, 0))
            && (s.ready != [] ==>
                  && r.current == s.ready[0] != c && r.ready == s.ready[1..] + [k, c]
                  && r.tcbs[k] == Tcb(s.nextId, READY, 0, 0, 0)
                  && r.tcbs[r.current] == Tcb(s.tcbs[r.current].id, RUNNING, startAt,
                                              s.tcbs[r.current].lastBurst, s.tcbs[r.current].executionTime))
            && forall x :: 0 <= x < 5000 && x != c && x != k && x != r.current ==> r.tcbs[x] == s.tcbs[x]
  {
    assert FreeSlot(s.tcbs, 0) == k;
    SpawnKeepsInv(s);
    var spawned := Spawn(s);
    YieldKeepsInv(spawned, stopAt, startAt);
    YieldByFields(spawned, stopAt, startAt);
    if s.ready != [] {
      assert spawned.ready[1..] == s.ready[1..] + [k];
      assert s.ready[1..] + [k] + [s.current] == s.ready[1..] + [k, s.current];
    }
  }

  /** The first thread that a program creates is number 1, in slot 1. */
  lemma FirstThreadIsOne(tcbs: seq<Tcb>, now: int, stopAt: int, startAt: int)
    requires |tcbs| == 5000 && forall x :: 0 <= x < 5000 ==> tcbs[x].state == FREE
    ensures Inv(Init(tcbs, now))
    ensures var r := Step(Init(tcbs, now), DoCreate(stopAt, startAt));
            && r.current == 1 && r.ready == [0]
            && r.tcbs[1] == Tcb(1, RUNNING, startAt, 0, 0)
            && r.tcbs[0] == Tcb(0, READY, now, stopAt - now, stopAt - now)
  {
    InitEstablishesInv(tcbs, now);
    InitByFields(tcbs, now);
    CreateByFields(Init(tcbs, now), 1, stopAt, startAt);
  }

  /** A created thread that returns is charged with its burst and frees its slot; one that
      stops has been charged with it before, up to `printAt`. Main, in slot 0, only
      yields when it returns. */
  lemma EndByFields(s: Sched, e: Event)
    requires Inv(s) && (e.DoReturn? || e.DoStop?) && s.current != 0
    ensures s.ready != [] && s.ready[0] != s.current
    ensures var r, c, h := Step(s, e), s.current, s.ready[0];
            var me, it, last := s.tcbs[c], s.tcbs[h], e.stopAt - s.tcbs[c].burstStart;
            var before := if e.DoStop? then e.printAt - me.burstStart else 0;
            && r.current == h && r.ready == s.ready[1..] && r.nextId == s.nextId && |r.tcbs| == 5000
            && r.tcbs[c] == Tcb(me.id, FREE, me.burstStart, last, me.executionTime + before + last)
            && r.tcbs[h] == Tcb(it.id, RUNNING, e.startAt, it.lastBurst, it.executionTime)
            && forall x :: 0 <= x < 5000 && x != c && x != h ==> r.tcbs[x] == s.tcbs[x]
  {
    assert 0 in s.ready && s.ready[0] in s.ready;
    YieldByFields(Prepare(s, e), e.stopAt, e.startAt);
  }

  lemma MainReturnYields(s: Sched, stopAt: int, startAt: int)
    requires Inv(s)
    ensures Step(s, DoYield(stopAt, startAt)) == Yield(s, stopAt, startAt)
    ensures s.current == 0 ==> Step(s, DoReturn(stopAt, startAt)) == Yield(s, stopAt, startAt)
  {
  }

  function Live(s: Sched): set<nat>
    requires InPool(s)
  {
    set x | 0 <= x < MAX_ULTS && s.tcbs[x].state != FREE
  }

  function Slots(q: seq<nat>): set<nat> {
    set x | x in q
  }

  lemma LiveIsCurrentAndReady(s: Sched)
    requires Inv(s)
    ensures Live(s) == {s.current} + Slots(s.ready)
  {
  }

  lemma SlotsRotated(queue: seq<nat>, back: seq<nat>)
    requires queue != []
    ensures {queue[0]} + Slots(queue[1..] + back) == Slots(queue) + Slots(back)
  {
    assert queue == [queue[0]] + queue[1..];
  }

  /** Live threads are conserved up to the one that the step adds or ends. */
  lemma LawConservesLive(s: Sched, e: Event, r: Sched)
    requires QueueLaw(s, e, r)
    ensures Live(r) == Live(s) + Slots(Spawned(s, e)) - if Finishes(s, e) then {s.current} else {}
  {
    LiveIsCurrentAndReady(s);
    LiveIsCurrentAndReady(r);
    if Switches(s, e) {
      SlotsRotated(s.ready + Spawned(s, e), StillRunnable(s, e));
      assert Slots(s.ready + Spawned(s, e)) == Slots(s.ready) + Slots(Spawned(s, e));
    }
  }

  lemma StepConservesLive(s: Sched, e: Event)
    requires Inv(s) && Enabled(s, e)
    ensures Live(Step(s, e))
         == Live(s) + Slots(Spawned(s, e)) - if Finishes(s, e) then {s.current} else {}
  {
    StepLaw(s, e);
    LawConservesLive(s, e, Step(s, e));
  }

  /** A thread that returns is always replaced by another one, so control cannot
      come back to the point after its last yield. */
  lemma ReturnNeverComesBack(s: Sched, e: Event)
    requires Inv(s) && Enabled(s, e) && Finishes(s, e)
    ensures Switches(s, e)
    ensures Step(s, e).current != s.current
    ensures Step(s, e).tcbs[s.current].state == FREE
  {
    StepLaw(s, e);
    StepConservesLive(s, e);
    assert s.current !in Live(Step(s, e));
  }

  /** Main's waiting loop stops exactly when no other thread is left. */
  lemma MainWaitsForAll(s: Sched, stopAt: int, startAt: int)
    requires Inv(s) && s.current == MAIN_SLOT
    ensures !Switches(s, DoReturn(stopAt, startAt)) <==> Live(s) == {MAIN_SLOT}
  {
    LiveIsCurrentAndReady(s);
    if s.ready != [] {
      assert s.ready[0] in s.ready;
      assert s.ready[0] in Live(s);
    }
  }

  // ----- Runs

  /** The states of a run: `run[i]` is the one before event `i`. */
  predicate IsRun(run: seq<Sched>, es: seq<Event>) {
    && |run| == |es| + 1
    && Inv(run[0])
    && forall i :: 0 <= i < |es| ==> InPool(run[i]) && Enabled(run[i], es[i]) && run[i + 1] == Step(run[i], es[i])
  }

  predicate LawAfter(run: seq<Sched>, es: seq<Event>, i: nat)
    requires |run| == |es| + 1 && i < |es|
  {
    QueueLaw(run[i], es[i], run[i + 1])
  }

  predicate Lawful(run: seq<Sched>, es: seq<Event>) {
    |run| == |es| + 1 && forall i :: 0 <= i < |es| ==> LawAfter(run, es, i)
  }

  /** Every state of a run satisfies the invariant, and every step the law. */
  lemma RunIsLawful(run: seq<Sched>, es: seq<Event>)
    requires IsRun(run, es)
    ensures Lawful(run, es)
    ensures forall i :: 0 <= i < |run| ==> Inv(run[i])
  {
    forall i | 0 <= i < |es| ensures LawAfter(run, es, i) {
      LawAt(run, es, i);
    }
    forall i | 0 <= i < |run| ensures Inv(run[i]) {
      if i > 0 {
        assert LawAfter(run, es, i - 1);
      }
    }
  }

  lemma {:induction false} LawAt(run: seq<Sched>, es: seq<Event>, i: nat)
    requires IsRun(run, es) && i < |es|
    ensures QueueLaw(run[i], es[i], run[i + 1])
  {
    if i == 0 {
    } else {
      LawAt(run, es, i - 1);
    }
    StepLaw(run[i], es[i]);
  }

  /** Number of dispatches from state `i` to state `j`. */
  function Dispatches(run: seq<Sched>, es: seq<Event>, i: nat, j: nat): nat
    requires |run| == |es| + 1 && i <= j <= |es|
    decreases j - i
  {
    if i == j then 0
    else Dispatches(run, es, i, j - 1) + if Switches(run[j - 1], es[j - 1]) then 1 else 0
  }

  /** A dispatch moves every queued thread up one place; the first one runs. */
  lemma LawMovesUp(s: Sched, e: Event, r: Sched, k: nat)
    requires QueueLaw(s, e, r) && k < |s.ready| && Switches(s, e)
    ensures k == 0 ==> r.current == s.ready[0]
    ensures k > 0 ==> k - 1 < |r.ready| && r.ready[k - 1] == s.ready[k]
  {
  }

  /** Without a dispatch the queue stays as it is. */
  lemma LawKeepsPlaces(s: Sched, e: Event, r: Sched, k: nat)
    requires QueueLaw(s, e, r) && k < |s.ready| && !Switches(s, e)
    ensures k < |r.ready| && r.ready[k] == s.ready[k]
  {
  }

  lemma {:induction false} MovesUp(run: seq<Sched>, es: seq<Event>, i: nat, k: nat, j: nat)
    requires Lawful(run, es) && i <= j <= |es| && k < |run[i].ready|
    requires Dispatches(run, es, i, j) <= k
    ensures k - Dispatches(run, es, i, j) < |run[j].ready|
    ensures run[j].ready[k - Dispatches(run, es, i, j)] == run[i].ready[k]
    decreases j - i
  {
    if i == j {
    } else {
      MovesUp(run, es, i, k, j - 1);
      var s, e, r, place := run[j - 1], es[j - 1], run[j], k - Dispatches(run, es, i, j - 1);
      assert LawAfter(run, es, j - 1);
      if Switches(s, e) {
        LawMovesUp(s, e, r, place);
      } else {
        LawKeepsPlaces(s, e, r, place);
      }
    }
  }

  /** Dispatch number `k + 1` chooses the thread that stood at position `k`. */
  lemma TurnAt(run: seq<Sched>, es: seq<Event>, i: nat, k: nat, j: nat)
    requires Lawful(run, es) && i < j <= |es| && k < |run[i].ready|
    requires Dispatches(run, es, i, j - 1) == k && Switches(run[j - 1], es[j - 1])
    ensures run[j].current == run[i].ready[k]
  {
    MovesUp(run, es, i, k, j - 1);
    assert LawAfter(run, es, j - 1);
    LawMovesUp(run[j - 1], es[j - 1], run[j], 0);
  }

  /** The thread at position `k` of the queue moves up one place per dispatch and
      is the one chosen by dispatch number `k + 1`, whatever else is created or
      finished meanwhile. */
  lemma DispatchedInTurn(run: seq<Sched>, es: seq<Event>, i: nat, k: nat, j: nat)
    requires IsRun(run, es) && i <= j <= |es| && k < |run[i].ready|
    ensures var d := Dispatches(run, es, i, j);
            && (d <= k ==> k - d < |run[j].ready| && run[j].ready[k - d] == run[i].ready[k])
            && (d == k + 1 && Dispatches(run, es, i, j - 1) == k ==> run[j].current == run[i].ready[k])
  {
    RunIsLawful(run, es);
    if Dispatches(run, es, i, j) <= k {
      MovesUp(run, es, i, k, j);
    } else if Dispatches(run, es, i, j - 1) == k {
      TurnAt(run, es, i, k, j);
    }
  }

  /** Enough dispatches have reached every given place of the queue. */
  lemma {:induction false} TurnCame(run: seq<Sched>, es: seq<Event>, i: nat, k: nat, j: nat) returns (n: nat)
    requires Lawful(run, es) && i <= j <= |es| && k < |run[i].ready|
    requires Dispatches(run, es, i, j) > k
    ensures i < n <= j && run[n].current == run[i].ready[k]
    decreases j - i
  {
    if Dispatches(run, es, i, j - 1) > k {
      n := TurnCame(run, es, i, k, j - 1);
    } else {
      n := j;
      TurnAt(run, es, i, k, j);
    }
  }

  /** A queued thread cannot be running before those ahead of it have run. */
  lemma AheadRunsFirst(run: seq<Sched>, es: seq<Event>, i: nat, k: nat, l: nat, j: nat) returns (n: nat)
    requires Lawful(run, es) && i < j <= |es| && k < l < |run[i].ready|
    requires run[j].current == run[i].ready[l]
    ensures i < n <= j && run[n].current == run[i].ready[k]
  {
    assert LawAfter(run, es, j - 1);
    if Dispatches(run, es, i, j) <= l {
      MovesUp(run, es, i, l, j);
      assert false;
    }
    n := TurnCame(run, es, i, k, j);
  }

  /** When a successful `th_create` returns to its caller, that is, as soon as the
      creator runs again, the created thread has run. */
  lemma CreatedRunsBeforeCreatorResumes(run: seq<Sched>, es: seq<Event>, i: nat, j: nat) returns (n: nat)
    requires IsRun(run, es) && i < j <= |es|
    requires es[i].DoCreate? && HasFreeSlot(run[i])
    requires run[j].current == run[i].current
    ensures i < n <= j && run[n].current == FreeSlot(run[i].tcbs, 0)
  {
    RunIsLawful(run, es);
    assert LawAfter(run, es, i);
    var created, last := FreeSlot(run[i].tcbs, 0), |run[i + 1].ready| - 1;
    if run[i].ready == [] {
      n := i + 1;
    } else {
      assert run[i + 1].ready[last - 1] == created && run[i + 1].ready[last] == run[i].current;
      n := AheadRunsFirst(run, es, i + 1, last - 1, last, j);
    }
  }

  /** A free slot is not touched by a step unless a creation takes it. */
  lemma LawKeepsFree(s: Sched, e: Event, r: Sched, x: nat)
    requires QueueLaw(s, e, r) && x < MAX_ULTS && s.tcbs[x].state == FREE
    ensures r.tcbs[x].state == FREE || Spawned(s, e) == [x]
  {
    LawConservesLive(s, e, r);
    assert x !in Live(s);
    if r.tcbs[x].state != FREE {
      assert x in Live(r);
    }
  }

  /** A finished thread never runs again: a free slot that is live later was first
      handed out by a creation. */
  lemma {:induction false} FreedRunsOnlyIfReused(run: seq<Sched>, es: seq<Event>, i: nat, j: nat, x: nat)
    returns (n: nat)
    requires Lawful(run, es) && i < j <= |es| && x < MAX_ULTS
    requires InPool(run[i]) && run[i].tcbs[x].state == FREE
    requires InPool(run[j]) && run[j].tcbs[x].state != FREE
    ensures i <= n < j && Spawned(run[n], es[n]) == [x]
    decreases j - i
  {
    assert LawAfter(run, es, j - 1);
    if run[j - 1].tcbs[x].state == FREE {
      n := j - 1;
      LawKeepsFree(run[n], es[n], run[j], x);
    } else {
      n := FreedRunsOnlyIfReused(run, es, i, j - 1, x);
    }
  }
}
