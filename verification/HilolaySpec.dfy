/** The hilolay green-thread library as a state machine over its TCB slots. */
module HilolaySpec {
  const MAX_ULTS: nat := 5000
  const MAIN_SLOT: nat := 0
  const MAIN_THREAD_ID: int := 0
  const ERROR_TOO_MANY_ULTS: int := -1

  datatype RunState = FREE | RUNNING | READY

  datatype Tcb = Tcb(id: int, state: RunState, burstStart: int, lastBurst: int, executionTime: int)

  /** `ready` lists slots from the head of the queue to its tail. */
  datatype Sched = Sched(tcbs: seq<Tcb>, current: nat, ready: seq<nat>, nextId: int)

  /** Slots stay within the pool. */
  predicate InPool(s: Sched) {
    && |s.tcbs| == MAX_ULTS
    && s.current < MAX_ULTS
    && forall i :: 0 <= i < |s.ready| ==> s.ready[i] < MAX_ULTS
  }

  // ----- Library functions

  /** `lib_write_TCB` */
  function NewTcb(id: int, state: RunState): Tcb {
    Tcb(id, state, 0, 0, 0)
  }

  /** `lib_init`, on a pool whose TCBs are all free. */
  function Init(tcbs: seq<Tcb>, now: int): Sched
    requires |tcbs| == MAX_ULTS
  {
    Sched(tcbs[MAIN_SLOT := NewTcb(MAIN_THREAD_ID, RUNNING).(burstStart := now)], MAIN_SLOT, [], 1)
  }

  /** `lib_summarize_burst` on one TCB. */
  function Summarized(t: Tcb, now: int): Tcb {
    t.(executionTime := t.executionTime + (now - t.burstStart), lastBurst := now - t.burstStart)
  }

  function Summarize(s: Sched, now: int): Sched
    requires InPool(s)
  {
    s.(tcbs := s.tcbs[s.current := Summarized(s.tcbs[s.current], now)])
  }

  /** `lib_enqueue` */
  function Enqueue(s: Sched, x: nat): Sched
    requires InPool(s) && x < MAX_ULTS
  {
    s.(tcbs := s.tcbs[x := s.tcbs[x].(state := READY)], ready := s.ready + [x])
  }

  function SetCurrentFree(s: Sched): Sched
    requires InPool(s)
  {
    s.(tcbs := s.tcbs[s.current := s.tcbs[s.current].(state := FREE)])
  }

  /** `th_yield`; the clock is read at `stopAt` and then at `startAt`. */
  function Yield(s: Sched, stopAt: int, startAt: int): (r: Sched)
    requires InPool(s)
    ensures InPool(r)
  {
    if s.ready == [] then s
    else
      var selected, back := s.ready[0], s.tcbs[s.current].state != FREE;
      var me := if back then s.tcbs[s.current].(state := READY) else s.tcbs[s.current];
      var tcbs := s.tcbs[s.current := Summarized(me, stopAt)];
      var chosen := tcbs[selected].(state := RUNNING, burstStart := startAt);
      Sched(tcbs[selected := chosen], selected, s.ready[1..] + if back then [s.current] else [], s.nextId)
  }

  /** Gives the processor to slot `x`. */
  function Dispatch(s: Sched, x: nat, startAt: int): Sched
    requires InPool(s) && x < MAX_ULTS
  {
    Sched(s.tcbs[x := s.tcbs[x].(state := RUNNING, burstStart := startAt)], x, s.ready, s.nextId)
  }

  /** The yield as the library performs it: dequeue, enqueue, summarize, dispatch. */
  lemma YieldInSteps(s: Sched, stopAt: int, startAt: int)
    requires InPool(s) && s.ready != []
    ensures var popped := s.(ready := s.ready[1..]);
            var queued := if s.tcbs[s.current].state != FREE then Enqueue(popped, s.current) else popped;
            InPool(queued) && Yield(s, stopAt, startAt) == Dispatch(Summarize(queued, stopAt), s.ready[0], startAt)
  {
    var popped := s.(ready := s.ready[1..]);
    if s.tcbs[s.current].state != FREE {
      var me := s.tcbs[s.current].(state := READY);
      var summed := Summarized(me, stopAt);
      assert s.tcbs[s.current := me][s.current := summed] == s.tcbs[s.current := summed];
    } else {
      assert popped.ready + [] == popped.ready;
    }
  }

  /** First free slot from `i` on, or the size of the pool. */
  function FreeSlot(tcbs: seq<Tcb>, i: nat): (k: nat)
    requires i <= |tcbs|
    ensures i <= k <= |tcbs|
    ensures forall j :: i <= j < k ==> tcbs[j].state != FREE
    ensures k < |tcbs| ==> tcbs[k].state == FREE
    decreases |tcbs| - i
  {
    if i == |tcbs| || tcbs[i].state == FREE then i else FreeSlot(tcbs, i + 1)
  }

  predicate HasFreeSlot(s: Sched) {
    FreeSlot(s.tcbs, 0) < |s.tcbs|
  }

  /** The part of `th_create` before its final yield. */
  function Spawn(s: Sched): (r: Sched)
    requires InPool(s) && HasFreeSlot(s)
    ensures InPool(r)
  {
    var k := FreeSlot(s.tcbs, 0);
    Sched(s.tcbs[k := NewTcb(s.nextId, READY)], s.current, s.ready + [k], s.nextId + 1)
  }

  /** The part of `th_return` before its yield; main only yields. */
  function Leave(s: Sched): (r: Sched)
    requires InPool(s)
    ensures InPool(r)
  {
    if s.current == MAIN_SLOT then s else SetCurrentFree(s)
  }

  // ----- Steps

  /** What the running thread may do; a quantum's end is a yield, and for the main
      thread a return is one turn of its waiting loop. Every step carries the
      clock readings it makes, in order. */
  datatype Event =
    | DoYield(stopAt: int, startAt: int)
    | DoCreate(stopAt: int, startAt: int)
    | DoReturn(stopAt: int, startAt: int)
    | DoStop(printAt: int, stopAt: int, startAt: int)

  /** The work of `th_create`, `th_return` and `th_stop` up to their yield. */
  function Prepare(s: Sched, e: Event): (r: Sched)
    requires InPool(s)
    ensures InPool(r)
  {
    match e
    case DoYield(_, _) => s
    case DoCreate(_, _) => if HasFreeSlot(s) then Spawn(s) else s
    case DoReturn(_, _) => Leave(s)
    case DoStop(printAt, _, _) => Leave(Summarize(s, printAt))
  }

  /** A creation that finds no free slot ends before it yields. */
  function Step(s: Sched, e: Event): (r: Sched)
    requires InPool(s)
    ensures InPool(r)
  {
    if e.DoCreate? && !HasFreeSlot(s) then s else Yield(Prepare(s, e), e.stopAt, e.startAt)
  }

  /** `th_stop` is reached only from the wrapper of a created thread. */
  predicate Enabled(s: Sched, e: Event) {
    e.DoStop? ==> s.current != MAIN_SLOT
  }

  // ----- The invariant

  predicate Distinct(q: seq<nat>) {
    forall i, j :: 0 <= i < j < |q| ==> q[i] != q[j]
  }

  /** Every TCB has the state its place demands: the queue holds exactly the
      READY ones, without repeats, and only the current one can be RUNNING. */
  predicate QueueMatches(s: Sched) {
    && InPool(s)
    && Distinct(s.ready)
    && s.current !in s.ready
    && (forall x :: 0 <= x < MAX_ULTS ==> (s.tcbs[x].state == READY <==> x in s.ready))
    && (forall x :: 0 <= x < MAX_ULTS && x != s.current ==> s.tcbs[x].state != RUNNING)
  }

  /** Between steps: the current thread runs, and main runs or waits its turn. */
  predicate Inv(s: Sched) {
    && QueueMatches(s)
    && s.tcbs[s.current].state == RUNNING
    && (s.current == MAIN_SLOT || MAIN_SLOT in s.ready)
  }

  /** Within `th_return`: the current thread is gone and somebody else is ready. */
  predicate Leaving(s: Sched) {
    && QueueMatches(s)
    && s.tcbs[s.current].state == FREE
    && s.current != MAIN_SLOT && MAIN_SLOT in s.ready
  }

  lemma InitEstablishesInv(tcbs: seq<Tcb>, now: int)
    requires |tcbs| == MAX_ULTS && forall i :: 0 <= i < MAX_ULTS ==> tcbs[i].state == FREE
    ensures Inv(Init(tcbs, now))
  {
  }

  /** A yield selects the head of the queue, puts a live caller at its tail, and
      restores the invariant, also when it is called by a leaving thread. */
  lemma YieldKeepsInv(s: Sched, stopAt: int, startAt: int)
    requires Inv(s) || Leaving(s)
    ensures Inv(Yield(s, stopAt, startAt))
    ensures s.ready == [] ==> Yield(s, stopAt, startAt) == s
    ensures s.ready != [] ==>
              && Yield(s, stopAt, startAt).current == s.ready[0] != s.current
              && Yield(s, stopAt, startAt).ready == s.ready[1..] + if Inv(s) then [s.current] else []
  {
    if s.ready != [] {
      var r := Yield(s, stopAt, startAt);
      var back := if Inv(s) then [s.current] else [];
      assert r.ready == s.ready[1..] + back;
      assert s.ready == [s.ready[0]] + s.ready[1..];
      forall x | 0 <= x < MAX_ULTS
        ensures r.tcbs[x].state == READY <==> x in r.ready
        ensures x != r.current ==> r.tcbs[x].state != RUNNING
      {
        if x == s.ready[0] {
          assert x !in s.ready[1..];
        } else {
          assert x in s.ready <==> x in s.ready[1..];
        }
      }
    }
  }

  // ----- The states of initialization and yield, field by field

  /** After `lib_init` slot 0 runs as thread 0 from `now` on, nobody waits, and the next
      thread will be number 1. */
  lemma InitByFields(tcbs: seq<Tcb>, now: int)
    requires |tcbs| == 5000
    ensures var s := Init(tcbs, now);
            && s.current == 0 && s.ready == [] && s.nextId == 1
            && s.tcbs == tcbs[0 := Tcb(0, RUNNING, now, 0, 0)]
  {
  }

  /** A yield: the head of the queue runs from `startAt` on with its books as they were;
      the caller is charged with the time since its burst began, and unless it is FREE
      it waits as the last one; nobody else changes. */
  lemma YieldByFields(s: Sched, stopAt: int, startAt: int)
    requires InPool(s) && s.ready != [] && s.ready[0] != s.current
    ensures var r, c, h := Yield(s, stopAt, startAt), s.current, s.ready[0];
            var me, it, last := s.tcbs[c], s.tcbs[h], stopAt - s.tcbs[c].burstStart;
            && r.current == h && r.nextId == s.nextId && |r.tcbs| == |s.tcbs|
            && r.ready == s.ready[1..] + (if me.state == FREE then [] else [c])
            && r.tcbs[c] == Tcb(me.id, if me.state == FREE then FREE else READY, me.burstStart,
                                last, me.executionTime + last)
            && r.tcbs[h] == Tcb(it.id, RUNNING, startAt, it.lastBurst, it.executionTime)
            && forall x :: 0 <= x < |s.tcbs| && x != c && x != h ==> r.tcbs[x] == s.tcbs[x]
  {
  }
}
