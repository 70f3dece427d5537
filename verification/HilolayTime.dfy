/** The accounting of processor time: what `execution_time` means over a run
    whose clock never goes back. */
module HilolayTime {
  import opened HilolaySpec
  import opened HilolayRuns

  /** A stretch of time during which thread `id` held the processor. */
  datatype Burst = Burst(id: int, from: int, to: int)

  function Length(b: Burst): int {
    b.to - b.from
  }

  /** The burst that a step ends: up to `th_stop`'s own reading if there is one,
      else up to the reading made by the yield. */
  function StepBursts(s: Sched, e: Event): seq<Burst>
    requires InPool(s)
  {
    if !Switches(s, e) then []
    else [Burst(s.tcbs[s.current].id, s.tcbs[s.current].burstStart, if e.DoStop? then e.printAt else e.stopAt)]
  }

  /** The bursts ended by the first `n` events of a run. */
  function Log(run: seq<Sched>, es: seq<Event>, n: nat): seq<Burst>
    requires IsRun(run, es) && n <= |es|
  {
    if n == 0 then [] else Log(run, es, n - 1) + StepBursts(run[n - 1], es[n - 1])
  }

  /** Time that a thread spent running, according to a log. */
  function TimeOf(log: seq<Burst>, id: int): int {
    if log == [] then 0
    else TimeOf(log[..|log| - 1], id) + if log[|log| - 1].id == id then Length(log[|log| - 1]) else 0
  }

  /** The readings of one step follow each other, starting at `now`. */
  predicate Ordered(now: int, e: Event) {
    && (if e.DoStop? then now <= e.printAt <= e.stopAt else now <= e.stopAt)
    && e.stopAt <= e.startAt
  }

  /** Last reading made by the first `n` events. */
  function Clock(start: int, es: seq<Event>, n: nat): int
    requires n <= |es|
  {
    if n == 0 then start else es[n - 1].startAt
  }

  predicate Monotone(start: int, es: seq<Event>) {
    forall i :: 0 <= i < |es| ==> Ordered(Clock(start, es, i), es[i])
  }

  // ----- Time on the books

  function Booked(t: Tcb): int {
    if t.state == FREE then 0 else t.executionTime
  }

  /** Execution times of all live threads together. */
  function SumLive(tcbs: seq<Tcb>): int {
    if tcbs == [] then 0 else SumLive(tcbs[..|tcbs| - 1]) + Booked(tcbs[|tcbs| - 1])
  }

  lemma {:induction false} SumAfterUpdate(tcbs: seq<Tcb>, x: nat, t: Tcb)
    requires x < |tcbs|
    ensures SumLive(tcbs[x := t]) == SumLive(tcbs) - Booked(tcbs[x]) + Booked(t)
  {
    var last := |tcbs| - 1;
    if x == last {
      assert tcbs[x := t][..last] == tcbs[..last];
    } else {
      SumAfterUpdate(tcbs[..last], x, t);
      assert tcbs[x := t][..last] == tcbs[..last][x := t];
    }
  }

  lemma SumAfterYield(s: Sched, stopAt: int, startAt: int)
    requires Inv(s) || Leaving(s)
    requires s.ready != []
    ensures SumLive(Yield(s, stopAt, startAt).tcbs)
         == SumLive(s.tcbs) + if Inv(s) then stopAt - s.tcbs[s.current].burstStart else 0
  {
    var selected, me := s.ready[0], s.tcbs[s.current];
    assert selected in s.ready;
    var summed := Summarized(if me.state != FREE then me.(state := READY) else me, stopAt);
    SumAfterUpdate(s.tcbs, s.current, summed);
    var tcbs := s.tcbs[s.current := summed];
    SumAfterUpdate(tcbs, selected, tcbs[selected].(state := RUNNING, burstStart := startAt));
  }

  /** Before the yield nothing enters the books but what `th_stop` adds, and that
      leaves them again with the thread. */
  lemma SumAfterPrepare(s: Sched, e: Event)
    requires Inv(s) && Enabled(s, e)
    ensures SumLive(Prepare(s, e).tcbs)
         == SumLive(s.tcbs) - if Finishes(s, e) then s.tcbs[s.current].executionTime else 0
  {
    match e
    case DoYield(_, _) =>
    case DoCreate(_, _) =>
      if HasFreeSlot(s) {
        SumAfterUpdate(s.tcbs, FreeSlot(s.tcbs, 0), NewTcb(s.nextId, READY));
      }
    case DoReturn(_, _) =>
      SumAfterUpdate(s.tcbs, s.current, s.tcbs[s.current].(state := FREE));
    case DoStop(printAt, _, _) =>
      var me := Summarized(s.tcbs[s.current], printAt);
      SumAfterUpdate(s.tcbs, s.current, me);
      SumAfterUpdate(Summarize(s, printAt).tcbs, s.current, me.(state := FREE));
  }

  /** A step books exactly the burst it ends; a finished thread's time leaves
      the books with it. */
  lemma SumAfterStep(s: Sched, e: Event)
    requires Inv(s) && Enabled(s, e) && Switches(s, e)
    ensures SumLive(Step(s, e).tcbs) == SumLive(s.tcbs)
              + if Finishes(s, e) then -s.tcbs[s.current].executionTime
                else e.stopAt - s.tcbs[s.current].burstStart
  {
    PrepareLaw(s, e);
    SumAfterPrepare(s, e);
    SumAfterYield(Prepare(s, e), e.stopAt, e.startAt);
    if !Finishes(s, e) {
      CurrentAfterPrepare(s, e);
    }
  }

  lemma CurrentAfterPrepare(s: Sched, e: Event)
    requires Inv(s) && Enabled(s, e) && !Finishes(s, e)
    ensures Prepare(s, e).tcbs[s.current] == s.tcbs[s.current]
  {
  }

  // ----- What every timed run keeps

  /** Identifiers tell all threads apart, past ones included. */
  predicate IdsTold(s: Sched, log: seq<Burst>)
    requires InPool(s)
  {
    && (forall x :: 0 <= x < MAX_ULTS && s.tcbs[x].state != FREE ==> s.tcbs[x].id < s.nextId)
    && (forall x, y :: 0 <= x < y < MAX_ULTS && s.tcbs[x].state != FREE && s.tcbs[y].state != FREE
                       ==> s.tcbs[x].id != s.tcbs[y].id)
    && (forall i :: 0 <= i < |log| ==> log[i].id < s.nextId)
  }

  /** Every live thread's time is the sum of its own bursts. */
  predicate TimesMatch(s: Sched, log: seq<Burst>)
    requires InPool(s)
  {
    forall x :: 0 <= x < MAX_ULTS && s.tcbs[x].state != FREE ==>
      0 <= s.tcbs[x].executionTime == TimeOf(log, s.tcbs[x].id)
  }

  /** Bursts follow each other without overlapping, from `start` to `end`: no time
      is charged to two threads. */
  predicate Chained(log: seq<Burst>, start: int, end: int) {
    && (forall i :: 0 <= i < |log| ==> start <= log[i].from <= log[i].to <= end)
    && (forall i, j :: 0 <= i < j < |log| ==> log[i].to <= log[j].from)
    && start <= end
  }

  predicate TimeInv(s: Sched, log: seq<Burst>, start: int, now: int) {
    && Inv(s)
    && Chained(log, start, s.tcbs[s.current].burstStart)
    && IdsTold(s, log)
    && TimesMatch(s, log)
    && SumLive(s.tcbs) <= s.tcbs[s.current].burstStart - start
    && s.tcbs[s.current].burstStart <= now
  }

  lemma {:induction false} NoTimeYet(log: seq<Burst>, id: int)
    requires forall i :: 0 <= i < |log| ==> log[i].id != id
    ensures TimeOf(log, id) == 0
  {
    if log == [] {
    } else {
      NoTimeYet(log[..|log| - 1], id);
    }
  }

  lemma TimeOfLonger(log: seq<Burst>, b: Burst, id: int)
    ensures TimeOf(log + [b], id) == TimeOf(log, id) + if b.id == id then Length(b) else 0
  {
    assert (log + [b])[..|log|] == log;
  }

  lemma InitialTime(tcbs: seq<Tcb>, now: int)
    requires |tcbs| == MAX_ULTS && forall i :: 0 <= i < MAX_ULTS ==> tcbs[i].state == FREE
    ensures TimeInv(Init(tcbs, now), [], now, now)
  {
    NothingBooked(tcbs);
    SumAfterUpdate(tcbs, MAIN_SLOT, Init(tcbs, now).tcbs[MAIN_SLOT]);
  }

  lemma {:induction false} NothingBooked(tcbs: seq<Tcb>)
    requires forall i :: 0 <= i < |tcbs| ==> tcbs[i].state == FREE
    ensures SumLive(tcbs) == 0
  {
    if tcbs == [] {
    } else {
      NothingBooked(tcbs[..|tcbs| - 1]);
    }
  }

  lemma FieldsAfterYield(s: Sched, stopAt: int, startAt: int, x: nat)
    requires InPool(s) && s.ready != [] && s.ready[0] != s.current && x < MAX_ULTS
    ensures var r := Yield(s, stopAt, startAt);
            && r.nextId == s.nextId
            && r.tcbs[r.current].burstStart == startAt
            && r.tcbs[x].id == s.tcbs[x].id
            && r.tcbs[x].executionTime == s.tcbs[x].executionTime
               + if x == s.current then stopAt - s.tcbs[x].burstStart else 0
  {
  }

  /** How one step changes the fields that a live thread is known by. */
  lemma FieldsAfterStep(s: Sched, e: Event, x: nat)
    requires Inv(s) && Enabled(s, e) && Switches(s, e) && x < MAX_ULTS
    requires !Finishes(s, e) || x != s.current
    ensures var r := Step(s, e);
            && r.nextId == s.nextId + |Spawned(s, e)|
            && r.tcbs[r.current].burstStart == e.startAt
            && (Spawned(s, e) == [x] ==> r.tcbs[x].id == s.nextId && r.tcbs[x].executionTime == 0)
            && (Spawned(s, e) != [x] ==>
                  && r.tcbs[x].id == s.tcbs[x].id
                  && r.tcbs[x].executionTime == s.tcbs[x].executionTime
                     + if x == s.current then e.stopAt - s.tcbs[x].burstStart else 0)
  {
    StepLaw(s, e);
    PrepareLaw(s, e);
    FieldsAfterYield(Prepare(s, e), e.stopAt, e.startAt, x);
  }

  /** A thread that is live after a step was live before, or is the new one. */
  lemma LiveBefore(s: Sched, e: Event, x: nat)
    requires Inv(s) && Enabled(s, e) && x < MAX_ULTS
    requires Step(s, e).tcbs[x].state != FREE
    ensures Spawned(s, e) == [x] || s.tcbs[x].state != FREE
    ensures !Finishes(s, e) || x != s.current
  {
    StepLaw(s, e);
    if s.tcbs[x].state == FREE {
      LawKeepsFree(s, e, Step(s, e), x);
    }
    if Finishes(s, e) {
      ReturnNeverComesBack(s, e);
    }
  }

  lemma StepKeepsTimeOf(s: Sched, e: Event, log: seq<Burst>, x: nat)
    requires Inv(s) && IdsTold(s, log) && TimesMatch(s, log)
    requires Enabled(s, e) && Switches(s, e) && x < MAX_ULTS && Step(s, e).tcbs[x].state != FREE
    requires s.tcbs[s.current].burstStart <= e.stopAt
    ensures Step(s, e).tcbs[x].id == if Spawned(s, e) == [x] then s.nextId else s.tcbs[x].id
    ensures 0 <= Step(s, e).tcbs[x].executionTime
                == TimeOf(log + StepBursts(s, e), Step(s, e).tcbs[x].id)
  {
    LiveBefore(s, e, x);
    FieldsAfterStep(s, e, x);
    var b := StepBursts(s, e)[0];
    assert StepBursts(s, e) == [b];
    TimeOfLonger(log, b, Step(s, e).tcbs[x].id);
    if Spawned(s, e) == [x] {
      NoTimeYet(log, s.nextId);
    }
  }

  /** Identifiers after a step, slot by slot. */
  ghost predicate IdsFollow(s: Sched, e: Event, r: Sched)
    requires InPool(s) && InPool(r)
  {
    && r.nextId == s.nextId + |Spawned(s, e)|
    && forall x :: 0 <= x < MAX_ULTS && r.tcbs[x].state != FREE ==>
         if Spawned(s, e) == [x] then r.tcbs[x].id == s.nextId
         else s.tcbs[x].state != FREE && r.tcbs[x].id == s.tcbs[x].id
  }

  lemma FollowingIdsTold(s: Sched, e: Event, r: Sched, log: seq<Burst>)
    requires Inv(s) && InPool(r) && IdsTold(s, log) && IdsFollow(s, e, r)
    ensures IdsTold(r, log + StepBursts(s, e))
  {
  }

  lemma StepKeepsIds(s: Sched, e: Event, log: seq<Burst>)
    requires Inv(s) && IdsTold(s, log) && Enabled(s, e) && Switches(s, e)
    requires forall x :: 0 <= x < MAX_ULTS && Step(s, e).tcbs[x].state != FREE ==>
               Step(s, e).tcbs[x].id == if Spawned(s, e) == [x] then s.nextId else s.tcbs[x].id
    ensures IdsTold(Step(s, e), log + StepBursts(s, e))
  {
    var r := Step(s, e);
    StepLaw(s, e);
    FieldsAfterStep(s, e, r.current);
    forall x | 0 <= x < MAX_ULTS && r.tcbs[x].state != FREE
      ensures Spawned(s, e) == [x] || s.tcbs[x].state != FREE
    {
      LiveBefore(s, e, x);
    }
    FollowingIdsTold(s, e, r, log);
  }

  lemma ChainGrows(log: seq<Burst>, b: Burst, start: int, end: int)
    requires Chained(log, start, b.from) && b.from <= b.to <= end
    ensures Chained(log + [b], start, end)
  {
  }

  lemma StepKeepsChain(s: Sched, e: Event, log: seq<Burst>, start: int, now: int)
    requires TimeInv(s, log, start, now) && Enabled(s, e) && Ordered(now, e) && Switches(s, e)
    ensures InPool(Step(s, e))
    ensures Chained(log + StepBursts(s, e), start, Step(s, e).tcbs[Step(s, e).current].burstStart)
  {
    StepLaw(s, e);
    FieldsAfterStep(s, e, Step(s, e).current);
    var b := StepBursts(s, e)[0];
    assert StepBursts(s, e) == [b];
    ChainGrows(log, b, start, e.startAt);
  }

  lemma StepKeepsTime(s: Sched, e: Event, log: seq<Burst>, start: int, now: int)
    requires TimeInv(s, log, start, now) && Enabled(s, e) && Ordered(now, e)
    ensures TimeInv(Step(s, e), log + StepBursts(s, e), start, e.startAt)
  {
    StepLaw(s, e);
    if !Switches(s, e) {
      assert log + [] == log;
    } else {
      var r := Step(s, e);
      forall x | 0 <= x < MAX_ULTS && r.tcbs[x].state != FREE
        ensures r.tcbs[x].id == if Spawned(s, e) == [x] then s.nextId else s.tcbs[x].id
        ensures 0 <= r.tcbs[x].executionTime == TimeOf(log + StepBursts(s, e), r.tcbs[x].id)
      {
        StepKeepsTimeOf(s, e, log, x);
      }
      StepKeepsIds(s, e, log);
      StepKeepsChain(s, e, log, start, now);
      SumAfterStep(s, e);
      FieldsAfterStep(s, e, r.current);
    }
  }

  /** Over any run from `lib_init` with a monotone clock: each live thread's
      execution time is the sum of its bursts, each counted once; bursts do not
      overlap; and all times together with the current burst fit in the time since
      the start. */
  lemma {:induction false} TimeAccounted(run: seq<Sched>, es: seq<Event>, tcbs: seq<Tcb>, start: int, n: nat)
    requires |tcbs| == MAX_ULTS && forall i :: 0 <= i < MAX_ULTS ==> tcbs[i].state == FREE
    requires IsRun(run, es) && run[0] == Init(tcbs, start) && Monotone(start, es) && n <= |es|
    ensures TimeInv(run[n], Log(run, es, n), start, Clock(start, es, n))
    ensures SumLive(run[n].tcbs) + (Clock(start, es, n) - run[n].tcbs[run[n].current].burstStart)
         <= Clock(start, es, n) - start
  {
    if n == 0 {
      InitialTime(tcbs, start);
    } else {
      TimeAccounted(run, es, tcbs, start, n - 1);
      StepKeepsTime(run[n - 1], es[n - 1], Log(run, es, n - 1), start, Clock(start, es, n - 1));
    }
  }

  /** The total that `th_stop` prints. */
  function Printed(s: Sched, printAt: int): int
    requires InPool(s)
  {
    Summarize(s, printAt).tcbs[s.current].executionTime
  }

  /** `th_stop` prints the sum of the thread's bursts with the last one counted once,
      and the length of that one; the discarded TCB is left with that burst counted
      twice, up to the two readings. */
  lemma StopPrintsEachBurstOnce(s: Sched, log: seq<Burst>, start: int, now: int,
                                printAt: int, stopAt: int, startAt: int)
    requires TimeInv(s, log, start, now) && s.current != MAIN_SLOT
    ensures Switches(s, DoStop(printAt, stopAt, startAt))
    ensures var e := DoStop(printAt, stopAt, startAt);
            var me := s.tcbs[s.current];
            && Printed(s, printAt) == me.executionTime + (printAt - me.burstStart)
            && Printed(s, printAt) == TimeOf(log + StepBursts(s, e), me.id)
            && Summarize(s, printAt).tcbs[s.current].lastBurst == Length(StepBursts(s, e)[0])
            && Step(s, e).tcbs[s.current].executionTime == Printed(s, printAt) + (stopAt - me.burstStart)
  {
    var e := DoStop(printAt, stopAt, startAt);
    assert s.ready != [];
    TimeOfLonger(log, StepBursts(s, e)[0], s.tcbs[s.current].id);
    assert s.ready[0] in s.ready;
  }
}
