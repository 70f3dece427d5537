/** The hilolay library itself: thread control blocks linked into a ready queue
    through their own `next` fields. */
module Hilolay {
  import opened HilolaySpec
  import opened HilolayRuns
  import opened HilolayTime

  /** `struct TCB`; `slot` is its index in the pool. */
  class ThreadBlock {
    ghost const slot: nat
    var id: int
    var state: RunState
    var next: ThreadBlock?
    var burstStart: int
    var lastBurst: int
    var executionTime: int

    constructor (ghost slot: nat)
      ensures this.slot == slot && state == FREE && next == null
    {
      this.slot := slot;
      id, state, next := 0, FREE, null;
      burstStart, lastBurst, executionTime := 0, 0, 0;
    }

    ghost function View(): Tcb
      reads this
    {
      Tcb(id, state, burstStart, lastBurst, executionTime)
    }

    /** `lib_write_TCB` */
    method Write(id: int, state: RunState)
      modifies this
      ensures View() == NewTcb(id, state) && next == null
    {
      this.state := state;
      this.id := id;
      next := null;
      burstStart, lastBurst, executionTime := 0, 0, 0;
    }
  }

  class Library {
    const ults: seq<ThreadBlock>
    var current: ThreadBlock
    var head: ThreadBlock?
    var tail: ThreadBlock?
    var nextId: int
    ghost var queue: seq<ThreadBlock>

    ghost predicate Owns(t: ThreadBlock) {
      t.slot < |ults| && ults[t.slot] == t
    }

    ghost predicate Pool() {
      |ults| == MAX_ULTS && forall i :: 0 <= i < MAX_ULTS ==> ults[i].slot == i
    }

    /** The pointers stand for `queue`. Of an empty queue only `head` says so:
        `tail` stays on the block that was dequeued last. */
    ghost predicate Linked()
      reads this, ults
    {
      && Pool()
      && Owns(current)
      && (forall i :: 0 <= i < |queue| ==> Owns(queue[i]))
      && (forall i, j :: 0 <= i < j < |queue| ==> queue[i] != queue[j])
      && (tail != null ==> Owns(tail))
      && (queue == [] ==> head == null)
      && (queue != [] ==> head == queue[0] && tail == queue[|queue| - 1] && tail.next == null)
      && (forall i :: 0 <= i < |queue| - 1 ==> queue[i].next == queue[i + 1])
    }

    ghost function Tcbs(): (tcbs: seq<Tcb>)
      reads this, ults
    {
      seq(|ults|, i requires 0 <= i < |ults| reads this, ults => ults[i].View())
    }

    ghost function Abs(): (s: Sched)
      requires Linked()
      reads this, ults
      ensures InPool(s)
    {
      Sched(Tcbs(), current.slot, seq(|queue|, i requires 0 <= i < |queue| reads this => queue[i].slot), nextId)
    }

    ghost predicate Valid()
      reads this, ults
    {
      Linked() && Inv(Abs())
    }

    /** `lib_init`, on the zeroed pool the program starts with. */
    constructor (now: int)
      ensures Valid() && fresh(ults)
      ensures nextId == 1 && current == ults[0] && current.id == 0 && current.burstStart == now && queue == []
      ensures exists tcbs: seq<Tcb> :: |tcbs| == MAX_ULTS && Abs() == Init(tcbs, now)
                && forall i :: 0 <= i < MAX_ULTS ==> tcbs[i].state == FREE
    {
      var pool: seq<ThreadBlock> := [];
      while |pool| < MAX_ULTS
        invariant |pool| <= MAX_ULTS && fresh(pool)
        invariant forall i :: 0 <= i < |pool| ==> pool[i].slot == i && pool[i].state == FREE
      {
        var block := new ThreadBlock(|pool|);
        pool := pool + [block];
      }
      ults := pool;
      current := pool[MAIN_SLOT];
      head, tail, nextId := null, null, 1;
      queue := [];
      new;
      ghost var before := Tcbs();
      current.Write(MAIN_THREAD_ID, RUNNING);
      current.burstStart := now;
      assert Tcbs() == before[MAIN_SLOT := current.View()];
      assert Abs() == Init(before, now);
      InitEstablishesInv(before, now);
    }

    /** A change that stays within one block shows in one place of the pool. */
    twostate lemma OneBlockChanged(new t: ThreadBlock)
      requires Pool() && Owns(t)
      requires forall i :: 0 <= i < |ults| && ults[i] != t ==> ults[i].View() == old(ults[i].View())
      ensures Tcbs() == old(Tcbs())[t.slot := t.View()]
    {
    }

    lemma QueuedIsReady(t: ThreadBlock)
      requires Linked() && Owns(t)
      ensures t in queue <==> t.slot in Abs().ready
    {
      if t in queue {
        var i :| 0 <= i < |queue| && queue[i] == t;
        assert Abs().ready[i] == t.slot;
      }
    }

    /** `lib_enqueue` */
    method Enqueue(ult: ThreadBlock)
      requires Linked() && Owns(ult) && ult !in queue
      modifies this`head, this`tail, this`queue, ults
      ensures Linked() && queue == old(queue) + [ult]
      ensures Abs() == HilolaySpec.Enqueue(old(Abs()), ult.slot)
    {
      ult.state := READY;
      if head == null {
        head := ult;
      }
      if tail != null {
        tail.next := ult;
      }
      tail := ult;
      tail.next := null;
      queue := queue + [ult];
      OneBlockChanged(ult);
    }

    /** `lib_get_next_ult` */
    method GetNext() returns (selected: ThreadBlock?)
      requires Linked()
      modifies this`head, this`queue
      ensures Linked()
      ensures selected == null <==> old(queue) == []
      ensures selected == null ==> Abs() == old(Abs())
      ensures selected != null ==>
                && selected == old(queue)[0] && queue == old(queue)[1..] && selected !in queue
                && Abs() == old(Abs()).(ready := old(Abs()).ready[1..])
    {
      selected := head;
      if head != null {
        head := head.next;
        queue := queue[1..];
      }
    }

    /** `lib_summarize_burst` */
    method SummarizeBurst(now: int)
      requires Linked()
      modifies current`executionTime, current`lastBurst
      ensures Linked() && Abs() == Summarize(old(Abs()), now)
    {
      var lastBurst := now - current.burstStart;
      current.executionTime := current.executionTime + lastBurst;
      current.lastBurst := lastBurst;
      OneBlockChanged(current);
    }

    /** The part of `th_yield` that gives the processor to `selected`. */
    method Dispatch(selected: ThreadBlock, startAt: int)
      requires Linked() && Owns(selected)
      modifies this`current, selected`state, selected`burstStart
      ensures Linked() && current == selected
      ensures Abs() == HilolaySpec.Dispatch(old(Abs()), selected.slot, startAt)
    {
      selected.state := RUNNING;
      selected.burstStart := startAt;
      OneBlockChanged(selected);
      current := selected;
    }

    /** `th_yield`, also what the end of a quantum runs. */
    method Yield(stopAt: int, startAt: int) returns (switched: bool)
      requires Linked() && (Inv(Abs()) || Leaving(Abs()))
      modifies this`head, this`tail, this`queue, this`current, ults
      ensures Valid() && Abs() == HilolaySpec.Yield(old(Abs()), stopAt, startAt)
      ensures switched == (old(queue) != [])
    {
      YieldKeepsInv(Abs(), stopAt, startAt);
      QueuedIsReady(current);
      if queue != [] {
        YieldInSteps(Abs(), stopAt, startAt);
      }
      var selected := GetNext();
      if selected == null {
        return false;
      }
      if current.state != FREE {
        Enqueue(current);
      }
      SummarizeBurst(stopAt);
      Dispatch(selected, startAt);
      return true;
    }

    /** The search of `th_create`. */
    method FindFree() returns (i: nat)
      requires Linked()
      ensures i == FreeSlot(Abs().tcbs, 0)
    {
      i := 0;
      while true
        invariant 0 <= i <= MAX_ULTS
        invariant forall j :: 0 <= j < i ==> ults[j].state != FREE
        decreases MAX_ULTS - i
      {
        assert forall j :: 0 <= j < i ==> Abs().tcbs[j].state == ults[j].state;
        if i == MAX_ULTS {
          return;
        } else if ults[i].state == FREE {
          assert Abs().tcbs[i].state == FREE;
          return;
        }
        i := i + 1;
      }
    }

    /** Fills a free block and queues it. */
    method SpawnIn(newUlt: ThreadBlock)
      requires Linked() && Owns(newUlt) && newUlt !in queue
      requires newUlt.slot == FreeSlot(Abs().tcbs, 0)
      modifies this`head, this`tail, this`queue, this`nextId, ults
      ensures Linked() && Abs() == Spawn(old(Abs()))
    {
      newUlt.Write(nextId, READY);
      nextId := nextId + 1;
      OneBlockChanged(newUlt);
      Enqueue(newUlt);
    }

    /** `th_create`, up to the moment the creator loses the processor. */
    method Create(stopAt: int, startAt: int) returns (code: int)
      requires Valid()
      modifies this`head, this`tail, this`queue, this`current, this`nextId, ults
      ensures Valid() && Abs() == Step(old(Abs()), DoCreate(stopAt, startAt))
      ensures code == if old(HasFreeSlot(Abs())) then 0 else -1
    {
      var i := FindFree();
      if i == MAX_ULTS {
        return ERROR_TOO_MANY_ULTS;
      }
      SpawnKeepsInv(Abs());
      QueuedIsReady(ults[i]);
      SpawnIn(ults[i]);
      var switched := Yield(stopAt, startAt);
      return 0;
    }

    method MarkFree()
      requires Linked()
      modifies current`state
      ensures Linked() && Abs() == SetCurrentFree(old(Abs()))
    {
      current.state := FREE;
      OneBlockChanged(current);
    }

    /** `th_return`. A created thread never gets past its yield: the assertion
        stands for the one in the source. Main makes one turn of its loop, and
        exits when there is nobody to yield to. */
    method Return(stopAt: int, startAt: int) returns (exited: bool)
      requires Valid()
      modifies this`head, this`tail, this`queue, this`current, ults
      ensures Valid() && Abs() == Step(old(Abs()), DoReturn(stopAt, startAt))
      ensures exited <==> old(Abs()).current == MAIN_SLOT && Live(old(Abs())) == {MAIN_SLOT}
      ensures old(Abs()).current != MAIN_SLOT ==> current != old(current)
    {
      StepLaw(Abs(), DoReturn(stopAt, startAt));
      LeaveKeepsQueue(Abs());
      if current != ults[MAIN_SLOT] {
        MarkFree();
        var switched := Yield(stopAt, startAt);
        assert switched;
        return false;
      }
      MainWaitsForAll(Abs(), stopAt, startAt);
      var switched := Yield(stopAt, startAt);
      return !switched;
    }

    /** `th_stop`, with the total it prints. */
    method Stop(printAt: int, stopAt: int, startAt: int) returns (printed: int)
      requires Valid() && current != ults[MAIN_SLOT]
      modifies this`head, this`tail, this`queue, this`current, ults
      ensures Valid() && Abs() == Step(old(Abs()), DoStop(printAt, stopAt, startAt))
      ensures printed == Printed(old(Abs()), printAt)
      ensures printed == old(current.executionTime) + (printAt - old(current.burstStart))
      ensures current != old(current)
    {
      SummarizeBurst(printAt);
      printed := current.executionTime;
      var exited := Return(stopAt, startAt);
    }
  }
}
