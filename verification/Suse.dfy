/** The SUSE scheduler's lists of threads. */
module Suse {
  import opened SuseSpec

  datatype ThreadState = NEW | READY | EXEC | BLOCKED | EXIT

  /** `t_thread` */
  class Thread {
    const pid: int
    const tid: int
    var state: ThreadState
    var cpuTime: int

    /** `program_create_thread`; the C code leaves the time unset. */
    constructor (pid: int, tid: int, cpuTime: int)
      ensures this.pid == pid && this.tid == tid && state == READY && this.cpuTime == cpuTime
    {
      this.pid, this.tid, this.state, this.cpuTime := pid, tid, READY, cpuTime;
    }
  }

  /** `_scheduler_get_sjf` */
  function Shorter(alpha: real, a: Thread, b: Thread): Thread
    reads a, b
  {
    if Estimate(alpha, a.cpuTime) <= Estimate(alpha, b.cpuTime) then a else b
  }

  /** `list_fold` with that choice. */
  function FoldShorter(alpha: real, seed: Thread, list: seq<Thread>): Thread
    reads seed, list
  {
    if list == [] then seed else FoldShorter(alpha, Shorter(alpha, seed, list[0]), list[1..])
  }

  function Bursts(list: seq<Thread>): (bursts: seq<int>)
    reads list
    ensures |bursts| == |list|
  {
    seq(|list|, i requires 0 <= i < |list| reads list => list[i].cpuTime)
  }

  /** The fold gives back its seed exactly when nobody in the list is shorter. */
  lemma {:induction false} FoldKeepsLeast(alpha: real, seed: Thread, list: seq<Thread>)
    ensures var r := FoldShorter(alpha, seed, list);
            && Estimate(alpha, r.cpuTime) <= Estimate(alpha, seed.cpuTime)
            && (forall j :: 0 <= j < |list| ==> Estimate(alpha, r.cpuTime) <= Estimate(alpha, list[j].cpuTime))
    ensures FoldShorter(alpha, seed, list) == seed
       <==> forall j :: 0 <= j < |list| ==> Estimate(alpha, seed.cpuTime) <= Estimate(alpha, list[j].cpuTime)
    decreases |list|
  {
    if list == [] {
    } else {
      FoldKeepsLeast(alpha, Shorter(alpha, seed, list[0]), list[1..]);
      assert forall j :: 1 <= j < |list| ==> list[j] == list[1..][j - 1];
    }
  }

  class Scheduler {
    var queueNew: seq<Thread>
    var queueReady: seq<Thread>
    var threadExec: Thread?
    var maxMultiprog: int
    const alpha: real

    constructor (alpha: real, maxMultiprog: int)
      ensures this.alpha == alpha && Abs() == Queues([], [], maxMultiprog) && threadExec == null
    {
      this.alpha := alpha;
      queueNew, queueReady, threadExec := [], [], null;
      this.maxMultiprog := maxMultiprog;
    }

    function Abs(): Queues<Thread>
      reads this
    {
      Queues(queueNew, queueReady, maxMultiprog)
    }

    function Costs(): (costs: seq<real>)
      reads this, queueReady
      ensures |costs| == |queueReady|
    {
      Estimates(alpha, Bursts(queueReady))
    }

    /** `scheduler_run_long_term_scheduler`: the index moves on even when the
        element under it has been removed. */
    method RunLongTerm()
      modifies this`queueNew, this`queueReady, this`maxMultiprog
      ensures Abs() == LongTerm(old(Abs()))
      ensures var n := |queueReady| - |old(queueReady)|;
              && 0 <= n && 2 * n <= |old(queueNew)| + 1
              && queueReady[..|old(queueReady)|] == old(queueReady)
              && (forall i :: 0 <= i < n ==> queueReady[|old(queueReady)| + i] == old(queueNew)[2 * i])
              && maxMultiprog == old(maxMultiprog) - n
              && (2 * n >= |old(queueNew)| || |queueReady| > maxMultiprog)
              && (n > 0 ==> |queueReady| - 1 <= maxMultiprog + 1)
              && |queueNew| == |old(queueNew)| - n
              && (forall i :: 0 <= i < n && i < |queueNew| ==> queueNew[i] == old(queueNew)[2 * i + 1])
              && (forall i :: n <= i < |queueNew| ==> queueNew[i] == old(queueNew)[i + n])
    {
      ghost var q := Abs();
      var i := 0;
      ghost var n := 0;
      while i < |queueNew|
        invariant 0 <= n <= i && 2 * n <= |old(queueNew)| + 1
        invariant queueNew == WithoutEvens(old(queueNew), n)
        invariant queueReady == old(queueReady) + Evens(old(queueNew), n)
        invariant maxMultiprog == old(maxMultiprog) - n
        invariant n > 0 ==> |old(queueReady)| + 2 * n - 2 <= old(maxMultiprog)
        invariant n < i ==> |queueReady| > maxMultiprog
        decreases |old(queueNew)| - i + 1
      {
        var thread := queueNew[i];
        if |queueReady| <= maxMultiprog {
          NextRemoval(old(queueNew), n);
          queueNew := queueNew[..i] + queueNew[i + 1..];
          queueReady := queueReady + [thread];
          maxMultiprog := maxMultiprog - 1;
          n := n + 1;
        }
        i := i + 1;
      }
      AdmittedAll(|q.waiting|, |q.ready|, q.degree, n);
      assert Abs() == LongTerm(q);
      LongTermByPlace(q);
    }

    /** The first least estimate, in terms of the threads' times. */
    lemma LeastByTime(k: nat)
      requires queueReady != [] && k == FirstLeast(Costs())
      ensures k < |queueReady|
      ensures alpha > 0.0 ==> forall j :: 0 <= j < |queueReady| ==>
                queueReady[k].cpuTime <= queueReady[j].cpuTime
                && (j < k ==> queueReady[k].cpuTime < queueReady[j].cpuTime)
      ensures alpha == 0.0 ==> k == 0
      ensures alpha < 0.0 ==> forall j :: 0 <= j < |queueReady| ==>
                queueReady[k].cpuTime >= queueReady[j].cpuTime
                && (j < k ==> queueReady[k].cpuTime > queueReady[j].cpuTime)
    {
      ChoiceByWeight(alpha, Bursts(queueReady));
      assert forall j :: 0 <= j < |queueReady| ==> Bursts(queueReady)[j] == queueReady[j].cpuTime;
    }

    /** The loop of the short-term scheduler: where its test succeeds. */
    method FindShortest() returns (i: nat)
      ensures queueReady == [] ==> i == 0
      ensures queueReady != [] ==> i == FirstLeast(Costs())
    {
      i := 0;
      while i < |queueReady|
        invariant 0 <= i <= |queueReady|
        invariant queueReady != [] ==> i <= FirstLeast(Costs())
      {
        var thread := queueReady[i];
        var shortest := FoldShorter(alpha, thread, queueReady);
        FoldIsFirstLeast(i);
        if thread == shortest {
          return;
        }
        i := i + 1;
      }
    }

    /** What the loop does once it has found the thread. */
    method TakeOut(i: nat, thread: Thread)
      requires i < |queueReady| && thread == queueReady[i]
      modifies this`queueReady, this`maxMultiprog, this`threadExec, thread`state
      ensures queueReady == old(queueReady)[..i] + old(queueReady)[i + 1..]
      ensures maxMultiprog == old(maxMultiprog) + 1
      ensures threadExec == thread && thread.state == EXEC
    {
      queueReady := queueReady[..i] + queueReady[i + 1..];
      Execute(thread);
      maxMultiprog := maxMultiprog + 1;
    }

    /** `scheduler_run_short_term_scheduler`; `k` is the place that the
        dispatched thread had. */
    method RunShortTerm() returns (k: nat)
      modifies this`queueReady, this`maxMultiprog, this`threadExec, queueReady
      ensures Abs() == ShortTerm(old(Abs()), old(Costs())).0
      ensures old(queueReady) == [] ==> unchanged(this)
      ensures old(queueReady) != [] ==>
                && k < |old(queueReady)| && threadExec == old(queueReady)[k]
                && queueReady == old(queueReady)[..k] + old(queueReady)[k + 1..]
                && maxMultiprog == old(maxMultiprog) + 1 && queueNew == old(queueNew)
                && threadExec.state == EXEC
      ensures alpha > 0.0 ==> forall j :: 0 <= j < |old(queueReady)| ==>
                old(queueReady[k].cpuTime) <= old(queueReady[j].cpuTime)
                && (j < k ==> old(queueReady[k].cpuTime) < old(queueReady[j].cpuTime))
      ensures alpha == 0.0 ==> k == 0
      ensures alpha < 0.0 ==> forall j :: 0 <= j < |old(queueReady)| ==>
                old(queueReady[k].cpuTime) >= old(queueReady[j].cpuTime)
                && (j < k ==> old(queueReady[k].cpuTime) > old(queueReady[j].cpuTime))
      ensures forall t :: t in old(queueReady) && t != threadExec ==> t.state == old(t.state)
      ensures forall t :: t in old(queueReady) ==> t.cpuTime == old(t.cpuTime)
    {
      k := FindShortest();
      if k < |queueReady| {
        LeastByTime(k);
        TakeOut(k, queueReady[k]);
      }
    }

    /** Up to the first least estimate, the fold from a position gives back the
        thread there exactly at that one. */
    lemma FoldIsFirstLeast(i: nat)
      requires i < |queueReady| && i <= FirstLeast(Costs())
      ensures FoldShorter(alpha, queueReady[i], queueReady) == queueReady[i] <==> i == FirstLeast(Costs())
    {
      FoldKeepsLeast(alpha, queueReady[i], queueReady);
      assert forall j :: 0 <= j < |queueReady| ==> Costs()[j] == Estimate(alpha, queueReady[j].cpuTime);
    }

    /** `scheduler_execute_thread` */
    method Execute(thread: Thread)
      modifies this`threadExec, thread`state
      ensures threadExec == thread && thread.state == EXEC
    {
      thread.state := EXEC;
      threadExec := thread;
    }
  }
}
