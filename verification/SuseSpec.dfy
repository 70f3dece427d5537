/** SUSE's long-term and short-term schedulers as steps on two queues. */
module SuseSpec {

  /** Threads waiting to be admitted, threads ready to run, and what is left of
      the multiprogramming degree. */
  datatype Queues<T> = Queues(waiting: seq<T>, ready: seq<T>, degree: int)

  // ----- The long-term scheduler

  /** How many threads one pass admits: those its index reaches while each removal
      shifts the list under it, as long as the guard holds. */
  function Admissions(waiting: nat, ready: nat, degree: int): (n: nat)
    ensures n <= waiting
  {
    var reached := (waiting + 1) / 2;
    var room := if ready > degree then 0 else (degree - ready) / 2 + 1;
    if reached <= room then reached else room
  }

  /** The loop of a pass has admitted that many when it ends. */
  lemma AdmittedAll(waiting: nat, ready: nat, degree: int, n: nat)
    requires 2 * n <= waiting + 1 && (n > 0 ==> ready + 2 * n - 2 <= degree)
    requires 2 * n >= waiting || ready + n > degree - n
    ensures n == Admissions(waiting, ready, degree)
  {
  }

  /** The first `n` elements at even positions. */
  function Evens<T>(s: seq<T>, n: nat): (r: seq<T>)
    requires n <= |s| && (n > 0 ==> 2 * n - 2 < |s|)
  {
    seq(n, i requires 0 <= i < n => s[2 * i])
  }

  /** What is left of a list without them. */
  function WithoutEvens<T>(s: seq<T>, n: nat): (r: seq<T>)
    requires n <= |s|
  {
    seq(|s| - n, i requires 0 <= i < |s| - n => if i < n then s[2 * i + 1] else s[i + n])
  }

  /** One pass of the long-term scheduler. */
  function LongTerm<T>(q: Queues<T>): Queues<T> {
    var n := Admissions(|q.waiting|, |q.ready|, q.degree);
    Queues(WithoutEvens(q.waiting, n), q.ready + Evens(q.waiting, n), q.degree - n)
  }

  /** Removing the element under the index after `n` removals makes the next one. */
  lemma NextRemoval<T>(s: seq<T>, n: nat)
    requires 2 * n < |s|
    ensures var left := WithoutEvens(s, n);
            && n < |left|
            && Evens(s, n + 1) == Evens(s, n) + [left[n]]
            && WithoutEvens(s, n + 1) == left[..n] + left[n + 1..]
  {
  }

  lemma {:induction false} EvensConserve<T>(s: seq<T>, n: nat)
    requires n <= |s| && (n > 0 ==> 2 * n - 2 < |s|)
    ensures multiset(Evens(s, n)) + multiset(WithoutEvens(s, n)) == multiset(s)
  {
    if n == 0 {
      assert WithoutEvens(s, 0) == s;
    } else {
      EvensConserve(s, n - 1);
      NextRemoval(s, n - 1);
      var left := WithoutEvens(s, n - 1);
      assert left == left[..n - 1] + [left[n - 1]] + left[n..];
    }
  }

  /** What a pass does, place by place: every second waiting thread is admitted, the
      first one included, until no such thread is left or more are ready than the
      degree that remains; the last one admitted still met the guard; the others
      wait on in their order. */
  lemma LongTermByPlace<T>(q: Queues<T>)
    ensures var r := LongTerm(q);
            var n := |r.ready| - |q.ready|;
            && 0 <= n && 2 * n <= |q.waiting| + 1
            && r.ready[..|q.ready|] == q.ready
            && (forall i :: 0 <= i < n ==> r.ready[|q.ready| + i] == q.waiting[2 * i])
            && r.degree == q.degree - n
            && (2 * n >= |q.waiting| || |r.ready| > r.degree)
            && (n > 0 ==> |r.ready| - 1 <= r.degree + 1)
            && |r.waiting| == |q.waiting| - n
            && (forall i :: 0 <= i < n && i < |r.waiting| ==> r.waiting[i] == q.waiting[2 * i + 1])
            && (forall i :: n <= i < |r.waiting| ==> r.waiting[i] == q.waiting[i + n])
  {
    var r := LongTerm(q);
    assert r.ready[..|q.ready|] == q.ready;
  }

  /** A pass does nothing exactly when nobody waits or the guard fails at once. */
  lemma LongTermStops<T>(q: Queues<T>)
    ensures LongTerm(q) == q <==> q.waiting == [] || |q.ready| > q.degree
  {
    var n := Admissions(|q.waiting|, |q.ready|, q.degree);
    if n == 0 {
      assert WithoutEvens(q.waiting, 0) == q.waiting;
      assert q.ready + Evens(q.waiting, 0) == q.ready;
    }
  }

  /** The queues read one after the other, ready threads first, are in order of
      arrival after a pass exactly when at most two threads waited or there was
      room for one only; otherwise the third thread overtakes the second. */
  lemma LongTermKeepsOrder<T>(q: Queues<T>)
    requires forall i, j :: 0 <= i < j < |q.waiting| ==> q.waiting[i] != q.waiting[j]
    ensures LongTerm(q).ready + LongTerm(q).waiting == q.ready + q.waiting
       <==> |q.waiting| <= 2 || |q.ready| + 2 > q.degree
  {
    var n := Admissions(|q.waiting|, |q.ready|, q.degree);
    var before, after := q.ready + q.waiting, LongTerm(q).ready + LongTerm(q).waiting;
    if n <= 1 {
      assert after == before;
    } else {
      assert after[|q.ready| + 1] == q.waiting[2];
      assert before[|q.ready| + 1] == q.waiting[1];
    }
  }

  /** Three threads and room for two: the third is admitted, the second is not. */
  lemma ThirdOvertakesSecond<T>(a: T, b: T, c: T)
    ensures LongTerm(Queues([a, b, c], [], 2)) == Queues([b], [a, c], 0)
  {
    assert Admissions(3, 0, 2) == 2;
    assert Evens([a, b, c], 2) == [a, c];
    assert WithoutEvens([a, b, c], 2) == [b];
  }

  // ----- The short-term scheduler

  /** `scheduler_calculate_exponential_mean`; the mean it starts from is always
      zero. */
  function Estimate(alpha: real, burst: int): real {
    var mean := 0.0;
    alpha * burst as real + (1.0 - alpha) * mean
  }

  lemma EstimateIsWeighted(alpha: real, burst: int)
    ensures Estimate(alpha, burst) == alpha * burst as real
  {
  }

  /** Position of the first least element. */
  function FirstLeast(costs: seq<real>): (k: nat)
    requires costs != []
    ensures k < |costs|
    ensures forall j :: 0 <= j < |costs| ==> costs[k] <= costs[j]
    ensures forall j :: 0 <= j < k ==> costs[k] < costs[j]
  {
    if |costs| == 1 then 0
    else
      var k := FirstLeast(costs[..|costs| - 1]);
      if costs[k] <= costs[|costs| - 1] then k else |costs| - 1
  }

  /** The dispatched thread, if any, and the queues without it. */
  function ShortTerm<T>(q: Queues<T>, costs: seq<real>): (Queues<T>, seq<T>)
    requires |costs| == |q.ready|
  {
    if q.ready == [] then (q, [])
    else
      var k := FirstLeast(costs);
      (q.(ready := q.ready[..k] + q.ready[k + 1..], degree := q.degree + 1), [q.ready[k]])
  }

  /** The thread that is dispatched: of a non-empty ready queue the first one with a
      least estimate leaves, the others keep their order, the degree is one more
      and nobody is admitted. */
  lemma DispatchesFirstLeast<T>(q: Queues<T>, costs: seq<real>) returns (k: nat)
    requires |costs| == |q.ready|
    ensures q.ready == [] ==> ShortTerm(q, costs) == (q, [])
    ensures q.ready != [] ==>
              && k < |q.ready|
              && (forall j :: 0 <= j < |q.ready| ==> costs[k] <= costs[j])
              && (forall j :: 0 <= j < k ==> costs[k] < costs[j])
              && ShortTerm(q, costs).1 == [q.ready[k]]
              && ShortTerm(q, costs).0.ready == q.ready[..k] + q.ready[k + 1..]
              && ShortTerm(q, costs).0.degree == q.degree + 1
              && ShortTerm(q, costs).0.waiting == q.waiting
  {
    k := if q.ready == [] then 0 else FirstLeast(costs);
  }

  /** Two ready threads of which the second has the shorter burst: it goes first. */
  lemma ShorterGoesFirst<T>(a: T, b: T, waiting: seq<T>, degree: int)
    ensures ShortTerm(Queues(waiting, [a, b], degree), [0.5 * 9.0, 0.5 * 1.0])
         == (Queues(waiting, [a], degree + 1), [b])
  {
    var k := DispatchesFirstLeast(Queues(waiting, [a, b], degree), [0.5 * 9.0, 0.5 * 1.0]);
    assert k == 1;
    assert [a, b][..1] + [a, b][2..] == [a];
  }

  function Estimates(alpha: real, bursts: seq<int>): (costs: seq<real>)
    ensures |costs| == |bursts|
  {
    seq(|bursts|, i requires 0 <= i < |bursts| => Estimate(alpha, bursts[i]))
  }

  /** What the estimate means for the choice: the shortest burst first if the
      weight is positive, arrival order if it is zero, the longest burst first if
      it is negative. */
  lemma ChoiceByWeight(alpha: real, bursts: seq<int>)
    requires bursts != []
    ensures var k := FirstLeast(Estimates(alpha, bursts));
            && (alpha > 0.0 ==> (forall j :: 0 <= j < |bursts| ==> bursts[k] <= bursts[j])
                                && (forall j :: 0 <= j < k ==> bursts[k] < bursts[j]))
            && (alpha == 0.0 ==> k == 0)
            && (alpha < 0.0 ==> (forall j :: 0 <= j < |bursts| ==> bursts[k] >= bursts[j])
                                && (forall j :: 0 <= j < k ==> bursts[k] > bursts[j]))
  {
    var k := FirstLeast(Estimates(alpha, bursts));
    forall j | 0 <= j < |bursts|
      ensures Estimate(alpha, bursts[k]) <= Estimate(alpha, bursts[j])
      ensures j < k ==> Estimate(alpha, bursts[k]) < Estimate(alpha, bursts[j])
      ensures alpha > 0.0 ==> bursts[k] <= bursts[j] && (j < k ==> bursts[k] < bursts[j])
      ensures alpha < 0.0 ==> bursts[k] >= bursts[j] && (j < k ==> bursts[k] > bursts[j])
    {
      EstimateOrder(alpha, bursts[k], bursts[j]);
      assert Estimates(alpha, bursts)[j] == Estimate(alpha, bursts[j]);
      assert Estimates(alpha, bursts)[k] == Estimate(alpha, bursts[k]);
    }
    EstimateOrder(alpha, bursts[k], bursts[0]);
    assert k > 0 ==> Estimate(alpha, bursts[k]) < Estimate(alpha, bursts[0]);
  }

  lemma EstimateOrder(alpha: real, x: int, y: int)
    ensures alpha > 0.0 ==> (Estimate(alpha, x) <= Estimate(alpha, y) <==> x <= y)
    ensures alpha == 0.0 ==> Estimate(alpha, x) == Estimate(alpha, y)
    ensures alpha < 0.0 ==> (Estimate(alpha, x) <= Estimate(alpha, y) <==> x >= y)
  {
    assert Estimate(alpha, y) - Estimate(alpha, x) == alpha * (y - x) as real;
    Sign(alpha, (y - x) as real);
  }

  lemma Sign(a: real, b: real)
    ensures a > 0.0 ==> (a * b >= 0.0 <==> b >= 0.0)
    ensures a == 0.0 ==> a * b == 0.0
    ensures a < 0.0 ==> (a * b >= 0.0 <==> b <= 0.0)
  {
  }

  // ----- Runs

  /** A step of either scheduler; a short-term step comes with the estimates of
      the ready threads at that moment. */
  datatype Pass = Long | Short(costs: seq<real>)

  predicate Enabled<T>(q: Queues<T>, p: Pass) {
    p.Short? ==> |p.costs| == |q.ready|
  }

  function Step<T>(q: Queues<T>, p: Pass): (Queues<T>, seq<T>)
    requires Enabled(q, p)
  {
    match p
    case Long => (LongTerm(q), [])
    case Short(costs) => ShortTerm(q, costs)
  }

  predicate EnabledRun<T>(q: Queues<T>, ps: seq<Pass>)
    decreases |ps|
  {
    ps == [] || (Enabled(q, ps[0]) && EnabledRun(Step(q, ps[0]).0, ps[1..]))
  }

  /** The queues after a run, and the threads dispatched in it, in order. */
  function Run<T>(q: Queues<T>, ps: seq<Pass>): (Queues<T>, seq<T>)
    requires EnabledRun(q, ps)
    decreases |ps|
  {
    if ps == [] then (q, [])
    else
      var (next, dispatched) := Step(q, ps[0]);
      var (last, more) := Run(next, ps[1..]);
      (last, dispatched + more)
  }

  /** Twice the ready threads stay within what the degree allows, give or take
      the last one admitted. */
  predicate Bounded<T>(q: Queues<T>) {
    2 * |q.ready| <= q.degree + |q.ready| + 2
  }

  ghost function Everyone<T>(q: Queues<T>): multiset<T> {
    multiset(q.waiting) + multiset(q.ready)
  }

  lemma LongTermConserves<T>(q: Queues<T>)
    ensures LongTerm(q).degree + |LongTerm(q).ready| == q.degree + |q.ready|
    ensures Everyone(LongTerm(q)) == Everyone(q)
    ensures Bounded(q) ==> Bounded(LongTerm(q))
  {
    EvensConserve(q.waiting, Admissions(|q.waiting|, |q.ready|, q.degree));
  }

  lemma StepConserves<T>(q: Queues<T>, p: Pass)
    requires Enabled(q, p)
    ensures var (r, dispatched) := Step(q, p);
            && r.degree + |r.ready| == q.degree + |q.ready|
            && Everyone(r) + multiset(dispatched) == Everyone(q)
            && (Bounded(q) ==> Bounded(r))
  {
    match p
    case Long =>
      LongTermConserves(q);
    case Short(costs) =>
      if q.ready != [] {
        var k := FirstLeast(costs);
        assert q.ready == q.ready[..k] + [q.ready[k]] + q.ready[k + 1..];
      }
  }

  /** Over any mix of passes no thread is lost or doubled, degree and ready threads
      sum up to a constant, and the ready queue stays within half of it plus one. */
  lemma {:induction false} RunConserves<T>(q: Queues<T>, ps: seq<Pass>)
    requires EnabledRun(q, ps) && Bounded(q)
    ensures var (r, dispatched) := Run(q, ps);
            var k := q.degree + |q.ready|;
            && r.degree + |r.ready| == k
            && |r.ready| <= k / 2 + 1
            && Everyone(r) + multiset(dispatched) == Everyone(q)
    decreases |ps|
  {
    if ps == [] {
    } else {
      StepConserves(q, ps[0]);
      RunConserves(Step(q, ps[0]).0, ps[1..]);
    }
  }
}
