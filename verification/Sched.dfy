/** The scheduler of kernel/process/sched.c: budgets are spent one yield at a time and
    refilled from the priorities when nobody has any left. */
module Sched {
  import opened Common

  /** What the scheduler reads of a process. */
  datatype Task = Task(runnable: bool, pid: int, priority: int, budget: int) {
    predicate Schedulable() { runnable && pid > 0 }
    predicate Eligible() { Schedulable() && budget > 0 }
    /** The priority refill_budgets works with. */
    function Share(): nat { if priority < 1 then 1 else priority }
    function Refilled(): Task {
      if Schedulable() then this.(priority := Share(), budget := Share()) else this
    }
  }

  datatype State = State(tasks: seq<Task>, current: nat, idle: nat) {
    predicate Ok() { |tasks| == PROC_MAX && current < PROC_MAX && idle < PROC_MAX }
  }

  /** The i-th candidate after start. */
  function Candidate(start: nat, i: nat): (k: nat) ensures k < PROC_MAX { (start + i) % 8 }

  lemma EveryoneIsCandidate(start: nat, k: nat) returns (i: nat)
    requires start < PROC_MAX && k < PROC_MAX
    ensures 1 <= i <= PROC_MAX && Candidate(start, i) == k
  {
    i := if k > start then k - start else k + 8 - start;
  }

  /** k is the best of the first n candidates after start: eligible, with the largest
      budget, and the first of those; PROC_MAX when none is eligible. */
  ghost predicate IsBest(tasks: seq<Task>, start: nat, n: nat, k: nat)
    requires |tasks| == PROC_MAX
  {
    if k == PROC_MAX then forall i | 1 <= i <= n :: !tasks[Candidate(start, i)].Eligible()
    else exists j :: 1 <= j <= n && BestAt(tasks, start, n, j) && Candidate(start, j) == k
  }

  /** The j-th candidate beats the earlier ones and is not beaten by the later ones. */
  ghost predicate BestAt(tasks: seq<Task>, start: nat, n: nat, j: nat)
    requires |tasks| == PROC_MAX
  {
    && tasks[Candidate(start, j)].Eligible()
    && (forall i | 1 <= i <= n && tasks[Candidate(start, i)].Eligible() ::
          tasks[Candidate(start, i)].budget <= tasks[Candidate(start, j)].budget)
    && (forall i | 1 <= i < j && tasks[Candidate(start, i)].Eligible() ::
          tasks[Candidate(start, i)].budget < tasks[Candidate(start, j)].budget)
  }

  /** pick_next_runnable_index; PROC_MAX stands for -1. */
  method PickNext(tasks: seq<Task>, start: nat) returns (bestIdx: nat)
    requires |tasks| == PROC_MAX && start < PROC_MAX
    ensures bestIdx <= PROC_MAX && IsBest(tasks, start, PROC_MAX, bestIdx)
  {
    bestIdx := PROC_MAX;
    var bestBudget := -1;
    var i := 1;
    ghost var best := 0;
    while i <= PROC_MAX
      invariant 1 <= i <= PROC_MAX + 1 && bestIdx <= PROC_MAX
      invariant bestIdx == PROC_MAX ==> bestBudget == -1 && IsBest(tasks, start, i - 1, bestIdx)
      invariant bestIdx < PROC_MAX ==> 1 <= best < i && Candidate(start, best) == bestIdx
                                       && BestAt(tasks, start, i - 1, best)
                                       && bestBudget == tasks[bestIdx].budget
    {
      var idx := Candidate(start, i);
      if tasks[idx].Eligible() {
        if tasks[idx].budget > bestBudget {
          bestBudget := tasks[idx].budget;
          bestIdx := idx;
          best := i;
        }
      }
      i := i + 1;
    }
  }

  /** At most one task is the best. */
  lemma BestIsUnique(tasks: seq<Task>, start: nat, k: nat, l: nat)
    requires |tasks| == PROC_MAX && start < PROC_MAX && k <= PROC_MAX && l <= PROC_MAX
    requires IsBest(tasks, start, PROC_MAX, k) && IsBest(tasks, start, PROC_MAX, l)
    ensures k == l
  {
    if k < PROC_MAX && l < PROC_MAX {
      var i :| 1 <= i <= PROC_MAX && BestAt(tasks, start, PROC_MAX, i) && Candidate(start, i) == k;
      var j :| 1 <= j <= PROC_MAX && BestAt(tasks, start, PROC_MAX, j) && Candidate(start, j) == l;
      assert i == j;
    }
  }

  /** refill_budgets */
  method RefillBudgets(tasks: seq<Task>) returns (t: seq<Task>)
    requires |tasks| == PROC_MAX
    ensures t == AllRefilled(tasks)
  {
    t := tasks;
    var i := 0;
    while i < PROC_MAX
      invariant 0 <= i <= PROC_MAX && |t| == PROC_MAX
      invariant forall j | 0 <= j < PROC_MAX :: t[j] == if j < i then tasks[j].Refilled() else tasks[j]
    {
      if t[i].Schedulable() {
        if t[i].priority < 1 {
          t := t[i := t[i].(priority := 1)];
        }
        t := t[i := t[i].(budget := t[i].priority)];
      }
      i := i + 1;
    }
  }

  function AllRefilled(tasks: seq<Task>): (t: seq<Task>)
    ensures |t| == |tasks| && forall i | 0 <= i < |t| :: t[i] == tasks[i].Refilled()
  {
    seq(|tasks|, i requires 0 <= i < |tasks| => tasks[i].Refilled())
  }

  function Charged(s: State): seq<Task>
    requires s.Ok()
  {
    if s.tasks[s.current].Eligible()
    then s.tasks[s.current := s.tasks[s.current].(budget := s.tasks[s.current].budget - 1)]
    else s.tasks
  }

  ghost predicate NobodyEligible(tasks: seq<Task>) { forall i | 0 <= i < |tasks| :: !tasks[i].Eligible() }

  /** Nobody has budget left after the current process is charged: yield refills. */
  ghost predicate Refills(s: State)
    requires s.Ok()
  {
    NobodyEligible(Charged(s))
  }

  /** What one yield does: it charges the current process, refills when nobody has budget
      left, and goes on with the best candidate, or with idle when there is none. */
  ghost predicate Yields(s: State, s': State) {
    && s.Ok() && s'.Ok() && s'.idle == s.idle
    && s'.tasks == (if Refills(s) then AllRefilled(Charged(s)) else Charged(s))
    && (if NobodyEligible(s'.tasks) then s'.current == s.idle else IsBest(s'.tasks, s.current, PROC_MAX, s'.current))
  }

  lemma BestExists(tasks: seq<Task>, start: nat, k: nat)
    requires |tasks| == PROC_MAX && start < PROC_MAX && IsBest(tasks, start, PROC_MAX, k)
    ensures k == PROC_MAX <==> NobodyEligible(tasks)
    ensures k < PROC_MAX ==> tasks[k].Eligible()
  {
    if k == PROC_MAX {
      forall l | 0 <= l < PROC_MAX ensures !tasks[l].Eligible() {
        var i := EveryoneIsCandidate(start, l);
      }
    } else {
      var j :| 1 <= j <= PROC_MAX && BestAt(tasks, start, PROC_MAX, j) && Candidate(start, j) == k;
    }
  }

  class Scheduler {
    var tasks: seq<Task>
    var current: nat
    const idle: nat

    constructor (tasks: seq<Task>, idle: nat)
      requires |tasks| == PROC_MAX && idle < PROC_MAX
      ensures Now() == State(tasks, idle, idle)
    {
      this.tasks, this.current, this.idle := tasks, idle, idle;
    }

    function Now(): State
      reads this
    {
      State(tasks, current, idle)
    }

    /** yield */
    method Yield()
      requires Now().Ok()
      modifies this
      ensures Yields(old(Now()), Now())
    {
      var next := idle;
      var was := current;
      if tasks[current].Eligible() {
        tasks := tasks[current := tasks[current].(budget := tasks[current].budget - 1)];
      }
      var nextIdx := PickNext(tasks, was);
      BestExists(tasks, was, nextIdx);
      if nextIdx == PROC_MAX {
        tasks := RefillBudgets(tasks);
        nextIdx := PickNext(tasks, was);
        BestExists(tasks, was, nextIdx);
      }
      if nextIdx < PROC_MAX {
        next := nextIdx;
      }
      current := next;
    }
  }

  // ---------------------------------------------------------------------
  // Sums.

  function Sum(s: seq<nat>): nat {
    if s == [] then 0 else Sum(s[..|s| - 1]) + s[|s| - 1]
  }

  lemma {:induction false} SumUpdate(s: seq<nat>, i: nat, v: nat)
    requires i < |s|
    ensures Sum(s[i := v]) + s[i] == Sum(s) + v
  {
    var n := |s| - 1;
    if i < n {
      assert s[i := v][..n] == s[..n][i := v];
      SumUpdate(s[..n], i, v);
    } else {
      assert s[i := v][..n] == s[..n];
    }
  }

  lemma {:induction false} SumAtMost(s: seq<nat>, t: seq<nat>)
    requires |s| == |t| && forall i | 0 <= i < |s| :: s[i] <= t[i]
    ensures Sum(s) <= Sum(t)
  {
    if s != [] { SumAtMost(s[..|s| - 1], t[..|t| - 1]); }
  }

  lemma {:induction false} SumHas(s: seq<nat>, i: nat)
    requires i < |s|
    ensures Sum(s) >= s[i]
  {
    if i < |s| - 1 { SumHas(s[..|s| - 1], i); }
  }

  lemma {:induction false} SumOfZeros(s: seq<nat>)
    requires forall i | 0 <= i < |s| :: s[i] == 0
    ensures Sum(s) == 0
  {
    if s != [] { SumOfZeros(s[..|s| - 1]); }
  }

  function Budget(t: Task): nat { if t.Eligible() then t.budget else 0 }

  function Budgets(tasks: seq<Task>): seq<nat> {
    seq(|tasks|, i requires 0 <= i < |tasks| => Budget(tasks[i]))
  }

  function Shares(tasks: seq<Task>): seq<nat> {
    seq(|tasks|, i requires 0 <= i < |tasks| => if tasks[i].Schedulable() then tasks[i].Share() else 0)
  }

  // ---------------------------------------------------------------------
  // Bounded waiting.

  /** A run of yields with nobody starting, stopping or changing priority. */
  ghost predicate IsRun(run: seq<State>) {
    && |run| > 0 && (forall i | 0 <= i < |run| :: run[i].Ok())
    && forall i | 0 <= i < |run| - 1 :: Yields(run[i], run[i + 1])
  }

  ghost predicate NonNegative(tasks: seq<Task>) { forall i | 0 <= i < |tasks| :: tasks[i].budget >= 0 }

  /** How long t waits at most while somebody else runs: the budgets of the others are
      spent, and if t has none itself the others may spend their shares, too. */
  ghost function Wait(tasks: seq<Task>, t: nat): nat
    requires t < |tasks|
  {
    Sum(Budgets(tasks)[t := 0]) + if Budget(tasks[t]) > 0 then 0 else Sum(Shares(tasks)[t := 0])
  }

  lemma ChargeSpends(tasks: seq<Task>, c: nat, t: nat)
    requires c < |tasks| && t < |tasks| && c != t && tasks[c].Eligible()
    ensures var charged := tasks[c := tasks[c].(budget := tasks[c].budget - 1)];
            && Sum(Budgets(charged)[t := 0]) == Sum(Budgets(tasks)[t := 0]) - 1
            && Shares(charged) == Shares(tasks)
  {
    var charged := tasks[c := tasks[c].(budget := tasks[c].budget - 1)];
    assert Budgets(charged)[t := 0] == Budgets(tasks)[t := 0][c := (tasks[c].budget - 1) as nat];
    SumUpdate(Budgets(tasks)[t := 0], c, tasks[c].budget - 1);
    assert Shares(charged) == Shares(tasks);
  }

  lemma RefillGives(tasks: seq<Task>)
    ensures Budgets(AllRefilled(tasks)) == Shares(tasks) == Shares(AllRefilled(tasks))
    ensures NonNegative(tasks) ==> NonNegative(AllRefilled(tasks))
  {}

  /** What stays as it is. */
  ghost predicate SameTasks(tasks: seq<Task>, tasks': seq<Task>) {
    |tasks'| == |tasks| && Shares(tasks') == Shares(tasks)
    && forall i | 0 <= i < |tasks| :: tasks'[i].Schedulable() == tasks[i].Schedulable()
  }

  lemma YieldFacts(s: State, s': State, t: nat)
    requires Yields(s, s') && NonNegative(s.tasks) && t < PROC_MAX && s.tasks[t].Schedulable()
    ensures NonNegative(s'.tasks) && SameTasks(s.tasks, s'.tasks) && s'.tasks[s'.current].Eligible()
  {
    var c := Charged(s);
    assert Shares(c) == Shares(s.tasks);
    RefillGives(c);
    if Refills(s) { assert s'.tasks[t].Eligible(); }
    BestExists(s'.tasks, s.current, s'.current);
  }

  /** While somebody else is chosen the wait gets shorter. */
  lemma WaitShortens(s: State, s': State, t: nat)
    requires Yields(s, s') && NonNegative(s.tasks) && t < PROC_MAX && s.tasks[t].Schedulable()
    requires s.current != t && s.tasks[s.current].Eligible()
    ensures Wait(s'.tasks, t) == Wait(s.tasks, t) - 1
  {
    var c := Charged(s);
    ChargeSpends(s.tasks, s.current, t);
    if Refills(s) {
      RefillGives(c);
      assert Budgets(c)[t := 0] == seq(PROC_MAX, i => 0);
      SumOfZeros(Budgets(c)[t := 0]);
      assert Budget(c[t]) == 0 && c[t] == s.tasks[t];
    }
  }

  /** t waits no longer than Wait when somebody else, with budget, is running. */
  lemma {:induction false} ChosenInTime(run: seq<State>, t: nat) returns (k: nat)
    requires IsRun(run) && NonNegative(run[0].tasks) && t < PROC_MAX && run[0].tasks[t].Schedulable()
    requires run[0].current != t && run[0].tasks[run[0].current].Eligible() && |run| > Wait(run[0].tasks, t)
    ensures 1 <= k <= Wait(run[0].tasks, t) && k < |run| && run[k].current == t
    decreases |run|
  {
    var s := run[0];
    SumHas(Budgets(s.tasks)[t := 0], s.current);
    assert Wait(s.tasks, t) >= 1;
    var s' := run[1];
    assert Yields(run[0], run[0 + 1]);
    YieldFacts(s, s', t);
    if s'.current == t {
      return 1;
    }
    WaitShortens(s, s', t);
    var rest := run[1..];
    forall i | 0 <= i < |rest| - 1 ensures Yields(rest[i], rest[i + 1]) {
      assert Yields(run[i + 1], run[(i + 1) + 1]);
    }
    k := ChosenInTime(rest, t);
    k := k + 1;
  }

  /** From any state with non-negative budgets a runnable process is chosen within the
      sum of the budgets plus the sum of the priorities plus one yields. */
  lemma BoundedWaiting(run: seq<State>, t: nat) returns (k: nat)
    requires IsRun(run) && NonNegative(run[0].tasks) && t < PROC_MAX && run[0].tasks[t].Schedulable()
    requires |run| > Sum(Budgets(run[0].tasks)) + Sum(Shares(run[0].tasks)) + 1
    ensures 1 <= k <= Sum(Budgets(run[0].tasks)) + Sum(Shares(run[0].tasks)) + 1 && run[k].current == t
  {
    var s, s' := run[0], run[1];
    assert Yields(run[0], run[0 + 1]);
    YieldFacts(s, s', t);
    if s'.current == t {
      return 1;
    }
    FirstWait(s, s', t);
    var rest := run[1..];
    forall i | 0 <= i < |rest| - 1 ensures Yields(rest[i], rest[i + 1]) {
      assert Yields(run[i + 1], run[(i + 1) + 1]);
    }
    k := ChosenInTime(rest, t);
    k := k + 1;
  }

  lemma FirstWait(s: State, s': State, t: nat)
    requires Yields(s, s') && NonNegative(s.tasks) && t < PROC_MAX && s.tasks[t].Schedulable()
    ensures Wait(s'.tasks, t) <= Sum(Budgets(s.tasks)) + Sum(Shares(s.tasks))
  {
    var c := Charged(s);
    RefillGives(c);
    assert Shares(c) == Shares(s.tasks);
    SumAtMost(Budgets(c)[t := 0], Budgets(s.tasks));
    SumAtMost(Shares(s.tasks)[t := 0], Shares(s.tasks));
  }

  // ---------------------------------------------------------------------
  // Proportional share.

  /** How often process i is charged by the yields from run[lo] to run[hi]. */
  ghost function Charges(run: seq<State>, lo: nat, hi: nat, i: nat): nat
    requires IsRun(run) && lo <= hi <= |run| && i < PROC_MAX
    decreases hi - lo
  {
    if hi == lo then 0
    else Charges(run, lo, hi - 1, i)
         + if run[hi - 1].current == i && run[hi - 1].tasks[i].Eligible() then 1 else 0
  }

  /** Until the next refill, what is left and what was charged make up the share. */
  lemma {:induction false} LeftPlusCharged(run: seq<State>, a: nat, m: nat, i: nat)
    requires IsRun(run) && a + 1 < |run| && a < m < |run| && i < PROC_MAX && Refills(run[a])
    requires forall k | a < k < m :: !Refills(run[k])
    requires run[a].tasks[i].Schedulable()
    ensures run[m].tasks[i].Schedulable() && run[m].tasks[i].Share() == run[a].tasks[i].Share()
    ensures run[m].tasks[i].budget >= 0
    ensures run[m].tasks[i].budget + Charges(run, a + 1, m, i) == run[a].tasks[i].Share()
    decreases m
  {
    hide Yields, Refills;
    StepOf(run, m - 1);
    if m > a + 1 {
      LeftPlusCharged(run, a, m - 1, i);
      ChargedOne(run[m - 1], run[m], i);
    } else {
      RefilledOne(run[a], run[m], i);
    }
  }

  lemma StepOf(run: seq<State>, k: nat)
    requires IsRun(run) && k + 1 < |run|
    ensures Yields(run[k], run[k + 1])
  {}

  lemma RefilledOne(s: State, s': State, i: nat)
    requires Yields(s, s') && Refills(s) && i < PROC_MAX && s.tasks[i].Schedulable()
    ensures s'.tasks[i].Schedulable() && s'.tasks[i].Share() == s.tasks[i].Share()
    ensures s'.tasks[i].budget == s.tasks[i].Share()
  {}

  lemma ChargedOne(s: State, s': State, i: nat)
    requires Yields(s, s') && !Refills(s) && i < PROC_MAX && s.tasks[i].budget >= 0
    ensures s'.tasks[i].Schedulable() == s.tasks[i].Schedulable() && s'.tasks[i].Share() == s.tasks[i].Share()
    ensures s'.tasks[i].budget + (if s.current == i && s.tasks[i].Eligible() then 1 else 0) == s.tasks[i].budget
    ensures s'.tasks[i].budget >= 0
  {}

  /** Between two consecutive refills every runnable process is charged exactly as often
      as its priority says. */
  lemma ProportionalShare(run: seq<State>, a: nat, b: nat, i: nat)
    requires IsRun(run) && a < b < |run| && i < PROC_MAX
    requires Refills(run[a]) && Refills(run[b]) && forall k | a < k < b :: !Refills(run[k])
    requires run[a].tasks[i].Schedulable()
    ensures Charges(run, a + 1, b + 1, i) == run[a].tasks[i].Share()
  {
    LeftPlusCharged(run, a, b, i);
    var c := Charged(run[b]);
    assert !c[i].Eligible();
  }

  /** n yields of the scheduler are such a run. */
  method YieldTimes(sched: Scheduler, n: nat) returns (ghost run: seq<State>)
    requires sched.Now().Ok()
    modifies sched
    ensures IsRun(run) && |run| == n + 1 && run[0] == old(sched.Now()) && run[n] == sched.Now()
  {
    run := [sched.Now()];
    var i := 0;
    while i < n
      invariant 0 <= i <= n && IsRun(run) && |run| == i + 1 && run[0] == old(sched.Now()) && run[i] == sched.Now()
    {
      sched.Yield();
      run := run + [sched.Now()];
      i := i + 1;
    }
  }
}
