/** Safety and liveness of the script-check queue, for any number of threads and any
    interleaving, spurious wakeups included. */
module CheckQueueProofs {
  import opened CheckQueueSpec
  import opened Powers

  // ------------------------------------------------------------- aggregation

  ghost function Sum(f: Thread -> int, ts: seq<Thread>): int {
    if ts == [] then 0 else Sum(f, ts[..|ts| - 1]) + f(ts[|ts| - 1])
  }

  lemma {:induction false} SumUpdate(f: Thread -> int, ts: seq<Thread>, i: nat, t: Thread)
    requires i < |ts|
    ensures Sum(f, ts[i := t]) == Sum(f, ts) - f(ts[i]) + f(t)
  {
    var n := |ts| - 1;
    if i == n {
      assert ts[i := t][..n] == ts[..n];
    } else {
      assert ts[i := t][..n] == ts[..n][i := t];
      SumUpdate(f, ts[..n], i, t);
    }
  }

  function BatchOf(t: Thread): multiset<Check> { if t.Working? then multiset(t.batch) else multiset{} }

  /** The checks in the threads' own batches. */
  ghost function InFlight(ts: seq<Thread>): multiset<Check> {
    if ts == [] then multiset{} else InFlight(ts[..|ts| - 1]) + BatchOf(ts[|ts| - 1])
  }

  lemma {:induction false} InFlightUpdate(ts: seq<Thread>, i: nat, t: Thread)
    requires i < |ts|
    ensures InFlight(ts[i := t]) + BatchOf(ts[i]) == InFlight(ts) + BatchOf(t)
  {
    hide BatchOf;
    var n := |ts| - 1;
    if i == n {
      assert ts[i := t][..n] == ts[..n];
    } else {
      assert ts[i := t][..n] == ts[..n][i := t];
      InFlightUpdate(ts[..n], i, t);
      var a, b, x, y, z := InFlight(ts[..n][i := t]), InFlight(ts[..n]), BatchOf(ts[i]), BatchOf(t), BatchOf(ts[n]);
      assert a + z + x == (a + x) + z;
      assert b + z + y == (b + y) + z;
    }
  }

  lemma {:induction false} BatchInFlight(ts: seq<Thread>, i: nat)
    requires i < |ts|
    ensures BatchOf(ts[i]) <= InFlight(ts)
  {
    if i < |ts| - 1 { BatchInFlight(ts[..|ts| - 1], i); }
  }

  lemma {:induction false} SomeoneWorks(ts: seq<Thread>) returns (i: nat)
    requires InFlight(ts) != multiset{}
    ensures i < |ts| && ts[i].Working?
  {
    i := |ts| - 1;
    if !ts[i].Working? { i := SomeoneWorks(ts[..|ts| - 1]); }
  }

  function IsInside(t: Thread): int { if t.Out? || t.Arriving? then 0 else 1 }
  function IsWaiting(t: Thread): int { if t.Waiting? then 1 else 0 }

  // --------------------------------------------------------------- invariant

  ghost predicate AllOk(m: multiset<Check>) { forall c | c in m :: c.ok }

  /** A thread's verdict so far is right about the checks of its batch it has run, and a
      negative verdict always has a failed check of this session behind it. */
  ghost predicate ThreadOk(t: Thread, added: multiset<Check>) {
    t.Working? ==>
      && 1 <= |t.batch| && t.done <= |t.batch|
      && (t.ok ==> forall k | 0 <= k < t.done :: t.batch[k].ok)
      && (!t.ok ==> !AllOk(added))
  }

  ghost predicate Counted(s: State) {
    && s.shared.total == Sum(IsInside, s.threads)
    && s.shared.idle == Sum(IsWaiting, s.threads)
    && s.shared.todo == |s.shared.queue| + |InFlight(s.threads)|
    && s.added == multiset(s.shared.queue) + InFlight(s.threads) + s.finished
  }

  ghost predicate Judged(s: State) {
    && (s.shared.allOk ==> AllOk(s.finished))
    && (!s.shared.allOk ==> !AllOk(s.added))
    && forall i | 0 <= i < |s.threads| :: ThreadOk(s.threads[i], s.added)
  }

  /** A waiting master has been notified, or something is still to be done elsewhere. */
  ghost predicate MasterOk(s: State)
    requires |s.threads| > 0
  {
    s.threads[0].Waiting? ==> s.shared.queue == [] && (s.shared.todo == 0 ==> s.threads[0].notified)
  }

  /** top is the thread at the top of the loop, or -1 between steps. */
  ghost predicate InvT(s: State, top: int) {
    && |s.threads| > 0
    && (forall i | 0 <= i < |s.threads| :: s.threads[i].AtTop? <==> i == top)
    && Counted(s) && Judged(s) && MasterOk(s)
  }

  ghost predicate Inv(s: State) { InvT(s, -1) }

  lemma InitInv(s: State)
    requires Init(s)
    ensures Inv(s)
  {
    AllOut(s.threads);
  }

  lemma {:induction false} AllOut(ts: seq<Thread>)
    requires forall i | 0 <= i < |ts| :: ts[i] == Out
    ensures Sum(IsInside, ts) == 0 && Sum(IsWaiting, ts) == 0 && InFlight(ts) == multiset{}
  {
    if ts != [] { AllOut(ts[..|ts| - 1]); }
  }

  lemma {:induction false} SumsBound(ts: seq<Thread>)
    ensures 0 <= Sum(IsWaiting, ts) <= Sum(IsInside, ts)
  {
    if ts != [] { SumsBound(ts[..|ts| - 1]); }
  }

  /** A batch is never empty and never larger than the queue. */
  lemma BatchFits(s: State, top: int)
    requires InvT(s, top)
    ensures CanTop(s)
    ensures |s.shared.queue| > 0 ==> 1 <= BatchSize(s.shared)
  {
    SumsBound(s.threads);
    var q := s.shared;
    if |q.queue| > 0 { QuotientAtMost(|q.queue|, q.total + q.idle + 1); }
  }

  lemma {:induction false} PoppedIs(s: seq<Check>, n: nat)
    requires n <= |s|
    ensures multiset(s) == multiset(s[..|s| - n]) + multiset(Popped(s, n))
  {
    if n == 0 {
      assert s[..|s|] == s;
    } else {
      var s1, c := s[..|s| - 1], s[|s| - 1];
      PoppedIs(s1, n - 1);
      assert s == s1 + [c];
      assert s1[..|s1| - (n - 1)] == s[..|s| - n];
      PoppedMore(multiset(s), multiset(s1), multiset(s[..|s| - n]), Popped(s1, n - 1), c);
    }
  }

  lemma PoppedMore(all: multiset<Check>, most: multiset<Check>, rest: multiset<Check>, popped: seq<Check>, c: Check)
    requires all == most + multiset{c} && most == rest + multiset(popped)
    ensures all == rest + multiset([c] + popped)
  {
    assert multiset([c] + popped) == multiset{c} + multiset(popped);
  }

  // ------------------------------------------------------------- top of loop

  /** Moving one thread and its batch keeps the books. */
  lemma CountedUpdate(s: State, s': State, i: nat, t: Thread)
    requires Counted(s) && i < |s.threads| && s'.threads == s.threads[i := t]
    requires s'.shared.total == s.shared.total - IsInside(s.threads[i]) + IsInside(t)
    requires s'.shared.idle == s.shared.idle - IsWaiting(s.threads[i]) + IsWaiting(t)
    requires s'.shared.todo == s.shared.todo - |s.shared.queue| + |s'.shared.queue| - |BatchOf(s.threads[i])| + |BatchOf(t)|
    requires s'.added + multiset(s.shared.queue) + BatchOf(s.threads[i]) + s.finished ==
             s.added + multiset(s'.shared.queue) + BatchOf(t) + s'.finished
    ensures Counted(s')
  {
    hide BatchOf;
    var ts := s.threads;
    SumUpdate(IsInside, ts, i, t);
    SumUpdate(IsWaiting, ts, i, t);
    InFlightUpdate(ts, i, t);
    Balance(s.added, s'.added, multiset(s.shared.queue), multiset(s'.shared.queue), InFlight(ts), InFlight(ts[i := t]),
            s.finished, s'.finished, BatchOf(ts[i]), BatchOf(t));
  }

  lemma Balance(a: multiset<Check>, a': multiset<Check>, q: multiset<Check>, q': multiset<Check>, f: multiset<Check>,
                f': multiset<Check>, d: multiset<Check>, d': multiset<Check>, x: multiset<Check>, x': multiset<Check>)
    requires a == q + f + d && f' + x == f + x' && a' + q + x + d == a + q' + x' + d'
    ensures a' == q' + f' + d'
    ensures |f'| + |x| == |f| + |x'|
  {
    forall c: Check ensures a'[c] == (q' + f' + d')[c] {
      assert (a' + q + x + d)[c] == (a + q' + x' + d')[c];
      assert (f' + x)[c] == (f + x')[c];
    }
    assert |f' + x| == |f + x'|;
  }

  lemma NoneWorks(s: State, top: int)
    requires InvT(s, top) && InFlight(s.threads) == multiset{}
    ensures forall i | 0 <= i < |s.threads| :: !s.threads[i].Working?
  {
    forall i | 0 <= i < |s.threads| ensures !s.threads[i].Working? {
      BatchInFlight(s.threads, i);
      assert s.threads[i].Working? ==> |s.threads[i].batch| == |BatchOf(s.threads[i])|;
    }
  }

  /** When nothing is left to do, the flag is the verdict on the whole session. */
  lemma Verdict(s: State, top: int)
    requires InvT(s, top) && s.shared.queue == [] && s.shared.todo == 0
    ensures InFlight(s.threads) == multiset{}
    ensures s.shared.allOk <==> AllOk(s.added)
  {
    assert s.added == s.finished;
  }

  lemma ReturnInv(s: State)
    requires InvT(s, 0) && s.shared.queue == [] && s.shared.todo == 0
    ensures Inv(Top(s, 0))
  {
    hide Sum, InFlight;
    Verdict(s, 0);
    NoneWorks(s, 0);
    CountedUpdate(s, Top(s, 0), 0, Out);
  }

  lemma SleepInv(s: State, i: nat)
    requires InvT(s, i) && i < |s.threads| && s.shared.queue == [] && !(i == 0 && s.shared.todo == 0)
    ensures Inv(Top(s, i))
  {
    CountedUpdate(s, Top(s, i), i, Waiting(false));
    hide Counted;
  }

  lemma WorkInv(s: State, i: nat)
    requires InvT(s, i) && i < |s.threads| && s.shared.queue != []
    ensures CanTop(s) && Inv(Top(s, i))
  {
    hide Counted, Popped, BatchSize;
    BatchFits(s, i);
    var n := BatchSize(s.shared);
    PoppedIs(s.shared.queue, n);
    var t := Working(Popped(s.shared.queue, n), 0, s.shared.allOk);
    CountedUpdate(s, Top(s, i), i, t);
  }

  lemma TopInv(s: State, i: nat)
    requires InvT(s, i) && i < |s.threads|
    ensures CanTop(s) && Inv(Top(s, i))
  {
    BatchFits(s, i);
    hide InvT, Top;
    if s.shared.queue != [] { WorkInv(s, i); }
    else if i == 0 && s.shared.todo == 0 { ReturnInv(s); }
    else { SleepInv(s, i); }
  }

  // -------------------------------------------------------------- every step

  lemma CallInv(s: State, i: nat)
    requires Inv(s) && i < |s.threads| && s.threads[i].Out?
    ensures Inv(s.(threads := s.threads[i := Arriving]))
  {
    hide Counted;
    CountedUpdate(s, s.(threads := s.threads[i := Arriving]), i, Arriving);
  }

  lemma EnterInv(s: State, i: nat)
    requires Inv(s) && i < |s.threads| && s.threads[i].Arriving?
    ensures InvT(Entered(s, i), i)
  {
    hide Counted;
    CountedUpdate(s, Entered(s, i), i, AtTop);
  }

  lemma WakeInv(s: State, i: nat)
    requires Inv(s) && i < |s.threads| && s.threads[i].Waiting?
    ensures InvT(Woken(s, i), i)
  {
    hide Counted;
    CountedUpdate(s, Woken(s, i), i, AtTop);
  }

  lemma ExecInv(s: State, i: nat)
    requires Inv(s) && i < |s.threads| && s.threads[i].Working? && s.threads[i].done < |s.threads[i].batch|
    ensures var t := s.threads[i];
      Inv(s.(threads := s.threads[i := t.(done := t.done + 1, ok := t.ok && t.batch[t.done].ok)]))
  {
    hide Counted, Sum, InFlight;
    var t := s.threads[i];
    var t' := t.(done := t.done + 1, ok := t.ok && t.batch[t.done].ok);
    var s' := s.(threads := s.threads[i := t']);
    Running(s, i, t.batch[t.done]);
    CountedUpdate(s, s', i, t');
    assert ThreadOk(t, s.added);
    NextCheck(t, s.added);
  }

  lemma NextCheck(t: Thread, added: multiset<Check>)
    requires t.Working? && t.done < |t.batch| && ThreadOk(t, added) && t.batch[t.done] in added
    ensures ThreadOk(t.(done := t.done + 1, ok := t.ok && t.batch[t.done].ok), added)
  {
  }

  /** The checks of a batch belong to the session. */
  lemma Running(s: State, i: nat, c: Check)
    requires Counted(s) && i < |s.threads| && s.threads[i].Working? && c in s.threads[i].batch
    ensures c in s.added
  {
    BatchInFlight(s.threads, i);
    assert c in BatchOf(s.threads[i]);
  }

  /** The finished batch, before the master is notified. */
  ghost function Booked(s: State, i: nat): State
    requires i < |s.threads| && s.threads[i].Working?
  {
    var t := s.threads[i];
    s.(shared := Account(s.shared, |t.batch|, t.ok), threads := s.threads[i := AtTop],
       finished := s.finished + multiset(t.batch))
  }

  lemma BookedJudged(s: State, i: nat)
    requires Inv(s) && i < |s.threads| && s.threads[i].Working? && s.threads[i].done == |s.threads[i].batch|
    ensures Judged(Booked(s, i))
  {
    var t := s.threads[i];
    var s' := Booked(s, i);
    assert ThreadOk(t, s.added);
    hide Counted, MasterOk;
    if s'.shared.allOk {
      forall c | c in s'.finished ensures c.ok {
        if c in multiset(t.batch) {
          assert c in t.batch;
          var k :| 0 <= k < |t.batch| && t.batch[k] == c;
        }
      }
    }
  }

  lemma FinishInv(s: State, i: nat)
    requires Inv(s) && i < |s.threads| && s.threads[i].Working? && s.threads[i].done == |s.threads[i].batch|
    ensures InvT(Accounted(s, i), i)
  {
    BookedJudged(s, i);
    var s1 := Booked(s, i);
    CountedUpdate(s, s1, i, AtTop);
    hide Counted, Judged;
    if s1.shared.todo == 0 && i != 0 && s1.threads[0].Waiting? {
      CountedUpdate(s1, Accounted(s, i), 0, Waiting(true));
      NotifiedJudged(s1, Accounted(s, i), 0);
    }
  }

  lemma NotifiedJudged(s: State, s': State, i: nat)
    requires Judged(s) && i < |s.threads| && s' == s.(threads := s.threads[i := Waiting(true)])
    ensures Judged(s')
  {
  }

  // --------------------------------------------------------------------- Add

  lemma {:induction false} NotifyAllCounts(ts: seq<Thread>)
    ensures Sum(IsInside, NotifyAll(ts)) == Sum(IsInside, ts)
    ensures Sum(IsWaiting, NotifyAll(ts)) == Sum(IsWaiting, ts)
    ensures InFlight(NotifyAll(ts)) == InFlight(ts)
  {
    if ts != [] {
      var n := |ts| - 1;
      NotifyAllCounts(ts[..n]);
      assert NotifyAll(ts)[..n] == NotifyAll(ts[..n]);
    }
  }

  /** Waking workers changes nothing but their notified flags. */
  ghost predicate OnlyNotified(ts: seq<Thread>, ts': seq<Thread>) {
    && |ts| == |ts'|
    && (forall i | 0 <= i < |ts| :: ts'[i] == ts[i] || (i > 0 && ts[i].Waiting? && ts'[i] == Waiting(true)))
    && Sum(IsInside, ts') == Sum(IsInside, ts) && Sum(IsWaiting, ts') == Sum(IsWaiting, ts)
    && InFlight(ts') == InFlight(ts)
  }

  lemma OneNotified(ts: seq<Thread>, i: nat)
    requires 1 <= i < |ts| && ts[i].Waiting?
    ensures OnlyNotified(ts, ts[i := Waiting(true)])
  {
    SumUpdate(IsInside, ts, i, Waiting(true));
    SumUpdate(IsWaiting, ts, i, Waiting(true));
    InFlightUpdate(ts, i, Waiting(true));
    hide Sum, InFlight;
    assert InFlight(ts[i := Waiting(true)]) == InFlight(ts[i := Waiting(true)]) + multiset{} == InFlight(ts) + multiset{};
  }

  lemma AllNotified(ts: seq<Thread>)
    ensures OnlyNotified(ts, NotifyAll(ts))
  {
    NotifyAllCounts(ts);
    hide Sum, InFlight;
  }

  lemma AddNotifies(s: State, checks: seq<Check>, s': State)
    requires Next(s, Add(checks), s')
    ensures OnlyNotified(s.threads, s'.threads)
  {
    AllNotified(s.threads);
    if i :| |checks| == 1 && 1 <= i < |s.threads| && s.threads[i].Waiting? && s'.threads == s.threads[i := Waiting(true)] {
      OneNotified(s.threads, i);
    }
    hide Sum, InFlight, NotifyAll;
  }

  lemma AddInv(s: State, checks: seq<Check>, s': State)
    requires Inv(s) && Next(s, Add(checks), s')
    ensures Inv(s')
  {
    AddNotifies(s, checks, s');
    AddCounted(s, checks, s');
    hide Counted, Sum, InFlight;
    forall i | 0 <= i < |s'.threads| ensures ThreadOk(s'.threads[i], s'.added) { assert ThreadOk(s.threads[i], s.added); }
    hide NotifiesOne, NotifyAll;
  }

  lemma AddCounted(s: State, checks: seq<Check>, s': State)
    requires Counted(s) && OnlyNotified(s.threads, s'.threads)
    requires s'.shared == AddChecks(s.shared, checks)
    requires s'.added == s.added + multiset(checks) && s'.finished == s.finished
    ensures Counted(s')
  {
    hide Sum, InFlight;
    assert multiset(s.shared.queue + checks) == multiset(s.shared.queue) + multiset(checks);
  }

  lemma StepInv(s: State, step: Step, s': State)
    requires Inv(s) && Next(s, step, s')
    ensures Inv(s')
  {
    hide InvT, Top, CanTop;
    match step
    case Add(checks) => AddInv(s, checks, s');
    case Call(i) => CallInv(s, i);
    case Enter(i) => EnterInv(s, i); TopInv(Entered(s, i), i);
    case Exec(i) => ExecInv(s, i);
    case Finish(i) => FinishInv(s, i); TopInv(Accounted(s, i), i);
    case Wake(i) => WakeInv(s, i); TopInv(Woken(s, i), i);
  }

  // -------------------------------------------------------------- main results

  /** A run: some initial state followed by steps of any threads in any order. */
  ghost predicate IsRun(states: seq<State>, steps: seq<Step>) {
    && |states| == |steps| + 1 && Init(states[0])
    && forall k | 0 <= k < |steps| :: Next(states[k], steps[k], states[k + 1])
  }

  lemma {:induction false} EveryRun(states: seq<State>, steps: seq<Step>)
    requires IsRun(states, steps)
    ensures forall k | 0 <= k < |states| :: Inv(states[k])
  {
    hide Init, Next, InvT;
    if steps == [] {
      InitInv(states[0]);
    } else {
      var n := |steps| - 1;
      EveryRun(states[..n + 1], steps[..n]);
      StepInv(states[n], steps[n], states[n + 1]);
      assert forall k | 0 <= k <= n :: states[..n + 1][k] == states[k];
    }
  }

  /** nTodo counts the queued checks and those in the threads' batches, in every reachable state. */
  lemma TodoIsExact(states: seq<State>, steps: seq<Step>, k: nat)
    requires IsRun(states, steps) && k < |states|
    ensures states[k].shared.todo == |states[k].shared.queue| + |InFlight(states[k].threads)|
  {
    EveryRun(states, steps);
  }

  lemma ReturnsWhenDone(s: State, i: nat)
    requires i < |s.threads| && CanTop(s)
    ensures Top(s, i).results == s.results ||
      (i == 0 && s.shared.queue == [] && s.shared.todo == 0 && Top(s, 0).results == s.results + [s.shared.allOk]
       && Top(s, 0).shared == s.shared.(total := s.shared.total - 1, allOk := true) && Top(s, 0).added == multiset{}
       && Top(s, 0).threads[0] == Out)
  {
    hide BatchSize, Popped;
  }

  /** A call of Wait returns true exactly when every check added in its session would return
      true, and then nothing is left behind for the next session. */
  ghost predicate ReturnOk(s: State, s': State) {
    && s'.results == s.results + [AllOk(s.added)]
    && s'.shared.queue == [] && s'.shared.todo == 0 && s'.shared.allOk && s'.added == multiset{}
    && forall i | 0 <= i < |s'.threads| :: !s'.threads[i].Working?
  }

  lemma TopReturns(s: State, s1: State, i: nat)
    requires InvT(s1, i) && i < |s1.threads| && CanTop(s1) && s1.added == s.added && s1.results == s.results
    requires Inv(Top(s1, i))
    ensures Top(s1, i).results == s.results || ReturnOk(s, Top(s1, i))
  {
    hide InvT, Top;
    ReturnsWhenDone(s1, i);
    var s' := Top(s1, i);
    if s'.results != s.results {
      Verdict(s1, 0);
      Verdict(s', -1);
      NoneWorks(s', -1);
    }
  }

  lemma WaitIsRight(s: State, step: Step, s': State)
    requires Inv(s) && Next(s, step, s')
    ensures s'.results == s.results || ReturnOk(s, s')
  {
    StepInv(s, step, s');
    hide InvT, Top;
    match step
    case Enter(i) => EnterInv(s, i); TopReturns(s, Entered(s, i), i);
    case Finish(i) => FinishInv(s, i); TopReturns(s, Accounted(s, i), i);
    case Wake(i) => WakeInv(s, i); TopReturns(s, Woken(s, i), i);
    case _ =>
  }

  /** While the master waits without having been notified, another thread holds an
      unfinished batch: no wakeup is lost. */
  lemma NoLostWakeup(s: State) returns (i: nat)
    requires Inv(s) && s.threads[0] == Waiting(false)
    ensures 0 < i < |s.threads| && s.threads[i].Working?
  {
    assert |InFlight(s.threads)| > 0;
    i := SomeoneWorks(s.threads);
  }

  // ---------------------------------------------------------------- progress

  /** Work still ahead of a thread. */
  function Weight(t: Thread): int {
    match t
    case Arriving => 1
    case Waiting(notified) => if notified then 1 else 0
    case Working(batch, done, _) => 3 * |batch| - done
    case _ => 0
  }

  ghost function Rank(s: State): int { 4 * |s.shared.queue| + Sum(Weight, s.threads) }

  lemma TopRank(s: State, i: nat)
    requires InvT(s, i) && i < |s.threads|
    ensures CanTop(s) && Rank(Top(s, i)) <= Rank(s)
    ensures s.shared.queue != [] ==> Rank(Top(s, i)) < Rank(s)
  {
    BatchFits(s, i);
    hide BatchSize, Popped, Counted, Judged;
    SumUpdate(Weight, s.threads, i, Top(s, i).threads[i]);
    hide Sum;
  }

  lemma StepRank(s: State, i: nat, s1: State)
    requires i < |s.threads| && s1.threads == s.threads[i := AtTop] && s1.shared.queue == s.shared.queue
    ensures Rank(s1) == Rank(s) - Weight(s.threads[i])
  {
    SumUpdate(Weight, s.threads, i, AtTop);
  }

  lemma FinishRank(s: State, i: nat)
    requires Inv(s) && i < |s.threads| && s.threads[i].Working? && s.threads[i].done == |s.threads[i].batch|
    ensures Rank(Accounted(s, i)) < Rank(s)
  {
    assert ThreadOk(s.threads[i], s.added);
    var s1 := Booked(s, i);
    StepRank(s, i, s1);
    if i != 0 { SumUpdate(Weight, s1.threads, 0, Waiting(true)); }
    hide Counted, Judged, Sum;
  }

  /** Every step of a thread inside Loop uses up rank, except a spurious wakeup that finds
      nothing to do, which changes nothing at all. */
  lemma RankDrops(s: State, step: Step, s': State)
    requires Inv(s) && Next(s, step, s') && !step.Add? && !step.Call?
    ensures Rank(s') < Rank(s) || (step.Wake? && s.threads[step.i] == Waiting(false) && s' == s)
  {
    hide Rank, InvT, Top, CanTop;
    match step
    case Enter(i) => EnterInv(s, i); StepRank(s, i, Entered(s, i)); TopRank(Entered(s, i), i);
    case Exec(i) => ExecRank(s, i, s'.threads[i]);
    case Finish(i) => FinishInv(s, i); FinishRank(s, i); TopRank(Accounted(s, i), i);
    case Wake(i) => WakeInv(s, i); StepRank(s, i, Woken(s, i)); TopRank(Woken(s, i), i);
      if s.threads[i] == Waiting(false) { Spurious(s, i); }
  }

  lemma ExecRank(s: State, i: nat, t: Thread)
    requires i < |s.threads| && s.threads[i].Working? && t.Working? && t.batch == s.threads[i].batch
    requires t.done == s.threads[i].done + 1
    ensures Rank(s.(threads := s.threads[i := t])) == Rank(s) - 1
  {
    SumUpdate(Weight, s.threads, i, t);
  }

  lemma Spurious(s: State, i: nat)
    requires Inv(s) && i < |s.threads| && s.threads[i] == Waiting(false)
    ensures s.shared.queue == [] ==> CanTop(Woken(s, i)) && Top(Woken(s, i), i) == s
  {
    hide Counted, Judged;
    if s.shared.queue == [] { assert s.threads[i := AtTop][i := Waiting(false)] == s.threads; }
  }

  /** While the master is inside Wait some thread can take a step that uses up rank, so Wait
      returns after finitely many such steps. */
  lemma Progress(s: State) returns (step: Step, s': State)
    requires Inv(s) && !s.threads[0].Out?
    ensures Next(s, step, s') && !step.Add? && !step.Call? && Rank(s') < Rank(s)
  {
    var i: nat := 0;
    if s.threads[0] == Waiting(false) { i := NoLostWakeup(s); }
    step, s' := Advance(s, i);
    hide Next, Rank;
    RankDrops(s, step, s');
  }

  /** A thread that is inside Loop and not waiting unnotified can take a step. */
  lemma Advance(s: State, i: nat) returns (step: Step, s': State)
    requires Inv(s) && i < |s.threads| && !s.threads[i].Out? && s.threads[i] != Waiting(false)
    ensures Next(s, step, s') && !step.Add? && !step.Call?
    ensures step.Wake? ==> s.threads[step.i] != Waiting(false)
  {
    match s.threads[i] {
      case Arriving =>
        EnterInv(s, i);
        BatchFits(Entered(s, i), i);
        step, s' := Enter(i), Top(Entered(s, i), i);
      case Waiting(_) =>
        WakeInv(s, i);
        BatchFits(Woken(s, i), i);
        step, s' := Wake(i), Top(Woken(s, i), i);
      case Working(batch, done, ok) =>
        if done < |batch| {
          step, s' := Exec(i), s.(threads := s.threads[i := Working(batch, done + 1, ok && batch[done].ok)]);
        } else {
          assert ThreadOk(s.threads[i], s.added);
          FinishInv(s, i);
          BatchFits(Accounted(s, i), i);
          step, s' := Finish(i), Top(Accounted(s, i), i);
        }
    }
  }

  lemma {:induction false} WeightsNatural(ts: seq<Thread>, added: multiset<Check>)
    requires forall i | 0 <= i < |ts| :: ThreadOk(ts[i], added)
    ensures Sum(Weight, ts) >= 0
  {
    if ts != [] {
      WeightsNatural(ts[..|ts| - 1], added);
      assert ThreadOk(ts[|ts| - 1], added);
    }
  }

  /** Between two calls from outside only Rank many steps that change anything are possible. */
  lemma {:induction false} BoundedRun(states: seq<State>, steps: seq<Step>)
    requires |states| == |steps| + 1 && Inv(states[0])
    requires forall k | 0 <= k < |steps| ::
               Next(states[k], steps[k], states[k + 1]) && !steps[k].Add? && !steps[k].Call? && states[k + 1] != states[k]
    ensures |steps| <= Rank(states[0])
  {
    if steps == [] {
      WeightsNatural(states[0].threads, states[0].added);
    } else {
      hide Next, InvT, Rank;
      StepInv(states[0], steps[0], states[1]);
      RankDrops(states[0], steps[0], states[1]);
      var states', steps' := states[1..], steps[1..];
      forall k | 0 <= k < |steps'|
        ensures Next(states'[k], steps'[k], states'[k + 1]) && !steps'[k].Add? && !steps'[k].Call? && states'[k + 1] != states'[k]
      {
        assert steps'[k] == steps[k + 1];
      }
      BoundedRun(states', steps');
    }
  }
}
