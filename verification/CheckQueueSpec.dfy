/** CCheckQueue (src/checkqueue.h) as a state machine: any number of threads, each step one
    critical section or one check, interleaved in any order. */
module CheckQueueSpec {

  /** A verification job; ok is what calling it would return. */
  datatype Check = Check(id: nat, ok: bool)

  /** The fields guarded by the mutex. */
  datatype Shared = Shared(queue: seq<Check>, idle: int, total: int, allOk: bool, todo: int, batchSize: nat)

  /** Where a thread is.  AtTop is the top of the do loop with the lock held, so it is never
      seen by another thread.  Thread 0 is the master: outside Loop it may add checks, and its
      call of Loop is Wait. */
  datatype Thread =
    | Out
    | Arriving
    | AtTop
    | Waiting(notified: bool)
    | Working(batch: seq<Check>, done: nat, ok: bool)

  /** added and finished are the checks of the current session: those handed to Add since the
      last Wait returned, and those whose batch has been accounted for.  results lists what
      the calls of Wait have returned. */
  datatype State = State(shared: Shared, threads: seq<Thread>, added: multiset<Check>, finished: multiset<Check>,
                         results: seq<bool>)

  // --------------------------------------------------------- critical sections

  function Max(a: int, b: int): int { if a < b then b else a }
  function Min(a: int, b: int): int { if a < b then a else b }

  /** How many checks a thread takes at once. */
  function BatchSize(q: Shared): int
    requires q.total + q.idle + 1 > 0
  {
    Max(1, Min(q.batchSize, |q.queue| / (q.total + q.idle + 1)))
  }

  /** The last n elements of s, last first. */
  function Popped(s: seq<Check>, n: nat): (r: seq<Check>)
    requires n <= |s|
    ensures |r| == n
  {
    if n == 0 then [] else [s[|s| - 1]] + Popped(s[..|s| - 1], n - 1)
  }

  datatype Outcome = Return(result: bool) | Sleep | Work(batch: seq<Check>)

  /** What a thread that holds the lock at the top of the do loop does next. */
  function Decide(q: Shared, master: bool): (Shared, Outcome)
    requires |q.queue| > 0 ==> q.total + q.idle + 1 > 0 && BatchSize(q) <= |q.queue|
  {
    if q.queue == [] then
      if master && q.todo == 0 then (q.(total := q.total - 1, allOk := true), Return(q.allOk))
      else (q.(idle := q.idle + 1), Sleep)
    else
      var n := BatchSize(q);
      (q.(queue := q.queue[..|q.queue| - n]), Work(Popped(q.queue, n)))
  }

  /** The clean-up of a finished batch. */
  function Account(q: Shared, n: nat, ok: bool): Shared {
    q.(allOk := q.allOk && ok, todo := q.todo - n)
  }

  function AddChecks(q: Shared, checks: seq<Check>): Shared {
    q.(queue := q.queue + checks, todo := q.todo + |checks|)
  }

  // -------------------------------------------------------------------- steps

  function Place(o: Outcome, allOk: bool): Thread {
    match o case Return(_) => Out case Sleep => Waiting(false) case Work(batch) => Working(batch, 0, allOk)
  }

  /** The batch to take is one the queue can supply. */
  ghost predicate CanTop(s: State) {
    |s.shared.queue| > 0 ==> s.shared.total + s.shared.idle + 1 > 0 && BatchSize(s.shared) <= |s.shared.queue|
  }

  ghost function Top(s: State, i: nat): State
    requires i < |s.threads| && CanTop(s)
  {
    var (q, o) := Decide(s.shared, i == 0);
    var s' := s.(shared := q, threads := s.threads[i := Place(o, s.shared.allOk)]);
    if o.Return? then s'.(added := multiset{}, finished := multiset{}, results := s.results + [o.result]) else s'
  }

  /** condMaster.notify_one(). */
  function NotifyMaster(threads: seq<Thread>): seq<Thread>
    requires |threads| > 0
  {
    if threads[0].Waiting? then threads[0 := Waiting(true)] else threads
  }

  /** condWorker.notify_one() wakes some waiting worker, if there is one. */
  ghost predicate NotifiesOne(threads: seq<Thread>, threads': seq<Thread>) {
    || (exists i | 1 <= i < |threads| :: threads[i].Waiting? && threads' == threads[i := Waiting(true)])
    || (threads' == threads && forall i | 1 <= i < |threads| :: threads[i] != Waiting(false))
  }

  /** condWorker.notify_all(). */
  function NotifyAll(threads: seq<Thread>): seq<Thread> {
    seq(|threads|, i requires 0 <= i < |threads| =>
      if i > 0 && threads[i].Waiting? then Waiting(true) else threads[i])
  }

  datatype Step =
    | Add(checks: seq<Check>)
    | Call(i: nat)
    | Enter(i: nat)
    | Exec(i: nat)
    | Finish(i: nat)
    | Wake(i: nat)

  /** Finish, up to the top of the loop. */
  ghost function Accounted(s: State, i: nat): State
    requires i < |s.threads| && s.threads[i].Working?
  {
    var t := s.threads[i];
    var q := Account(s.shared, |t.batch|, t.ok);
    var threads := s.threads[i := AtTop];
    s.(shared := q, threads := if q.todo == 0 && i != 0 then NotifyMaster(threads) else threads,
       finished := s.finished + multiset(t.batch))
  }

  /** Thread i counts itself in and is at the top of the loop. */
  ghost function Entered(s: State, i: nat): State
    requires i < |s.threads|
  {
    s.(shared := s.shared.(total := s.shared.total + 1), threads := s.threads[i := AtTop])
  }

  ghost function Woken(s: State, i: nat): State
    requires i < |s.threads|
  {
    s.(shared := s.shared.(idle := s.shared.idle - 1), threads := s.threads[i := AtTop])
  }

  ghost predicate Next(s: State, step: Step, s': State) {
    match step
    case Add(checks) =>
      && |s.threads| > 0 && s.threads[0].Out?
      && s'.shared == AddChecks(s.shared, checks)
      && s'.added == s.added + multiset(checks) && s'.finished == s.finished && s'.results == s.results
      && (if |checks| == 0 then s'.threads == s.threads
          else if |checks| == 1 then NotifiesOne(s.threads, s'.threads)
          else s'.threads == NotifyAll(s.threads))
    case Call(i) => i < |s.threads| && s.threads[i].Out? && s' == s.(threads := s.threads[i := Arriving])
    case Enter(i) =>
      i < |s.threads| && s.threads[i].Arriving? && CanTop(Entered(s, i)) && s' == Top(Entered(s, i), i)
    case Exec(i) =>
      && i < |s.threads| && s.threads[i].Working? && s.threads[i].done < |s.threads[i].batch|
      && var t := s.threads[i];
      && s' == s.(threads := s.threads[i := t.(done := t.done + 1, ok := t.ok && t.batch[t.done].ok)])
    case Finish(i) =>
      && i < |s.threads| && s.threads[i].Working? && s.threads[i].done == |s.threads[i].batch|
      && CanTop(Accounted(s, i)) && s' == Top(Accounted(s, i), i)
    case Wake(i) =>
      i < |s.threads| && s.threads[i].Waiting? && CanTop(Woken(s, i)) && s' == Top(Woken(s, i), i)
  }

  /** A queue on which no thread has called Loop yet. */
  ghost predicate Init(s: State) {
    && s.shared == Shared([], 0, 0, true, 0, s.shared.batchSize)
    && |s.threads| > 0 && (forall i | 0 <= i < |s.threads| :: s.threads[i] == Out)
    && s.added == s.finished == multiset{}
  }
}
