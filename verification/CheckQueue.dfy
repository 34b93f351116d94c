/** The parallel verification queue (src/checkqueue.h) as a state machine.

    Thread 0 is the master, the others are workers. Every step is one stretch that a thread runs
    while it holds the mutex, or one check that it runs without it; the steps of all threads may be
    interleaved in any order. Waiting threads may also wake up for no reason. */
module CheckQueue {

  /** A verification; `passes` is what running it returns. */
  datatype Check = Check(id: nat, passes: bool)

  datatype Thread =
    | Outside                                            // not in Loop
    | Waiting                                            // blocked on its condition variable
    | Woken                                              // notified, does not have the mutex yet
    | Working(batch: seq<Check>, next: nat, fOk: bool)   // runs batch[next..]

  /** A finished `Wait`: the checks added since the one before it, and what it returned. */
  datatype Verdict = Verdict(checks: multiset<Check>, ok: bool)

  /** The queue and its threads. `added` and `completed` record the checks added and merged since the
      last `Wait`, `verdicts` what the finished ones returned. */
  datatype State = State(
    queue: seq<Check>, nIdle: int, nTotal: int, fAllOk: bool, nTodo: int, nBatchSize: nat,
    threads: seq<Thread>,
    added: multiset<Check>, completed: multiset<Check>, verdicts: seq<Verdict>)

  const MASTER := 0

  datatype Action =
    | Add(checks: seq<Check>, who: int)   // the master; `who` is the worker that a single notification reaches
    | Enter(t: nat)                       // call Loop
    | Run(t: nat)                         // run the next check of the batch
    | Finish(t: nat)                      // merge the batch and look for more work
    | Wake(t: nat)                        // come back from waiting and look for more work

  // ---------------------------------------------------------------- steps

  /** How many checks a thread takes at once. */
  function BatchSize(s: State): nat
    requires s.queue != [] && 0 <= s.nTotal && 0 <= s.nIdle
  {
    var share := |s.queue| / (s.nTotal + s.nIdle + 1);
    var capped := if s.nBatchSize < share then s.nBatchSize else share;
    if capped < 1 then 1 else capped
  }

  /** The last `n` checks, in the order they are popped. */
  function Popped(queue: seq<Check>, n: nat): (batch: seq<Check>)
    requires n <= |queue|
    ensures |batch| == n
  {
    seq(n, i requires 0 <= i < n => queue[|queue| - 1 - i])
  }

  /** From the top of the inner loop of `Loop` until the mutex is given up. */
  function Head(s: State, t: nat): State
    requires t < |s.threads| && 0 <= s.nTotal && 0 <= s.nIdle
  {
    if s.queue == [] then
      if t == MASTER && s.nTodo == 0 then
        s.(nTotal := s.nTotal - 1, fAllOk := true, threads := s.threads[t := Outside],
           added := multiset{}, completed := multiset{}, verdicts := s.verdicts + [Verdict(s.added, s.fAllOk)])
      else
        s.(nIdle := s.nIdle + 1, threads := s.threads[t := Waiting])
    else
      BatchFits(s);
      var n := BatchSize(s);
      s.(queue := s.queue[..|s.queue| - n], threads := s.threads[t := Working(Popped(s.queue, n), 0, s.fAllOk)])
  }

  /** At least one check is taken, and otherwise as many as the batch size and an even share for every thread,
      idle ones counted twice, allow. */
  lemma BatchFits(s: State)
    requires s.queue != [] && 0 <= s.nTotal && 0 <= s.nIdle
    ensures 1 <= BatchSize(s) <= |s.queue|
    ensures BatchSize(s) > 1 ==> BatchSize(s) <= s.nBatchSize && BatchSize(s) * (s.nTotal + s.nIdle + 1) <= |s.queue|
    ensures BatchSize(s) + 1 > s.nBatchSize || (BatchSize(s) + 1) * (s.nTotal + s.nIdle + 1) > |s.queue|
  {
    var d := s.nTotal + s.nIdle + 1;
    var b := BatchSize(s);
    Shares(|s.queue|, d, 1);
    Shares(|s.queue|, d, b);
    Shares(|s.queue|, d, b + 1);
  }

  lemma Shares(n: nat, d: nat, b: nat)
    requires d > 0
    ensures b <= n / d <==> b * d <= n
    ensures n / d <= n
  {
    assert n == n / d * d + n % d;
    AtMost(n, d, n / d, b);
    AtMost(n, d, n / d, n / d);
  }

  lemma AtMost(n: nat, d: nat, q: nat, b: nat)
    requires d > 0 && q * d <= n < q * d + d
    ensures b <= q <==> b * d <= n
    ensures q <= n
  {
    MoreTimes(q, 0, d);
    if b <= q {
      MoreTimes(q, b, d);
    } else {
      MoreTimes(b, q + 1, d);
      assert (q + 1) * d == q * d + d;
    }
  }

  lemma MoreTimes(x: nat, y: nat, d: nat)
    requires y <= x && d > 0
    ensures x * d >= y * d + (x - y)
  {
    if y < x {
      MoreTimes(x - 1, y, d);
      assert x * d == (x - 1) * d + d;
    }
  }

  function WakeAll(threads: seq<Thread>): (r: seq<Thread>)
    ensures |r| == |threads|
  {
    seq(|threads|, i requires 0 <= i < |threads| => if i != MASTER && threads[i].Waiting? then Woken else threads[i])
  }

  predicate Counts(s: State) {
    0 <= s.nTotal && 0 <= s.nIdle
  }

  predicate Enabled(s: State, a: Action) {
    && |s.threads| > 0 && Counts(s)
    && match a
       case Add(checks, who) =>
         && s.threads[MASTER].Outside?
         && (|checks| == 1 ==>
               if exists i :: MASTER < i < |s.threads| && s.threads[i].Waiting?
               then MASTER < who < |s.threads| && s.threads[who].Waiting?
               else who == -1)
       case Enter(t) => t < |s.threads| && s.threads[t].Outside?
       case Run(t) => t < |s.threads| && s.threads[t].Working? && s.threads[t].next < |s.threads[t].batch|
       case Finish(t) => t < |s.threads| && s.threads[t].Working? && s.threads[t].next == |s.threads[t].batch|
       case Wake(t) => t < |s.threads| && (s.threads[t].Woken? || s.threads[t].Waiting?) && s.nIdle > 0
  }

  function Notify(threads: seq<Thread>, checks: seq<Check>, who: int): (r: seq<Thread>)
    ensures |r| == |threads|
  {
    if |checks| == 1 then
      if 0 <= who < |threads| then threads[who := Woken] else threads
    else if |checks| > 1 then WakeAll(threads)
    else threads
  }

  /** Merging a batch; a worker that completed the last check notifies the master. */
  function Merge(s: State, t: nat): State
    requires t < |s.threads| && s.threads[t].Working? && |s.threads| > 0
  {
    var w := s.threads[t];
    var todo := s.nTodo - |w.batch|;
    var threads := if todo == 0 && t != MASTER && s.threads[MASTER].Waiting? then s.threads[MASTER := Woken] else s.threads;
    s.(fAllOk := s.fAllOk && w.fOk, nTodo := todo, threads := threads, completed := s.completed + multiset(w.batch))
  }

  function Step(s: State, a: Action): State
    requires Enabled(s, a)
  {
    match a
    case Add(checks, who) =>
      s.(queue := s.queue + checks, nTodo := s.nTodo + |checks|, added := s.added + multiset(checks),
         threads := Notify(s.threads, checks, who))
    case Enter(t) => Head(s.(nTotal := s.nTotal + 1), t)
    case Run(t) =>
      var w := s.threads[t];
      s.(threads := s.threads[t := w.(next := w.next + 1, fOk := w.fOk && w.batch[w.next].passes)])
    case Finish(t) => Head(Merge(s, t), t)
    case Wake(t) => Head(s.(nIdle := s.nIdle - 1), t)
  }

  // ---------------------------------------------------------------- counting over threads

  function Batch(t: Thread): multiset<Check> {
    if t.Working? then multiset(t.batch) else multiset{}
  }

  /** The checks in some thread's own batch. */
  function InFlight(threads: seq<Thread>): multiset<Check>
    decreases |threads|
  {
    if threads == [] then multiset{} else InFlight(threads[..|threads| - 1]) + Batch(threads[|threads| - 1])
  }

  function IdleCount(threads: seq<Thread>): nat
    decreases |threads|
  {
    if threads == [] then 0 else
    var t := threads[|threads| - 1];
    IdleCount(threads[..|threads| - 1]) + if t.Waiting? || t.Woken? then 1 else 0
  }

  function InsideCount(threads: seq<Thread>): nat
    decreases |threads|
  {
    if threads == [] then 0 else
    InsideCount(threads[..|threads| - 1]) + if threads[|threads| - 1].Outside? then 0 else 1
  }

  /** Counting again after one thread changed. */
  lemma {:induction false} Recount(threads: seq<Thread>, i: nat, t: Thread)
    requires i < |threads|
    ensures IdleCount(threads[i := t]) ==
            IdleCount(threads) - (if threads[i].Waiting? || threads[i].Woken? then 1 else 0) + if t.Waiting? || t.Woken? then 1 else 0
    ensures InsideCount(threads[i := t]) == InsideCount(threads) - (if threads[i].Outside? then 0 else 1) + if t.Outside? then 0 else 1
    decreases |threads|
  {
    var m := |threads| - 1;
    if i < m {
      Recount(threads[..m], i, t);
      assert threads[i := t][..m] == threads[..m][i := t];
    } else {
      assert threads[i := t][..m] == threads[..m];
    }
  }

  /** A thread adds its own batch to what is in flight without it. */
  lemma {:induction false} Recollect(threads: seq<Thread>, i: nat, t: Thread)
    requires i < |threads|
    ensures InFlight(threads[i := t]) == InFlight(threads[i := Outside]) + Batch(t)
    decreases |threads|
  {
    hide InFlight, Batch;
    var m := |threads| - 1;
    var rest, last := threads[..m], threads[m];
    if i < m {
      Recollect(rest, i, t);
      assert threads[i := t] == rest[i := t] + [last] && threads[i := Outside] == rest[i := Outside] + [last];
      InFlightSnoc(rest[i := t], last);
      InFlightSnoc(rest[i := Outside], last);
      Regroup(InFlight(rest[i := Outside]), Batch(t), Batch(last));
    } else {
      assert threads[i := t] == rest + [t] && threads[i := Outside] == rest + [Outside];
      InFlightSnoc(rest, t);
      InFlightSnoc(rest, Outside);
      BatchOutside();
      AddNothing(InFlight(rest));
    }
  }

  lemma InFlightSnoc(rest: seq<Thread>, t: Thread)
    ensures InFlight(rest + [t]) == InFlight(rest) + Batch(t)
  {
    assert (rest + [t])[..|rest|] == rest;
  }

  lemma BatchOutside()
    ensures Batch(Outside) == multiset{}
  {
  }

  lemma AddNothing(a: multiset<Check>)
    ensures a + multiset{} == a
  {
  }

  lemma Regroup(a: multiset<Check>, b: multiset<Check>, c: multiset<Check>)
    ensures (a + b) + c == (a + c) + b
  {
  }

  lemma InFlightHas(threads: seq<Thread>, i: nat)
    requires i < |threads|
    ensures InFlight(threads) == InFlight(threads[i := Outside]) + Batch(threads[i])
    ensures Batch(threads[i]) <= InFlight(threads)
  {
    Recollect(threads, i, threads[i]);
    assert threads[i := threads[i]] == threads;
  }

  /** Notifications move no check and change no count. */
  lemma {:induction false} WakingKeepsCounts(threads: seq<Thread>, woken: seq<Thread>)
    requires |woken| == |threads|
    requires forall i | 0 <= i < |threads| :: woken[i] == threads[i] || (threads[i].Waiting? && woken[i].Woken?)
    ensures InFlight(woken) == InFlight(threads)
    ensures IdleCount(woken) == IdleCount(threads)
    ensures InsideCount(woken) == InsideCount(threads)
    decreases |threads|
  {
    if threads != [] {
      WakingKeepsCounts(threads[..|threads| - 1], woken[..|threads| - 1]);
    }
  }

  // ---------------------------------------------------------------- the invariant

  ghost predicate AllPass(checks: multiset<Check>) {
    forall c | c in checks :: c.passes
  }

  /** A batch in progress: while its flag is up every check run so far passed; when it is down, some
      check added since the last `Wait` fails. */
  ghost predicate WorkOk(t: Thread, added: multiset<Check>) {
    t.Working? ==>
      && 0 < |t.batch| && t.next <= |t.batch|
      && (if t.fOk then forall j | 0 <= j < t.next :: t.batch[j].passes else !AllPass(added))
  }

  /** Queued checks have a worker that will come for them, unless no worker is waiting at all. */
  ghost predicate NotStranded(s: State) {
    s.queue != [] ==>
      || (exists i :: MASTER < i < |s.threads| && (s.threads[i].Woken? || s.threads[i].Working?))
      || (forall i | MASTER < i < |s.threads| :: !s.threads[i].Waiting?)
  }

  /** `threads` account for the counters and for every check added since the last `Wait`. */
  ghost predicate Accounts(s: State, threads: seq<Thread>, inside: int) {
    && s.nIdle == IdleCount(threads)
    && s.nTotal == InsideCount(threads) + inside
    && s.nTodo == |s.queue| + |InFlight(threads)|
    && s.added == multiset(s.queue) + InFlight(threads) + s.completed
  }

  ghost predicate ResultsOk(s: State) {
    && (if s.fAllOk then AllPass(s.completed) else !AllPass(s.added))
    && (forall v | v in s.verdicts :: v.ok <==> AllPass(v.checks))
  }

  /** A blocked master has something to wait for, and nothing it could do itself. */
  ghost predicate MasterOk(s: State)
    requires |s.threads| > 0
  {
    s.threads[MASTER].Waiting? ==> s.queue == [] && s.nTodo > 0
  }

  ghost predicate Inv(s: State) {
    && |s.threads| > 0
    && Accounts(s, s.threads, 0)
    && ResultsOk(s)
    && (forall i | 0 <= i < |s.threads| :: WorkOk(s.threads[i], s.added))
    && MasterOk(s)
    && NotStranded(s)
  }

  /** The invariant with the mutex in the hands of `t`, about to look for work. */
  ghost predicate AtHead(s: State, t: nat) {
    && t < |s.threads|
    && Accounts(s, s.threads[t := Outside], 1)
    && ResultsOk(s)
    && (forall i | 0 <= i < |s.threads| && i != t :: WorkOk(s.threads[i], s.added))
    && (t != MASTER ==> MasterOk(s))
    && (t == MASTER ==> NotStranded(s))
  }

  lemma {:induction false} PoppedIsTheRest(queue: seq<Check>, n: nat)
    requires n <= |queue|
    ensures multiset(queue[..|queue| - n]) + multiset(Popped(queue, n)) == multiset(queue)
    decreases n
  {
    if n == 0 {
      assert queue[..|queue|] == queue;
    } else {
      var shorter := queue[..|queue| - 1];
      PoppedIsTheRest(shorter, n - 1);
      assert shorter[..|shorter| - (n - 1)] == queue[..|queue| - n];
      var last := queue[|queue| - 1];
      assert Popped(queue, n) == [last] + Popped(shorter, n - 1);
      assert queue == shorter + [last];
      hide Popped;
      LastMoves(queue[..|queue| - n], Popped(shorter, n - 1), shorter, last);
    }
  }

  lemma LastMoves(rest: seq<Check>, popped: seq<Check>, shorter: seq<Check>, last: Check)
    requires multiset(rest) + multiset(popped) == multiset(shorter)
    ensures multiset(rest) + multiset([last] + popped) == multiset(shorter + [last])
  {
  }

  lemma HeadReturns(s: State)
    requires AtHead(s, MASTER) && s.queue == [] && s.nTodo == 0
    ensures Inv(Head(s, MASTER))
  {
    var base := s.threads[MASTER := Outside];
    assert InFlight(base) == multiset{};
    assert s.added == s.completed;
    forall i | 0 <= i < |base| ensures !base[i].Working? {
      InFlightHas(base, i);
      assert i != MASTER ==> WorkOk(s.threads[i], s.added);
      assert |Batch(base[i])| == 0;
    }
  }

  lemma WaitsAccounts(s: State, t: nat)
    requires t < |s.threads| && Accounts(s, s.threads[t := Outside], 1) && s.queue == [] && !(t == MASTER && s.nTodo == 0)
    ensures Accounts(Head(s, t), Head(s, t).threads, 0)
  {
    var base := s.threads[t := Outside];
    Recount(base, t, Waiting);
    Recollect(s.threads, t, Waiting);
    assert base[t := Waiting] == s.threads[t := Waiting];
    assert InFlight(base) + multiset{} == InFlight(base);
  }

  lemma HeadWaits(s: State, t: nat)
    requires AtHead(s, t) && s.queue == [] && !(t == MASTER && s.nTodo == 0)
    ensures Inv(Head(s, t))
  {
    WaitsAccounts(s, t);
    hide Accounts;
  }

  /** Moving a batch from the queue into flight loses nothing. */
  lemma MoveOver(queue: multiset<Check>, rest: multiset<Check>, batch: multiset<Check>, flight: multiset<Check>,
                 flight': multiset<Check>, completed: multiset<Check>)
    requires queue == rest + batch && flight' == flight + batch
    ensures queue + flight + completed == rest + flight' + completed
    ensures |flight'| == |flight| + |batch|
  {
  }

  lemma TakesFlight(s: State, t: nat, n: nat)
    requires t < |s.threads| && n <= |s.queue|
    ensures var w := Working(Popped(s.queue, n), 0, s.fAllOk);
            && InFlight(s.threads[t := w]) == InFlight(s.threads[t := Outside]) + multiset(Popped(s.queue, n))
            && IdleCount(s.threads[t := w]) == IdleCount(s.threads[t := Outside])
            && InsideCount(s.threads[t := w]) == InsideCount(s.threads[t := Outside]) + 1
  {
    hide InFlight, IdleCount, InsideCount, Popped, Batch;
    var w := Working(Popped(s.queue, n), 0, s.fAllOk);
    var base := s.threads[t := Outside];
    Recount(base, t, w);
    Recollect(s.threads, t, w);
    BatchWorking(w);
    assert base[t := w] == s.threads[t := w];
  }

  lemma TakesAccounts(s: State, t: nat)
    requires t < |s.threads| && Accounts(s, s.threads[t := Outside], 1) && s.queue != []
    ensures Accounts(Head(s, t), Head(s, t).threads, 0)
  {
    hide InFlight, IdleCount, InsideCount, Popped, BatchSize;
    BatchFits(s);
    var n := BatchSize(s);
    TakesFlight(s, t, n);
    PoppedIsTheRest(s.queue, n);
    var w := Working(Popped(s.queue, n), 0, s.fAllOk);
    MoveOver(multiset(s.queue), multiset(s.queue[..|s.queue| - n]), multiset(Popped(s.queue, n)),
             InFlight(s.threads[t := Outside]), InFlight(s.threads[t := w]), s.completed);
    var r := Head(s, t);
    assert r.threads == s.threads[t := w] && r.queue == s.queue[..|s.queue| - n];
    assert |multiset(Popped(s.queue, n))| == n;
  }

  lemma BatchWorking(t: Thread)
    requires t.Working?
    ensures Batch(t) == multiset(t.batch) && |Batch(t)| == |t.batch|
  {
  }

  lemma CountsAtHead(s: State, t: nat)
    requires AtHead(s, t)
    ensures Counts(s)
  {
  }

  lemma HeadTakes(s: State, t: nat)
    requires AtHead(s, t) && s.queue != []
    ensures Inv(Head(s, t))
  {
    CountsAtHead(s, t);
    TakesAccounts(s, t);
    TakesBatch(s, t);
    hide Accounts, Head, AllPass;
    TakesNotStranded(s, Head(s, t), t);
    hide NotStranded;
  }

  lemma TakesBatch(s: State, t: nat)
    requires t < |s.threads| && 0 <= s.nTotal && 0 <= s.nIdle && s.queue != []
    ensures var r := Head(s, t);
            && |r.threads| == |s.threads| && r == s.(queue := r.queue, threads := s.threads[t := r.threads[t]])
            && r.threads[t].Working? && r.threads[t].batch != [] && r.threads[t].next == 0 && r.threads[t].fOk == s.fAllOk
  {
    hide BatchSize, Popped;
    BatchFits(s);
  }

  lemma TakesNotStranded(s: State, r: State, t: nat)
    requires t < |s.threads| == |r.threads| && r.threads == s.threads[t := r.threads[t]] && r.threads[t].Working?
    requires s.queue != [] && (t == MASTER ==> NotStranded(s))
    ensures NotStranded(r)
  {
    if t == MASTER {
      assert forall i | MASTER < i < |s.threads| :: r.threads[i] == s.threads[i];
    } else {
      assert r.threads[t].Working?;
    }
  }

  lemma HeadKeeps(s: State, t: nat)
    requires AtHead(s, t)
    ensures Inv(Head(s, t))
  {
    if s.queue != [] {
      HeadTakes(s, t);
    } else if t == MASTER && s.nTodo == 0 {
      HeadReturns(s);
    } else {
      HeadWaits(s, t);
    }
  }

  lemma EnterReachesHead(s: State, t: nat)
    requires Inv(s) && t < |s.threads| && s.threads[t].Outside?
    ensures AtHead(s.(nTotal := s.nTotal + 1), t)
  {
    assert s.threads[t := Outside] == s.threads;
  }

  lemma WakeAccounts(s: State, t: nat)
    requires Accounts(s, s.threads, 0) && t < |s.threads| && (s.threads[t].Woken? || s.threads[t].Waiting?)
    ensures Accounts(s.(nIdle := s.nIdle - 1), s.threads[t := Outside], 1)
  {
    Recount(s.threads, t, Outside);
    InFlightHas(s.threads, t);
    AddNothing(InFlight(s.threads[t := Outside]));
  }

  lemma WakeReachesHead(s: State, t: nat)
    requires Inv(s) && t < |s.threads| && (s.threads[t].Woken? || s.threads[t].Waiting?)
    ensures AtHead(s.(nIdle := s.nIdle - 1), t)
  {
    WakeAccounts(s, t);
    hide Accounts;
  }

  lemma MergeAccounts(s: State, t: nat)
    requires Accounts(s, s.threads, 0) && t < |s.threads| && s.threads[t].Working?
    ensures Accounts(Merge(s, t), Merge(s, t).threads[t := Outside], 1)
  {
    hide InFlight, IdleCount, InsideCount, Batch;
    var m := Merge(s, t);
    var base := s.threads[t := Outside];
    Recount(s.threads, t, Outside);
    InFlightHas(s.threads, t);
    BatchWorking(s.threads[t]);
    WakingKeepsCounts(base, m.threads[t := Outside]);
    MergeMove(multiset(s.queue), InFlight(base), multiset(s.threads[t].batch), s.completed);
  }

  lemma MergeMove(queue: multiset<Check>, flight: multiset<Check>, batch: multiset<Check>, completed: multiset<Check>)
    ensures queue + (flight + batch) + completed == queue + flight + (completed + batch)
    ensures |flight + batch| == |flight| + |batch|
  {
  }

  lemma MergeResults(s: State, t: nat)
    requires Inv(s) && t < |s.threads| && s.threads[t].Working? && s.threads[t].next == |s.threads[t].batch|
    ensures ResultsOk(Merge(s, t))
  {
    assert WorkOk(s.threads[t], s.added);
    hide Accounts;
    var w, m := s.threads[t], Merge(s, t);
    if m.fAllOk {
      forall c | c in m.completed ensures c.passes {
        if c !in s.completed {
          assert c in w.batch;
        }
      }
    }
  }

  lemma FinishReachesHead(s: State, t: nat)
    requires Inv(s) && t < |s.threads| && s.threads[t].Working? && s.threads[t].next == |s.threads[t].batch|
    ensures AtHead(Merge(s, t), t)
  {
    MergeAccounts(s, t);
    MergeResults(s, t);
    var m := Merge(s, t);
    assert m.nTodo >= 0;
    hide Accounts, ResultsOk, AllPass;
    forall i | 0 <= i < |m.threads| && i != t ensures WorkOk(m.threads[i], m.added) {
      assert WorkOk(s.threads[i], s.added);
    }
    hide WorkOk;
    if t == MASTER {
      assert m.threads == s.threads;
    }
  }

  function Advanced(w: Thread): Thread
    requires w.Working? && w.next < |w.batch|
  {
    w.(next := w.next + 1, fOk := w.fOk && w.batch[w.next].passes)
  }

  lemma RunAccounts(s: State, t: nat)
    requires Accounts(s, s.threads, 0) && t < |s.threads| && s.threads[t].Working? && s.threads[t].next < |s.threads[t].batch|
    ensures var threads := s.threads[t := Advanced(s.threads[t])]; Accounts(s.(threads := threads), threads, 0)
    ensures s.threads[t].batch[s.threads[t].next] in s.added
  {
    Recount(s.threads, t, Advanced(s.threads[t]));
    Recollect(s.threads, t, Advanced(s.threads[t]));
    InFlightHas(s.threads, t);
    assert s.threads[t].batch[s.threads[t].next] in Batch(s.threads[t]);
  }

  lemma RunKeeps(s: State, t: nat)
    requires Inv(s) && Enabled(s, Run(t))
    ensures Inv(Step(s, Run(t)))
  {
    hide Accounts, WorkOk, AllPass;
    RunAccounts(s, t);
    RunWork(s, t);
    var r := Step(s, Run(t));
    assert forall i | 0 <= i < |s.threads| && i != t :: r.threads[i] == s.threads[i];
    assert r.threads[t].Working?;
  }

  lemma RunWork(s: State, t: nat)
    requires Inv(s) && Enabled(s, Run(t))
    ensures WorkOk(Advanced(s.threads[t]), s.added)
  {
    RunAccounts(s, t);
    hide Accounts;
    assert WorkOk(s.threads[t], s.added);
  }

  lemma AddAccounts(s: State, a: Action)
    requires Inv(s) && Enabled(s, a) && a.Add?
    ensures Accounts(Step(s, a), Step(s, a).threads, 0)
  {
    WakingKeepsCounts(s.threads, Notify(s.threads, a.checks, a.who));
    assert multiset(s.queue + a.checks) == multiset(s.queue) + multiset(a.checks);
  }

  lemma AddKeeps(s: State, a: Action)
    requires Inv(s) && Enabled(s, a) && a.Add?
    ensures Inv(Step(s, a))
  {
    hide Accounts, WorkOk, AllPass;
    AddAccounts(s, a);
    AddWork(s, a);
    var r := Step(s, a);
    GrowingKeepsFailure(s.added, multiset(a.checks));
    if |a.checks| == 1 && a.who != -1 {
      assert r.threads[a.who].Woken?;
    }
  }

  lemma AddWork(s: State, a: Action)
    requires Inv(s) && Enabled(s, a) && a.Add?
    ensures forall i | 0 <= i < |s.threads| :: WorkOk(Step(s, a).threads[i], Step(s, a).added)
  {
    hide Accounts;
    var r := Step(s, a);
    GrowingKeepsFailure(s.added, multiset(a.checks));
    forall i | 0 <= i < |r.threads| ensures WorkOk(r.threads[i], r.added) {
      assert WorkOk(s.threads[i], s.added);
    }
  }

  lemma GrowingKeepsFailure(a: multiset<Check>, b: multiset<Check>)
    ensures !AllPass(a) ==> !AllPass(a + b)
  {
    if !AllPass(a) {
      var c :| c in a && !c.passes;
      assert c in a + b;
    }
  }

  /** Every step of every thread keeps the invariant. */
  lemma StepKeeps(s: State, a: Action)
    requires Inv(s) && Enabled(s, a)
    ensures Inv(Step(s, a))
  {
    hide Inv, AtHead, Head;
    match a {
      case Add(_, _) => AddKeeps(s, a);
      case Enter(t) =>
        EnterReachesHead(s, t);
        HeadKeeps(s.(nTotal := s.nTotal + 1), t);
      case Run(t) => RunKeeps(s, t);
      case Finish(t) =>
        FinishReachesHead(s, t);
        HeadKeeps(Merge(s, t), t);
      case Wake(t) =>
        WakeReachesHead(s, t);
        HeadKeeps(s.(nIdle := s.nIdle - 1), t);
    }
  }

  // ---------------------------------------------------------------- every run

  /** A queue with a master and `workers` worker threads, none of which has started. */
  function Initial(workers: nat, nBatchSize: nat): State {
    State([], 0, 0, true, 0, nBatchSize, seq(workers + 1, _ => Outside), multiset{}, multiset{}, [])
  }

  lemma {:induction false} AllOutside(threads: seq<Thread>)
    requires forall i | 0 <= i < |threads| :: threads[i].Outside?
    ensures InFlight(threads) == multiset{} && IdleCount(threads) == 0 && InsideCount(threads) == 0
    decreases |threads|
  {
    if threads != [] {
      AllOutside(threads[..|threads| - 1]);
    }
  }

  /** The actions can happen one after the other, starting in `s`. */
  ghost predicate Possible(s: State, actions: seq<Action>)
    decreases |actions|
  {
    actions == [] || (Enabled(s, actions[0]) && Possible(Step(s, actions[0]), actions[1..]))
  }

  ghost function After(s: State, actions: seq<Action>): State
    requires Possible(s, actions)
    decreases |actions|
  {
    if actions == [] then s else After(Step(s, actions[0]), actions[1..])
  }

  lemma {:induction false} RunKeepsInv(s: State, actions: seq<Action>)
    requires Inv(s) && Possible(s, actions)
    ensures Inv(After(s, actions))
    decreases |actions|
  {
    hide Inv, Step;
    if actions != [] {
      StepKeeps(s, actions[0]);
      RunKeepsInv(Step(s, actions[0]), actions[1..]);
    }
  }

  /** For any number of workers, any batch size and any interleaving: the counter of outstanding checks
      is exact, and every `Wait` that has returned said `true` exactly when all the checks added for it
      pass. */
  lemma EveryRunIsRight(workers: nat, nBatchSize: nat, actions: seq<Action>)
    requires Possible(Initial(workers, nBatchSize), actions)
    ensures var s := After(Initial(workers, nBatchSize), actions);
            && s.nTodo == |s.queue| + |InFlight(s.threads)|
            && (forall v | v in s.verdicts :: v.ok <==> AllPass(v.checks))
            && (|s.threads| > 0 && s.threads[MASTER].Waiting? ==> s.nTodo > 0)
  {
    AllOutside(Initial(workers, nBatchSize).threads);
    assert Inv(Initial(workers, nBatchSize));
    RunKeepsInv(Initial(workers, nBatchSize), actions);
  }

  lemma ReturningStep(s: State, a: Action)
    requires Enabled(s, a) && |Step(s, a).verdicts| > |s.verdicts|
    ensures var r := Step(s, a);
            && r.queue == [] && r.nTodo == 0 && r.threads[MASTER].Outside?
            && r.verdicts == s.verdicts + [Verdict(s.added, r.verdicts[|s.verdicts|].ok)]
  {
  }

  /** When `Wait` returns nothing is queued, nothing is in flight, and its verdict is about all the
      checks added since the one before. */
  lemma WaitReturnsWhenDone(s: State, a: Action)
    requires Inv(s) && Enabled(s, a) && |Step(s, a).verdicts| > |s.verdicts|
    ensures var r := Step(s, a);
            && r.queue == [] && r.nTodo == 0 && InFlight(r.threads) == multiset{}
            && r.verdicts == s.verdicts + [Verdict(s.added, r.verdicts[|s.verdicts|].ok)]
            && (r.verdicts[|s.verdicts|].ok <==> AllPass(s.added))
            && r.threads[MASTER].Outside?
  {
    StepKeeps(s, a);
    ReturningStep(s, a);
    hide Step, InFlight, AllPass, WorkOk, NotStranded;
    var r := Step(s, a);
    assert r.verdicts[|s.verdicts|] in r.verdicts;
    assert |InFlight(r.threads)| == 0;
  }

  // ---------------------------------------------------------------- Wait returns

  /** A step that brings the queue forward: not a new batch of checks, not a call of `Wait`, and not a
      thread waking up for no reason. */
  predicate Forward(s: State, a: Action) {
    match a
    case Add(_, _) => false
    case Enter(t) => t != MASTER
    case Run(_) => true
    case Finish(_) => true
    case Wake(t) => t < |s.threads| && s.threads[t].Woken?
  }

  lemma {:induction false} WorkerInFlight(threads: seq<Thread>) returns (i: nat)
    requires InFlight(threads) != multiset{}
    ensures i < |threads| && threads[i].Working?
    decreases |threads|
  {
    var m := |threads| - 1;
    if threads[m].Working? {
      i := m;
    } else {
      i := WorkerInFlight(threads[..m]);
    }
  }

  /** While the master is in `Wait` some thread can always take a step forward. */
  lemma NoDeadlock(s: State) returns (a: Action)
    requires Inv(s) && !s.threads[MASTER].Outside?
    ensures Forward(s, a) && Enabled(s, a)
  {
    var t: nat := MASTER;
    if s.threads[MASTER].Waiting? {
      assert |InFlight(s.threads)| > 0;
      t := WorkerInFlight(s.threads);
    }
    assert WorkOk(s.threads[t], s.added);
    if s.threads[t].Woken? {
      IdleAtLeastOne(s.threads, t);
      a := Wake(t);
    } else if s.threads[t].next < |s.threads[t].batch| {
      a := Run(t);
    } else {
      a := Finish(t);
    }
  }

  lemma {:induction false} IdleAtLeastOne(threads: seq<Thread>, t: nat)
    requires t < |threads| && threads[t].Woken?
    ensures IdleCount(threads) > 0
    decreases |threads|
  {
    if t < |threads| - 1 {
      IdleAtLeastOne(threads[..|threads| - 1], t);
    }
  }

  function Effort(t: Thread): nat {
    match t
    case Outside => 1
    case Waiting => 0
    case Woken => 2
    case Working(batch, next, _) => 3 + if next <= |batch| then |batch| - next else 0
  }

  function TotalEffort(threads: seq<Thread>): nat
    decreases |threads|
  {
    if threads == [] then 0 else TotalEffort(threads[..|threads| - 1]) + Effort(threads[|threads| - 1])
  }

  /** What is left to do: it bounds the steps forward. */
  function Measure(s: State): nat {
    4 * |s.queue| + TotalEffort(s.threads)
  }

  lemma {:induction false} Reweigh(threads: seq<Thread>, i: nat, t: Thread)
    requires i < |threads|
    ensures TotalEffort(threads[i := t]) == TotalEffort(threads) - Effort(threads[i]) + Effort(t)
    decreases |threads|
  {
    var m := |threads| - 1;
    if i < m {
      Reweigh(threads[..m], i, t);
      assert threads[i := t][..m] == threads[..m][i := t];
    } else {
      assert threads[i := t][..m] == threads[..m];
    }
  }

  /** Looking for work costs a thread at most what it brings. */
  lemma HeadDecreases(s: State, t: nat)
    requires t < |s.threads| && Counts(s) && Effort(s.threads[t]) > 0
    requires s.queue == [] && t == MASTER && s.nTodo == 0 ==> Effort(s.threads[t]) > 1
    ensures Measure(Head(s, t)) < Measure(s)
  {
    var r := Head(s, t);
    Reweigh(s.threads, t, r.threads[t]);
    assert r.threads == s.threads[t := r.threads[t]];
    if s.queue != [] {
      BatchFits(s);
    }
  }

  lemma MergeWeighs(s: State, t: nat)
    requires Inv(s) && Enabled(s, Finish(t)) && Merge(s, t).threads != s.threads
    ensures Measure(Merge(s, t)) == Measure(s) + 2 && s.queue == [] && t != MASTER
  {
    Reweigh(s.threads, MASTER, Woken);
  }

  lemma FinishDecreases(s: State, t: nat)
    requires Inv(s) && Enabled(s, Finish(t))
    ensures Measure(Step(s, Finish(t))) < Measure(s)
  {
    var m := Merge(s, t);
    if m.threads != s.threads {
      MergeWeighs(s, t);
      Reweigh(m.threads, t, Waiting);
    } else {
      HeadDecreases(m, t);
    }
  }

  lemma RunDecreases(s: State, t: nat)
    requires Enabled(s, Run(t))
    ensures Measure(Step(s, Run(t))) < Measure(s)
  {
    Reweigh(s.threads, t, Advanced(s.threads[t]));
  }

  lemma SameMeasure(s: State, r: State)
    requires r.queue == s.queue && r.threads == s.threads
    ensures Measure(r) == Measure(s)
  {
  }

  lemma ForwardDecreases(s: State, a: Action)
    requires Inv(s) && Enabled(s, a) && Forward(s, a)
    ensures Measure(Step(s, a)) < Measure(s)
  {
    hide Measure, Inv, Head;
    match a {
      case Enter(t) =>
        SameMeasure(s, s.(nTotal := s.nTotal + 1));
        HeadDecreases(s.(nTotal := s.nTotal + 1), t);
      case Run(t) => RunDecreases(s, t);
      case Finish(t) => FinishDecreases(s, t);
      case Wake(t) =>
        SameMeasure(s, s.(nIdle := s.nIdle - 1));
        HeadDecreases(s.(nIdle := s.nIdle - 1), t);
    }
  }

  ghost predicate AllForward(s: State, actions: seq<Action>)
    requires Possible(s, actions)
    decreases |actions|
  {
    actions == [] || (Forward(s, actions[0]) && AllForward(Step(s, actions[0]), actions[1..]))
  }

  /** Only so many steps forward are possible, and as long as the master is in `Wait` there is another
      one: without more checks and without threads waking up for no reason, `Wait` returns. */
  lemma {:induction false} WaitReturns(s: State, actions: seq<Action>)
    requires Inv(s) && Possible(s, actions) && AllForward(s, actions)
    ensures |actions| + Measure(After(s, actions)) <= Measure(s)
    ensures |After(s, actions).threads| > 0
    ensures (forall a :: Forward(After(s, actions), a) ==> !Enabled(After(s, actions), a)) ==>
              After(s, actions).threads[MASTER].Outside?
    decreases |actions|
  {
    if actions == [] {
      if !s.threads[MASTER].Outside? {
        var a := NoDeadlock(s);
      }
    } else {
      StepKeeps(s, actions[0]);
      ForwardDecreases(s, actions[0]);
      hide Inv, Step, Forward, Enabled, Measure;
      WaitReturns(Step(s, actions[0]), actions[1..]);
    }
  }
}
