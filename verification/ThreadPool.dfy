/**
 The bounded thread pool as an interleaved step system.

 Every step is one mutex-protected section, one notification or one move of a worker outside the lock.
 A run is any sequence of such steps from the constructed pool, so the theorems below hold under every
 schedule, including spurious wake-ups, rejected tasks and a pool that is stopped and started again.
 */
module ThreadPool {

  /** What a worker reports when it next takes the mutex. */
  datatype Outcome = Nothing | Good | Bad

  /** Where a worker thread is. */
  datatype Worker<T> =
    | Fresh                        // spawned, running the init function
    | AtLock(outcome: Outcome)     // about to lock the mutex at the top of the loop
    | Waiting                      // blocked in condition_.wait
    | Woken                        // notified, about to re-acquire the mutex
    | Running(task: T)             // in handleTask, outside the mutex
    | Exited
  {
    /** Counted in busyThreadsCounter. */
    predicate Busy() {
      Running? || (AtLock? && outcome != Nothing)
    }

    /** Will look at the queue without being notified. */
    predicate WillLook() {
      Fresh? || AtLock? || Woken?
    }
  }

  datatype Pool<T> = Pool(
    threadsNumber: nat,
    queueLength: nat,
    started: bool,
    queue: seq<T>,
    busy: int,
    good: nat,
    bad: nat,
    workers: seq<Worker<T>>,
    unsent: nat,         // addTask callers between releasing the mutex and notify_one
    accepted: seq<T>,    // history: tasks pushed, in order
    taken: seq<T>,       // history: tasks popped, in order
    returned: seq<T>,    // history: tasks whose handleTask returned
    thrown: seq<T>)      // history: tasks whose handleTask threw

  function Create<T>(threadsNumber: nat, queueLength: nat): Pool<T> {
    Pool(threadsNumber, queueLength, false, [], 0, 0, 0, [], 0, [], [], [], [])
  }

  function Start<T>(p: Pool<T>): Pool<T> {
    if p.started then p
    else p.(workers := p.workers + seq(p.threadsNumber, _ => Fresh), started := true)
  }

  function Wake<T>(w: Worker<T>): Worker<T> {
    if w.Waiting? then Woken else w
  }

  function Stop<T>(p: Pool<T>): Pool<T> {
    p.(started := false, workers := seq(|p.workers|, i requires 0 <= i < |p.workers| => Wake(p.workers[i])))
  }

  /** The locked part of addTask. The caller owes a notification whether or not the task was taken. */
  function AddTask<T>(p: Pool<T>, task: T): Pool<T> {
    if !p.started || |p.queue| >= p.queueLength then p.(unsent := p.unsent + 1)
    else p.(queue := p.queue + [task], accepted := p.accepted + [task], unsent := p.unsent + 1)
  }

  function Settle<T>(p: Pool<T>, outcome: Outcome): Pool<T> {
    match outcome
    case Nothing => p
    case Good => p.(good := p.good + 1, busy := p.busy - 1)
    case Bad => p.(bad := p.bad + 1, busy := p.busy - 1)
  }

  /** The inner loop of workMethod, from holding the mutex to leaving, waiting or popping. */
  function Look<T>(p: Pool<T>, w: nat): Pool<T>
    requires w < |p.workers|
  {
    if !p.started then p.(workers := p.workers[w := Exited])
    else if p.queue == [] then p.(workers := p.workers[w := Waiting])
    else p.(workers := p.workers[w := Running(p.queue[0])], queue := p.queue[1..],
            busy := p.busy + 1, taken := p.taken + [p.queue[0]])
  }

  datatype Move<T> =
    | DoStart
    | DoStop
    | DoAddTask(newTask: T)
    | DoNotify(sleeper: nat)
    | DoInit(w: nat)
    | DoSpurious(w: nat)
    | DoLook(w: nat)
    | DoFinish(w: nat, ok: bool)

  ghost predicate Enabled<T>(p: Pool<T>, m: Move<T>) {
    match m
    case DoStart => true
    case DoStop => true
    case DoAddTask(_) => true
    // notify_one picks some waiting thread, and none only when there is none
    case DoNotify(w) => p.unsent > 0 &&
      ((w < |p.workers| && p.workers[w].Waiting?) || forall i :: 0 <= i < |p.workers| ==> !p.workers[i].Waiting?)
    case DoInit(w) => w < |p.workers| && p.workers[w].Fresh?
    case DoSpurious(w) => w < |p.workers| && p.workers[w].Waiting?
    case DoLook(w) => w < |p.workers| && (p.workers[w].AtLock? || p.workers[w].Woken?)
    case DoFinish(w, _) => w < |p.workers| && p.workers[w].Running?
  }

  function Apply<T>(p: Pool<T>, m: Move<T>): Pool<T> {
    match m
    case DoStart => Start(p)
    case DoStop => Stop(p)
    case DoAddTask(t) => AddTask(p, t)
    case DoNotify(w) =>
      var q := p.(unsent := if p.unsent > 0 then p.unsent - 1 else 0);
      if w < |p.workers| then q.(workers := q.workers[w := Wake(q.workers[w])]) else q
    case DoInit(w) => if w < |p.workers| then p.(workers := p.workers[w := AtLock(Nothing)]) else p
    case DoSpurious(w) => if w < |p.workers| then p.(workers := p.workers[w := Woken]) else p
    case DoLook(w) =>
      if w < |p.workers| then
        Look(if p.workers[w].AtLock? then Settle(p, p.workers[w].outcome) else p, w)
      else p
    case DoFinish(w, ok) =>
      if w >= |p.workers| || !p.workers[w].Running? then p
      else if ok then p.(workers := p.workers[w := AtLock(Good)], returned := p.returned + [p.workers[w].task])
      else p.(workers := p.workers[w := AtLock(Bad)], thrown := p.thrown + [p.workers[w].task])
  }

  /** A run: the pools passed through from a constructed pool, one enabled move at a time. */
  ghost predicate Run<T>(states: seq<Pool<T>>, moves: seq<Move<T>>) {
    && |states| == |moves| + 1
    && states[0] == Create(states[0].threadsNumber, states[0].queueLength)
    && forall i :: 0 <= i < |moves| ==> Enabled(states[i], moves[i]) && states[i + 1] == Apply(states[i], moves[i])
  }

  // ----- counting workers -----

  function Count<T>(ws: seq<Worker<T>>, f: Worker<T> -> bool): nat {
    if ws == [] then 0 else (if f(ws[|ws| - 1]) then 1 else 0) + Count(ws[..|ws| - 1], f)
  }

  lemma {:induction false} CountUpdate<T>(ws: seq<Worker<T>>, f: Worker<T> -> bool, i: nat, w: Worker<T>)
    requires i < |ws|
    ensures Count(ws[i := w], f) == Count(ws, f) - (if f(ws[i]) then 1 else 0) + (if f(w) then 1 else 0)
  {
    var n := |ws| - 1;
    if i == n {
      assert ws[i := w][..n] == ws[..n];
    } else {
      assert ws[i := w][..n] == ws[..n][i := w];
      CountUpdate(ws[..n], f, i, w);
    }
  }

  lemma {:induction false} CountFresh<T>(ws: seq<Worker<T>>, f: Worker<T> -> bool, n: nat)
    ensures Count(ws + seq(n, _ => Fresh), f) == Count(ws, f) + (if f(Fresh) then n else 0)
  {
    var more: seq<Worker<T>> := seq(n, _ => Fresh);
    if n == 0 {
      assert ws + more == ws;
    } else {
      var fewer: seq<Worker<T>> := seq(n - 1, _ => Fresh);
      assert (ws + more)[..|ws + more| - 1] == ws + fewer;
      CountFresh(ws, f, n - 1);
    }
  }

  lemma {:induction false} CountSame<T>(ws: seq<Worker<T>>, vs: seq<Worker<T>>, f: Worker<T> -> bool)
    requires |ws| == |vs| && forall i :: 0 <= i < |ws| ==> f(ws[i]) == f(vs[i])
    ensures Count(ws, f) == Count(vs, f)
  {
    if ws != [] {
      CountSame(ws[..|ws| - 1], vs[..|vs| - 1], f);
    }
  }

  lemma {:induction false} CountZero<T>(ws: seq<Worker<T>>, f: Worker<T> -> bool)
    ensures Count(ws, f) <= |ws|
    ensures Count(ws, f) == 0 <==> forall i :: 0 <= i < |ws| ==> !f(ws[i])
  {
    if ws != [] {
      CountZero(ws[..|ws| - 1], f);
      assert forall i :: 0 <= i < |ws| - 1 ==> ws[i] == ws[..|ws| - 1][i];
    }
  }

  /** How often `t` is in some worker's hands. */
  ghost function InHand<T>(ws: seq<Worker<T>>, t: T): nat {
    Count(ws, (w: Worker<T>) => w == Running(t))
  }

  // ----- the invariant -----

  ghost function BusyCount<T>(p: Pool<T>): nat { Count(p.workers, (w: Worker<T>) => w.Busy()) }
  ghost function OwesCount<T>(p: Pool<T>, o: Outcome): nat { Count(p.workers, (w: Worker<T>) => w == AtLock(o)) }
  ghost function LookCount<T>(p: Pool<T>): nat { Count(p.workers, (w: Worker<T>) => w.WillLook()) }
  ghost function WaitCount<T>(p: Pool<T>): nat { Count(p.workers, (w: Worker<T>) => w.Waiting?) }
  ghost function ExitCount<T>(p: Pool<T>): nat { Count(p.workers, (w: Worker<T>) => w.Exited?) }

  /** Nothing is lost, duplicated or reordered, and the counters add up. */
  ghost predicate Conserved<T>(p: Pool<T>) {
    && |p.queue| <= p.queueLength
    && p.taken + p.queue == p.accepted
    && p.busy == BusyCount(p)
    && |p.taken| == p.busy + p.good + p.bad
  }

  /** Every popped task is in one pair of hands or finished, and finishes are counted by outcome. */
  ghost predicate Accounted<T>(p: Pool<T>, t: T) {
    && multiset(p.taken)[t] == InHand(p.workers, t) + multiset(p.returned)[t] + multiset(p.thrown)[t]
    && |p.returned| == p.good + OwesCount(p, Good)
    && |p.thrown| == p.bad + OwesCount(p, Bad)
  }

  /** While some worker sleeps, each queued task has its own awake worker or unsent notification. */
  ghost predicate NoLostWakeup<T>(p: Pool<T>) {
    && (WaitCount(p) > 0 ==> |p.queue| <= LookCount(p) + p.unsent)
    && (!p.started ==> WaitCount(p) == 0)
  }

  /** Workers leave only while the pool is stopped, so a started pool keeps the threads it was given. */
  ghost predicate Staffed<T>(p: Pool<T>) {
    p.started ==> p.threadsNumber <= |p.workers| - ExitCount(p)
  }

  ghost predicate Inv<T>(p: Pool<T>) {
    Conserved(p) && NoLostWakeup(p) && Staffed(p)
  }

  /** How replacing one worker shifts the four counts. */
  lemma UpdateCounts<T>(p: Pool<T>, q: Pool<T>, i: nat, w: Worker<T>)
    requires i < |p.workers| && q.workers == p.workers[i := w]
    ensures BusyCount(q) == BusyCount(p) - (if p.workers[i].Busy() then 1 else 0) + (if w.Busy() then 1 else 0)
    ensures LookCount(q) == LookCount(p) - (if p.workers[i].WillLook() then 1 else 0) + (if w.WillLook() then 1 else 0)
    ensures WaitCount(q) == WaitCount(p) - (if p.workers[i].Waiting? then 1 else 0) + (if w.Waiting? then 1 else 0)
    ensures ExitCount(q) == ExitCount(p) - (if p.workers[i].Exited? then 1 else 0) + (if w.Exited? then 1 else 0)
  {
    CountUpdate(p.workers, (w: Worker<T>) => w.Busy(), i, w);
    CountUpdate(p.workers, (w: Worker<T>) => w.WillLook(), i, w);
    CountUpdate(p.workers, (w: Worker<T>) => w.Waiting?, i, w);
    CountUpdate(p.workers, (w: Worker<T>) => w.Exited?, i, w);
  }

  lemma StartKeeps<T>(p: Pool<T>)
    requires Inv(p)
    ensures Inv(Start(p))
  {
    CountFresh(p.workers, (w: Worker<T>) => w.Busy(), p.threadsNumber);
    CountFresh(p.workers, (w: Worker<T>) => w.WillLook(), p.threadsNumber);
    CountFresh(p.workers, (w: Worker<T>) => w.Waiting?, p.threadsNumber);
    CountFresh(p.workers, (w: Worker<T>) => w.Exited?, p.threadsNumber);
    CountZero(p.workers, (w: Worker<T>) => w.Exited?);
  }

  lemma StopKeeps<T>(p: Pool<T>)
    requires Inv(p)
    ensures Inv(Stop(p))
  {
    var q := Stop(p);
    CountSame(p.workers, q.workers, (w: Worker<T>) => w.Busy());
    CountZero(q.workers, (w: Worker<T>) => w.Waiting?);
  }

  lemma LookKeeps<T>(p: Pool<T>, w: nat)
    requires Inv(p) && Enabled(p, DoLook(w))
    ensures Inv(Apply(p, DoLook(w)))
  {
    var q := Apply(p, DoLook(w));
    UpdateCounts(p, q, w, q.workers[w]);
    if p.started && p.queue != [] {
      assert q.taken + q.queue == p.taken + p.queue;
    }
  }

  /** Every move keeps the invariant. */
  lemma MoveKeepsInv<T>(p: Pool<T>, m: Move<T>)
    requires Inv(p) && Enabled(p, m)
    ensures Inv(Apply(p, m))
  {
    var q := Apply(p, m);
    match m
    case DoStart => StartKeeps(p);
    case DoStop => StopKeeps(p);
    case DoAddTask(t) =>
      if p.started && |p.queue| < p.queueLength {
        assert q.taken + q.queue == p.accepted + [t];
      }
    case DoNotify(w) =>
      if w < |p.workers| {
        UpdateCounts(p, q, w, q.workers[w]);
      }
      CountZero(p.workers, (v: Worker<T>) => v.Waiting?);
    case DoInit(w) => UpdateCounts(p, q, w, q.workers[w]);
    case DoSpurious(w) => UpdateCounts(p, q, w, q.workers[w]);
    case DoLook(w) => LookKeeps(p, w);
    case DoFinish(w, ok) => UpdateCounts(p, q, w, q.workers[w]);
  }

  /** How a move of one worker shifts what it holds and owes. */
  lemma UpdateAccount<T>(p: Pool<T>, q: Pool<T>, i: nat, w: Worker<T>, t: T)
    requires i < |p.workers| && q.workers == p.workers[i := w]
    ensures InHand(q.workers, t) ==
      InHand(p.workers, t) - (if p.workers[i] == Running(t) then 1 else 0) + (if w == Running(t) then 1 else 0)
    ensures OwesCount(q, Good) ==
      OwesCount(p, Good) - (if p.workers[i] == AtLock(Good) then 1 else 0) + (if w == AtLock(Good) then 1 else 0)
    ensures OwesCount(q, Bad) ==
      OwesCount(p, Bad) - (if p.workers[i] == AtLock(Bad) then 1 else 0) + (if w == AtLock(Bad) then 1 else 0)
  {
    CountUpdate(p.workers, (w: Worker<T>) => w == Running(t), i, w);
    CountUpdate(p.workers, (w: Worker<T>) => w == AtLock(Good), i, w);
    CountUpdate(p.workers, (w: Worker<T>) => w == AtLock(Bad), i, w);
  }

  lemma StartStopKeepAccount<T>(p: Pool<T>, t: T)
    requires Accounted(p, t)
    ensures Accounted(Start(p), t) && Accounted(Stop(p), t)
  {
    var q := Stop(p);
    CountFresh(p.workers, (w: Worker<T>) => w == Running(t), p.threadsNumber);
    CountFresh(p.workers, (w: Worker<T>) => w == AtLock(Good), p.threadsNumber);
    CountFresh(p.workers, (w: Worker<T>) => w == AtLock(Bad), p.threadsNumber);
    CountSame(p.workers, q.workers, (w: Worker<T>) => w == Running(t));
    CountSame(p.workers, q.workers, (w: Worker<T>) => w == AtLock(Good));
    CountSame(p.workers, q.workers, (w: Worker<T>) => w == AtLock(Bad));
  }

  /** A worker about to look, with nothing left to report. */
  function Reported<T>(p: Pool<T>, w: nat): Pool<T>
    requires w < |p.workers|
  {
    (if p.workers[w].AtLock? then Settle(p, p.workers[w].outcome) else p).(workers := p.workers[w := AtLock(Nothing)])
  }

  lemma ReportKeepsAccount<T>(p: Pool<T>, w: nat, t: T)
    requires Accounted(p, t) && w < |p.workers| && (p.workers[w].AtLock? || p.workers[w].Woken?)
    ensures Accounted(Reported(p, w), t)
  {
    UpdateAccount(p, Reported(p, w), w, AtLock(Nothing), t);
  }

  lemma TakeKeepsAccount<T>(p: Pool<T>, w: nat, t: T)
    requires Accounted(p, t) && w < |p.workers| && p.workers[w] == AtLock(Nothing)
    ensures Accounted(Look(p, w), t)
  {
    var q := Look(p, w);
    UpdateAccount(p, q, w, q.workers[w], t);
    if p.started && p.queue != [] {
      assert multiset(q.taken) == multiset(p.taken) + multiset{p.queue[0]};
    }
  }

  lemma LookKeepsAccount<T>(p: Pool<T>, w: nat, t: T)
    requires Accounted(p, t) && Enabled(p, DoLook(w))
    ensures Accounted(Apply(p, DoLook(w)), t)
  {
    ReportKeepsAccount(p, w, t);
    TakeKeepsAccount(Reported(p, w), w, t);
    LookInTwoSteps(p, w);
  }

  lemma LookInTwoSteps<T>(p: Pool<T>, w: nat)
    requires Enabled(p, DoLook(w))
    ensures Apply(p, DoLook(w)) == Look(Reported(p, w), w)
  {
    Overwritten(p.workers, w, AtLock(Nothing), Exited);
    Overwritten(p.workers, w, AtLock(Nothing), Waiting);
    if p.queue != [] {
      Overwritten(p.workers, w, AtLock(Nothing), Running(p.queue[0]));
    }
  }

  lemma Overwritten<T>(ws: seq<Worker<T>>, w: nat, a: Worker<T>, b: Worker<T>)
    requires w < |ws|
    ensures ws[w := a][w := b] == ws[w := b]
  {
  }

  lemma FinishKeepsAccount<T>(p: Pool<T>, w: nat, ok: bool, t: T)
    requires Accounted(p, t) && Enabled(p, DoFinish(w, ok))
    ensures Accounted(Apply(p, DoFinish(w, ok)), t)
  {
    var q := Apply(p, DoFinish(w, ok));
    UpdateAccount(p, q, w, AtLock(if ok then Good else Bad), t);
  }

  /** Every move keeps the account of every task. */
  lemma MoveKeepsAccount<T>(p: Pool<T>, m: Move<T>, t: T)
    requires Accounted(p, t) && Enabled(p, m)
    ensures Accounted(Apply(p, m), t)
  {
    var q := Apply(p, m);
    match m
    case DoStart => StartStopKeepAccount(p, t);
    case DoStop => StartStopKeepAccount(p, t);
    case DoAddTask(_) =>
    case DoNotify(w) => if w < |p.workers| { UpdateAccount(p, q, w, q.workers[w], t); }
    case DoInit(w) => UpdateAccount(p, q, w, q.workers[w], t);
    case DoSpurious(w) => UpdateAccount(p, q, w, q.workers[w], t);
    case DoLook(w) => LookKeepsAccount(p, w, t);
    case DoFinish(w, ok) => FinishKeepsAccount(p, w, ok, t);
  }

  lemma {:induction false} RunAccount<T>(states: seq<Pool<T>>, moves: seq<Move<T>>, k: nat, t: T)
    requires Run(states, moves) && k < |states|
    ensures Accounted(states[k], t)
  {
    if k > 0 {
      RunAccount(states, moves, k - 1, t);
      MoveKeepsAccount(states[k - 1], moves[k - 1], t);
    }
  }

  /** The invariant holds at every point of every run. */
  lemma {:induction false} RunInv<T>(states: seq<Pool<T>>, moves: seq<Move<T>>, k: nat)
    requires Run(states, moves) && k < |states|
    ensures Inv(states[k])
  {
    if k > 0 {
      RunInv(states, moves, k - 1);
      MoveKeepsInv(states[k - 1], moves[k - 1]);
    }
  }

  // ----- the theorems -----

  /**
   Conservation under every interleaving: the queue respects its limit, tasks leave in the order they
   were accepted, every accepted task is queued, being handled or counted exactly once, and the busy
   counter neither underflows nor exceeds the number of threads; it is zero once all workers left.
   */
  lemma Conservation<T>(states: seq<Pool<T>>, moves: seq<Move<T>>, k: nat)
    requires Run(states, moves) && k < |states|
    ensures var p := states[k];
      && |p.queue| <= p.queueLength
      && p.taken <= p.accepted && p.queue == p.accepted[|p.taken|..]
      && |p.accepted| == |p.queue| + p.busy + p.good + p.bad
      && 0 <= p.busy <= |p.workers|
      && ((forall i :: 0 <= i < |p.workers| ==> p.workers[i].Exited?) ==> p.busy == 0)
  {
    RunInv(states, moves, k);
    CountZero(states[k].workers, (w: Worker<T>) => w.Busy());
  }

  /**
   Exactly-once handling: each task is, as often as it was accepted, queued, in a worker's hands or
   finished; and the good and bad counters are the finishes by outcome that have been reported.
   */
  lemma ExactlyOnce<T>(states: seq<Pool<T>>, moves: seq<Move<T>>, k: nat, t: T)
    requires Run(states, moves) && k < |states|
    ensures var p := states[k];
      && multiset(p.accepted)[t] ==
           multiset(p.queue)[t] + InHand(p.workers, t) + multiset(p.returned)[t] + multiset(p.thrown)[t]
      && |p.returned| == p.good + OwesCount(p, Good)
      && |p.thrown| == p.bad + OwesCount(p, Bad)
  {
    var p := states[k];
    RunInv(states, moves, k);
    RunAccount(states, moves, k, t);
    assert multiset(p.taken + p.queue) == multiset(p.taken) + multiset(p.queue);
  }

  /**
   No lost wake-up: in a started pool with threads, a non-empty queue always has a worker that is
   neither asleep nor gone, or a notification still to be sent.
   */
  lemma NeverAllAsleep<T>(states: seq<Pool<T>>, moves: seq<Move<T>>, k: nat)
    requires Run(states, moves) && k < |states|
    requires states[k].started && states[k].threadsNumber > 0
    requires states[k].queue != [] && states[k].unsent == 0
    ensures exists i :: 0 <= i < |states[k].workers| && !states[k].workers[i].Waiting? && !states[k].workers[i].Exited?
  {
    var p := states[k];
    RunInv(states, moves, k);
    if forall i :: 0 <= i < |p.workers| ==> p.workers[i].Waiting? || p.workers[i].Exited? {
      CountZero(p.workers, (w: Worker<T>) => w.WillLook());
      CountZero(p.workers, (w: Worker<T>) => w.Waiting?);
      CountSame(p.workers, seq(|p.workers|, _ => Exited), (w: Worker<T>) => w.Exited?);
      AllExited<T>(|p.workers|);
      assert false;
    }
  }

  /**
   Full use of the workers: whenever a worker sleeps and nothing is left to notify, there are at least
   as many workers on their way to the queue as there are tasks in it.
   */
  lemma EveryTaskHasAnAwakeWorker<T>(states: seq<Pool<T>>, moves: seq<Move<T>>, k: nat, sleeper: nat)
    requires Run(states, moves) && k < |states|
    requires states[k].unsent == 0
    requires sleeper < |states[k].workers| && states[k].workers[sleeper].Waiting?
    ensures |states[k].queue| <= LookCount(states[k])
  {
    RunInv(states, moves, k);
    CountZero(states[k].workers, (w: Worker<T>) => w.Waiting?);
  }

  lemma {:induction false} AllExited<T>(n: nat)
    ensures Count(seq(n, _ => Exited), (w: Worker<T>) => w.Exited?) == n
  {
    if n > 0 {
      var ws: seq<Worker<T>> := seq(n, _ => Exited);
      assert ws[..n - 1] == seq(n - 1, _ => Exited);
      AllExited<T>(n - 1);
    }
  }

  // ----- what the moves were and what became of them -----

  /** The pool takes tasks: it is started and its queue has room. */
  predicate Open<T>(p: Pool<T>) { p.started && |p.queue| < p.queueLength }

  /** The tasks offered in the first `k` moves while the pool was open, in order. */
  function OfferedWhileOpen<T>(states: seq<Pool<T>>, moves: seq<Move<T>>, k: nat): seq<T>
    requires k <= |moves| && |states| == |moves| + 1
  {
    if k == 0 then []
    else OfferedWhileOpen(states, moves, k - 1) +
         if moves[k - 1].DoAddTask? && Open(states[k - 1]) then [moves[k - 1].newTask] else []
  }

  /** The tasks whose handling ended in the first `k` moves, by returning or by throwing, in order. */
  function Ended<T>(states: seq<Pool<T>>, moves: seq<Move<T>>, k: nat, ok: bool): seq<T>
    requires Run(states, moves) && k <= |moves|
  {
    if k == 0 then []
    else
      var before := Ended(states, moves, k - 1, ok);
      assert Enabled(states[k - 1], moves[k - 1]);
      if moves[k - 1].DoFinish? && moves[k - 1].ok == ok then before + [states[k - 1].workers[moves[k - 1].w].task]
      else before
  }

  /** The last of the first `k` moves that starts or stops the pool starts it. */
  predicate StartedLast<T>(moves: seq<Move<T>>, k: nat)
    requires k <= |moves|
  {
    k > 0 && (moves[k - 1].DoStart? || (!moves[k - 1].DoStop? && StartedLast(moves, k - 1)))
  }

  /** A task is pushed exactly when the pool is open, and otherwise nothing but the caller's debt changes. */
  lemma PushedExactlyWhenOpen<T>(states: seq<Pool<T>>, moves: seq<Move<T>>, i: nat)
    requires Run(states, moves) && i < |moves| && moves[i].DoAddTask?
    ensures var p, q, t := states[i], states[i + 1], moves[i].newTask;
      && (Open(p) <==> q.accepted == p.accepted + [t] && q.queue == p.queue + [t])
      && (!Open(p) ==> q.accepted == p.accepted && q.queue == p.queue)
      && q == p.(accepted := q.accepted, queue := q.queue, unsent := p.unsent + 1)
  {
    assert states[i + 1] == Apply(states[i], moves[i]);
    if !Open(states[i]) {
      assert |states[i + 1].queue| == |states[i].queue|;
    }
  }

  /** Only an offer changes what was accepted, and only a finish what returned or threw. */
  lemma OthersPushNothing<T>(p: Pool<T>, m: Move<T>)
    ensures !m.DoAddTask? ==> Apply(p, m).accepted == p.accepted
    ensures !m.DoFinish? ==> Apply(p, m).returned == p.returned && Apply(p, m).thrown == p.thrown
    ensures !m.DoStart? && !m.DoStop? ==> Apply(p, m).started == p.started
  {
  }

  lemma AcceptedNext<T>(states: seq<Pool<T>>, moves: seq<Move<T>>, k: nat)
    requires Run(states, moves) && k < |moves| && states[k].accepted == OfferedWhileOpen(states, moves, k)
    ensures states[k + 1].accepted == OfferedWhileOpen(states, moves, k + 1)
  {
    assert states[k + 1] == Apply(states[k], moves[k]);
    OthersPushNothing(states[k], moves[k]);
    if moves[k].DoAddTask? {
      PushedExactlyWhenOpen(states, moves, k);
    }
  }

  lemma FinishAppends<T>(p: Pool<T>, w: nat, ok: bool)
    requires w < |p.workers| && p.workers[w].Running?
    ensures var q := Apply(p, DoFinish(w, ok)); var t := [p.workers[w].task];
      q.returned == (if ok then p.returned + t else p.returned) && q.thrown == (if ok then p.thrown else p.thrown + t)
  {
  }

  lemma EndedNext<T>(states: seq<Pool<T>>, moves: seq<Move<T>>, k: nat)
    requires Run(states, moves) && k < |moves|
    requires states[k].returned == Ended(states, moves, k, true) && states[k].thrown == Ended(states, moves, k, false)
    ensures states[k + 1].returned == Ended(states, moves, k + 1, true)
    ensures states[k + 1].thrown == Ended(states, moves, k + 1, false)
  {
    var p, m := states[k], moves[k];
    assert Enabled(p, m) && states[k + 1] == Apply(p, m);
    OthersPushNothing(p, m);
    if m.DoFinish? {
      FinishAppends(p, m.w, m.ok);
    }
  }

  lemma StartedNext<T>(p: Pool<T>, m: Move<T>)
    ensures Apply(p, m).started == (m.DoStart? || (!m.DoStop? && p.started))
  {
    OthersPushNothing(p, m);
  }

  /** The workers spawned by the starts among the first `k` moves; starting a started pool spawns none. */
  function Spawned<T>(states: seq<Pool<T>>, moves: seq<Move<T>>, k: nat): nat
    requires k <= |moves| && |states| == |moves| + 1
  {
    if k == 0 then 0
    else Spawned(states, moves, k - 1) +
         if moves[k - 1].DoStart? && !states[k - 1].started then states[0].threadsNumber else 0
  }

  lemma SpawnedNext<T>(p: Pool<T>, m: Move<T>)
    ensures var q := Apply(p, m);
      && q.threadsNumber == p.threadsNumber && q.queueLength == p.queueLength
      && |q.workers| == |p.workers| + (if m.DoStart? && !p.started then p.threadsNumber else 0)
  {
  }

  /**
   The counting law: the accepted tasks are those offered while the pool was started and not full, the
   returned and thrown ones those whose handling ended so, the pool is started if it was started last, and
   every start of a stopped pool, and nothing else, spawned the workers the pool was made for.
   */
  lemma {:induction false} HistoryIsTheMoves<T>(states: seq<Pool<T>>, moves: seq<Move<T>>, k: nat)
    requires Run(states, moves) && k <= |moves|
    ensures states[k].accepted == OfferedWhileOpen(states, moves, k)
    ensures states[k].returned == Ended(states, moves, k, true)
    ensures states[k].thrown == Ended(states, moves, k, false)
    ensures states[k].started == StartedLast(moves, k)
    ensures states[k].threadsNumber == states[0].threadsNumber && states[k].queueLength == states[0].queueLength
    ensures |states[k].workers| == Spawned(states, moves, k)
  {
    if k > 0 {
      HistoryIsTheMoves(states, moves, k - 1);
      AcceptedNext(states, moves, k - 1);
      EndedNext(states, moves, k - 1);
      StartedNext(states[k - 1], moves[k - 1]);
      SpawnedNext(states[k - 1], moves[k - 1]);
    }
  }

  /** A worker that looks at a started pool with tasks holds the oldest one afterwards. */
  lemma LookTakesTheOldest<T>(states: seq<Pool<T>>, moves: seq<Move<T>>, i: nat)
    requires Run(states, moves) && i < |moves| && moves[i].DoLook?
    ensures var p, q, w := states[i], states[i + 1], moves[i].w;
      && w < |p.workers| == |q.workers|
      && (p.started && p.queue != [] ==> q.workers[w] == Running(p.queue[0]) && [p.queue[0]] + q.queue == p.queue)
      && (p.started && p.queue == [] ==> q.workers[w].Waiting? && q.queue == [])
      && (!p.started ==> q.workers[w].Exited? && q.queue == p.queue)
      && forall v :: 0 <= v < |p.workers| && v != w ==> q.workers[v] == p.workers[v]
  {
    assert Enabled(states[i], moves[i]) && states[i + 1] == Apply(states[i], moves[i]);
  }

  // ----- a queued task can always be taken -----

  ghost predicate CanMove<T>(p: Pool<T>, ms: seq<Move<T>>)
    decreases |ms|
  {
    ms == [] || (Enabled(p, ms[0]) && CanMove(Apply(p, ms[0]), ms[1..]))
  }

  function Moved<T>(p: Pool<T>, ms: seq<Move<T>>): Pool<T>
    decreases |ms|
  {
    if ms == [] then p else Moved(Apply(p, ms[0]), ms[1..])
  }

  /** After `ms`, which can be made, the oldest task of `p` has been taken and no other. */
  ghost predicate Takes<T>(p: Pool<T>, ms: seq<Move<T>>) {
    CanMove(p, ms) && p.queue != [] && Moved(p, ms).taken == p.taken + [p.queue[0]]
  }

  lemma TakesNext<T>(p: Pool<T>, m: Move<T>, ms: seq<Move<T>>)
    requires Enabled(p, m) && Takes(Apply(p, m), ms)
    requires Apply(p, m).taken == p.taken && Apply(p, m).queue == p.queue
    ensures Takes(p, [m] + ms)
  {
    assert ([m] + ms)[1..] == ms;
  }

  lemma LookTakes<T>(p: Pool<T>, w: nat)
    requires p.started && p.queue != [] && w < |p.workers| && (p.workers[w].AtLock? || p.workers[w].Woken?)
    ensures Takes(p, [DoLook(w)])
  {
    var ms: seq<Move<T>> := [DoLook(w)];
    var q := Apply(p, DoLook(w));
    assert ms[1..] == [] && Moved(q, []) == q;
  }

  /** The moves of an awake worker up to its look. */
  function WayToLook<T>(p: Pool<T>, w: nat): seq<Move<T>>
    requires w < |p.workers|
  {
    match p.workers[w]
    case Fresh => [DoInit(w), DoLook(w)]
    case Running(_) => [DoFinish(w, true), DoLook(w)]
    case _ => [DoLook(w)]
  }

  lemma AwakeWorkerTakes<T>(p: Pool<T>, w: nat)
    requires p.started && p.queue != [] && w < |p.workers| && !p.workers[w].Waiting? && !p.workers[w].Exited?
    ensures Takes(p, WayToLook(p, w))
  {
    if p.workers[w].Fresh? || p.workers[w].Running? {
      var m := if p.workers[w].Fresh? then DoInit(w) else DoFinish(w, true);
      LookTakes(Apply(p, m), w);
      TakesNext(p, m, [DoLook(w)]);
      assert [m] + [DoLook(w)] == [m, DoLook(w)];
    } else {
      LookTakes(p, w);
    }
  }

  /**
   No dead end: whenever a started pool with threads has a task queued, the pool can get to the oldest
   task without outside help and without a spurious wake-up, in at most two moves of its own workers
   and notifications already owed.
   */
  lemma OldestCanBeTaken<T>(states: seq<Pool<T>>, moves: seq<Move<T>>, k: nat) returns (ms: seq<Move<T>>)
    requires Run(states, moves) && k < |states|
    requires states[k].started && states[k].threadsNumber > 0 && states[k].queue != []
    ensures Takes(states[k], ms) && |ms| <= 2
    ensures forall i :: 0 <= i < |ms| ==> ms[i].DoNotify? || ms[i].DoInit? || ms[i].DoFinish? || ms[i].DoLook?
  {
    var p := states[k];
    if w :| 0 <= w < |p.workers| && !p.workers[w].Waiting? && !p.workers[w].Exited? {
      AwakeWorkerTakes(p, w);
      ms := WayToLook(p, w);
    } else {
      if p.unsent == 0 {
        NeverAllAsleep(states, moves, k);
      }
      var w := SomeSleeper(states, moves, k);
      LookTakes(Apply(p, DoNotify(w)), w);
      TakesNext(p, DoNotify(w), [DoLook(w)]);
      ms := [DoNotify(w)] + [DoLook(w)];
    }
  }

  lemma SomeSleeper<T>(states: seq<Pool<T>>, moves: seq<Move<T>>, k: nat) returns (w: nat)
    requires Run(states, moves) && k < |states|
    requires states[k].started && states[k].threadsNumber > 0
    requires forall i :: 0 <= i < |states[k].workers| ==> states[k].workers[i].Waiting? || states[k].workers[i].Exited?
    ensures w < |states[k].workers| && states[k].workers[w].Waiting?
  {
    var p := states[k];
    RunInv(states, moves, k);
    if forall i :: 0 <= i < |p.workers| ==> p.workers[i].Exited? {
      CountSame(p.workers, seq(|p.workers|, _ => Exited), (w: Worker<T>) => w.Exited?);
      AllExited<T>(|p.workers|);
      assert false;
    }
    w :| 0 <= w < |p.workers| && !p.workers[w].Exited?;
  }
}
