/**
  `CCheckQueue` of checkqueue.h as a state machine: one master and any number of
  workers share a stack of checks, and every critical section of `Loop` and
  `Add` is one step. Sleeping threads may wake up at any time, notified or not.
 */
module CheckQueue {
  import opened Arithmetic
  import opened Options

  datatype Check = Check(id: nat, passes: bool)

  /** Where a thread is: not in `Loop`, in `cond.wait`, or executing its batch outside the lock. */
  datatype Local = Outside | Asleep(notified: bool) | Working(batch: seq<Check>, ok: bool)

  datatype Who = Master | Worker(i: nat)

  /** One finished call of `Wait`: what had been added, and what was returned. */
  datatype Round = Round(checks: multiset<Check>, result: bool)

  datatype State = State(
    queue: seq<Check>,
    nIdle: int,
    nTotal: int,
    fAllOk: bool,
    nTodo: int,
    fQuit: bool,
    nBatchSize: nat,
    master: Local,
    workers: seq<Local>,
    // history
    added: multiset<Check>,
    finished: multiset<Check>,
    rounds: seq<Round>)

  predicate AllPass(cs: seq<Check>) {
    forall i :: 0 <= i < |cs| ==> cs[i].passes
  }

  predicate AllPassIn(m: multiset<Check>) {
    forall c :: c in m ==> c.passes
  }

  // ---------------------------------------------------------------------------
  // The loops on either side of the lock
  // ---------------------------------------------------------------------------

  /** The batch is popped off the back of the queue. */
  function Batch(queue: seq<Check>, n: nat): (b: seq<Check>)
    requires n <= |queue|
    ensures |b| == n
  {
    seq(n, i requires 0 <= i < n => queue[|queue| - 1 - i])
  }

  method TakeBatch(queue: seq<Check>, n: nat) returns (batch: seq<Check>, rest: seq<Check>)
    requires n <= |queue|
    ensures batch == Batch(queue, n) && rest == queue[..|queue| - n]
    ensures multiset(queue) == multiset(rest) + multiset(batch)
    ensures AllPass(queue) <==> AllPass(rest) && AllPass(batch)
  {
    batch, rest := [], queue;
    for i := 0 to n
      invariant |rest| == |queue| - i && rest == queue[..|queue| - i] && batch == Batch(queue, i)
    {
      batch := batch + [rest[|rest| - 1]];
      rest := rest[..|rest| - 1];
    }
    BatchSplits(queue, n);
  }

  /** Execute a batch; once a check has failed the others are skipped. */
  method Execute(batch: seq<Check>, ok: bool) returns (r: bool)
    ensures r <==> ok && AllPass(batch)
  {
    r := ok;
    for i := 0 to |batch|
      invariant r <==> ok && AllPass(batch[..i])
    {
      if r {
        r := batch[i].passes;
      }
      assert batch[..i + 1] == batch[..i] + [batch[i]];
    }
    assert batch[..|batch|] == batch;
  }

  lemma AllPassConcat(a: seq<Check>, b: seq<Check>)
    ensures AllPass(a + b) <==> AllPass(a) && AllPass(b)
  {
    assert forall i :: 0 <= i < |b| ==> (a + b)[|a| + i] == b[i];
    assert forall i :: 0 <= i < |a| ==> (a + b)[i] == a[i];
  }

  /** The queue is the part that stays and the batch, whatever the order. */
  lemma {:induction false} BatchSplits(queue: seq<Check>, n: nat)
    requires n <= |queue|
    ensures multiset(queue) == multiset(queue[..|queue| - n]) + multiset(Batch(queue, n))
    ensures AllPass(queue) <==> AllPass(queue[..|queue| - n]) && AllPass(Batch(queue, n))
  {
    if n == 0 {
      assert queue[..|queue|] == queue;
    } else {
      BatchSplits(queue, n - 1);
      var k := |queue| - n;
      var c := [queue[k]];
      assert queue[..k + 1] == queue[..k] + c;
      assert Batch(queue, n) == Batch(queue, n - 1) + c;
      AllPassConcat(queue[..k], c);
      AllPassConcat(Batch(queue, n - 1), c);
    }
  }

  // ---------------------------------------------------------------------------
  // Steps
  // ---------------------------------------------------------------------------

  function Init(batchSize: nat, workers: nat): State {
    State([], 0, 0, true, 0, false, batchSize, Outside, seq(workers, _ => Outside), multiset{}, multiset{}, [])
  }

  function LocalOf(s: State, who: Who): Local
    requires who.Worker? ==> who.i < |s.workers|
  {
    if who.Master? then s.master else s.workers[who.i]
  }

  function SetLocal(s: State, who: Who, l: Local): State
    requires who.Worker? ==> who.i < |s.workers|
  {
    if who.Master? then s.(master := l) else s.(workers := s.workers[who.i := l])
  }

  /** `nNow`: a share of the queue, at least one and at most `nBatchSize`. */
  function BatchSize(s: State): (n: nat)
    requires s.nTotal + s.nIdle + 1 > 0 && s.queue != []
    ensures 1 <= n <= |s.queue|
  {
    var share := Quotient(|s.queue|, s.nTotal + s.nIdle + 1);
    var capped := if s.nBatchSize < share then s.nBatchSize else share;
    if capped < 1 then 1 else capped
  }

  lemma ShareIs(q: nat, threads: nat, n: nat)
    requires threads > 0
    ensures n <= q / threads <==> n * threads <= q
  {
    DivBounds(q, threads);
    MulMono(n, q / threads, threads);
    MulMono(q / threads, n, threads);
    assert threads * (q / threads) == q / threads * threads;
  }

  /** The largest batch, of at most `nBatchSize`, that leaves as much for every other thread; but at least one. */
  lemma BatchShare(s: State)
    requires s.nTotal + s.nIdle + 1 > 0 && s.queue != []
    ensures
      var n, threads := BatchSize(s), s.nTotal + s.nIdle + 1;
      && (n > 1 ==> n <= s.nBatchSize && n * threads <= |s.queue|)
      && (n < s.nBatchSize ==> (n + 1) * threads > |s.queue|)
  {
    var n, threads := BatchSize(s), s.nTotal + s.nIdle + 1;
    ShareIs(|s.queue|, threads, n);
    ShareIs(|s.queue|, threads, n + 1);
  }

  /** From `while (queue.empty())` to the release of the lock: return, sleep or take a batch. */
  function Continue(s: State, who: Who): State
    requires who.Worker? ==> who.i < |s.workers|
    requires s.nTotal + s.nIdle + 1 > 0
  {
    if s.queue == [] then
      if (who.Master? || s.fQuit) && s.nTodo == 0 then
        var left := SetLocal(s.(nTotal := s.nTotal - 1), who, Outside);
        if who.Master? then
          left.(fAllOk := true, added := multiset{}, finished := multiset{}, rounds := s.rounds + [Round(s.added, s.fAllOk)])
        else left
      else
        SetLocal(s.(nIdle := s.nIdle + 1), who, Asleep(false))
    else
      var n := BatchSize(s);
      SetLocal(s.(queue := s.queue[..|s.queue| - n]), who, Working(Batch(s.queue, n), s.fAllOk))
  }

  function Notify(l: Local): Local {
    if l.Asleep? then Asleep(true) else l
  }

  /** The state between handing back a batch and telling the master. */
  function Finish(s: State, who: Who, batch: seq<Check>, ok: bool): State
    requires who.Worker? ==> who.i < |s.workers|
  {
    SetLocal(s, who, Outside).(
      fAllOk := s.fAllOk && ok && AllPass(batch), nTodo := s.nTodo - |batch|, finished := s.finished + multiset(batch))
  }

  /** The clean-up of the previous batch, or the first iteration. */
  function Cleanup(s: State, who: Who): State
    requires who.Worker? ==> who.i < |s.workers|
  {
    match LocalOf(s, who)
    case Working(batch, ok) =>
      var t := Finish(s, who, batch, ok);
      if t.nTodo == 0 && who.Worker? then t.(master := Notify(t.master)) else t
    case _ => s.(nTotal := s.nTotal + 1)
  }

  datatype Action =
    | Add(checks: seq<Check>, woken: set<nat>)
    | Section(who: Who)
    | Wake(who: Who)

  /** Which workers a call of `Add` may notify. */
  predicate MayNotify(s: State, n: nat, woken: set<nat>) {
    && (n == 0 ==> woken == {})
    && (n == 1 ==> |woken| <= 1)
  }

  function NotifyWorkers(ws: seq<Local>, n: nat, woken: set<nat>): seq<Local> {
    seq(|ws|, i requires 0 <= i < |ws| => if n > 1 || i in woken then Notify(ws[i]) else ws[i])
  }

  /** One step of one thread; None when the thread is not there to take it, or the share of the queue is undefined. */
  function Step(s: State, a: Action): Option<State> {
    match a
    case Add(checks, woken) =>
      if s.master.Outside? && MayNotify(s, |checks|, woken) then
        Some(s.(queue := s.queue + checks, nTodo := s.nTodo + |checks|, added := s.added + multiset(checks),
                workers := NotifyWorkers(s.workers, |checks|, woken)))
      else None
    case Section(who) =>
      if (who.Worker? ==> who.i < |s.workers|) && !LocalOf(s, who).Asleep? then
        var t := Cleanup(s, who);
        if t.nTotal + t.nIdle + 1 > 0 then Some(Continue(t, who)) else None
      else None
    case Wake(who) =>
      if (who.Worker? ==> who.i < |s.workers|) && LocalOf(s, who).Asleep? then
        var t := SetLocal(s.(nIdle := s.nIdle - 1), who, Outside);
        if t.nTotal + t.nIdle + 1 > 0 then Some(Continue(t, who)) else None
      else None
  }

  // ---------------------------------------------------------------------------
  // The invariant
  // ---------------------------------------------------------------------------

  function Held(l: Local): nat {
    if l.Working? then |l.batch| else 0
  }

  /** How often a check is in a thread's batch. */
  function HeldOf(l: Local, c: Check): nat {
    if l.Working? then multiset(l.batch)[c] else 0
  }

  predicate Passing(l: Local) {
    l.Working? ==> l.ok && AllPass(l.batch)
  }

  function SumHeld(ws: seq<Local>): nat {
    if ws == [] then 0 else SumHeld(ws[..|ws| - 1]) + Held(ws[|ws| - 1])
  }

  function SumOf(ws: seq<Local>, c: Check): nat {
    if ws == [] then 0 else SumOf(ws[..|ws| - 1], c) + HeldOf(ws[|ws| - 1], c)
  }

  function CountAsleep(ws: seq<Local>): nat {
    if ws == [] then 0 else CountAsleep(ws[..|ws| - 1]) + if ws[|ws| - 1].Asleep? then 1 else 0
  }

  function CountInside(ws: seq<Local>): nat {
    if ws == [] then 0 else CountInside(ws[..|ws| - 1]) + if ws[|ws| - 1].Outside? then 0 else 1
  }

  predicate AllPassing(ws: seq<Local>) {
    forall i :: 0 <= i < |ws| ==> Passing(ws[i])
  }

  /** All threads, the master last. */
  function Threads(s: State): seq<Local> {
    s.workers + [s.master]
  }

  ghost predicate Counters(s: State) {
    && s.nTodo == |s.queue| + SumHeld(Threads(s))
    && s.nIdle == CountAsleep(Threads(s))
    && s.nTotal == CountInside(Threads(s))
  }

  /** Every check that was added is in exactly one place: finished, queued or in a batch. */
  ghost predicate Conserved(s: State) {
    forall c {:trigger s.added[c]} :: s.added[c] == s.finished[c] + multiset(s.queue)[c] + SumOf(Threads(s), c)
  }

  /** What is known about the result so far is exactly what is needed. */
  ghost predicate Verdict(s: State) {
    AllPassIn(s.added) <==> s.fAllOk && AllPass(s.queue) && AllPassing(Threads(s))
  }

  ghost predicate BatchesNonEmpty(ws: seq<Local>) {
    forall i :: 0 <= i < |ws| && ws[i].Working? ==> ws[i].batch != []
  }

  /** A master asleep that nobody has notified still has work outstanding, and no work is queued. */
  ghost predicate NoLostWakeup(s: State) {
    s.master.Asleep? ==> s.queue == [] && (s.master.notified || s.nTodo > 0)
  }

  ghost predicate RoundsRight(rs: seq<Round>) {
    forall i :: 0 <= i < |rs| ==> (rs[i].result <==> AllPassIn(rs[i].checks))
  }

  ghost predicate Inv(s: State) {
    && Counters(s) && Conserved(s) && Verdict(s) && BatchesNonEmpty(Threads(s)) && NoLostWakeup(s) && RoundsRight(s.rounds)
  }

  // ---------------------------------------------------------------------------
  // Changing one thread
  // ---------------------------------------------------------------------------

  function Index(s: State, who: Who): nat {
    if who.Master? then |s.workers| else who.i
  }

  ghost predicate Present(s: State, who: Who) {
    who.Worker? ==> who.i < |s.workers|
  }

  lemma SetLocalThreads(s: State, who: Who, l: Local)
    requires Present(s, who)
    ensures LocalOf(s, who) == Threads(s)[Index(s, who)]
    ensures Threads(SetLocal(s, who, l)) == Threads(s)[Index(s, who) := l]
  {
  }

  lemma {:induction false} SumUpdate(ws: seq<Local>, i: nat, l: Local)
    requires i < |ws|
    ensures SumHeld(ws[i := l]) == SumHeld(ws) - Held(ws[i]) + Held(l)
    ensures CountAsleep(ws[i := l]) == CountAsleep(ws) - (if ws[i].Asleep? then 1 else 0) + (if l.Asleep? then 1 else 0)
    ensures CountInside(ws[i := l]) == CountInside(ws) - (if ws[i].Outside? then 0 else 1) + (if l.Outside? then 0 else 1)
  {
    var k := |ws| - 1;
    if i == k {
      assert ws[i := l][..k] == ws[..k];
    } else {
      SumUpdate(ws[..k], i, l);
      assert ws[i := l][..k] == ws[..k][i := l];
    }
  }

  lemma {:induction false} SumOfUpdate(ws: seq<Local>, i: nat, l: Local, c: Check)
    requires i < |ws|
    ensures SumOf(ws[i := l], c) == SumOf(ws, c) - HeldOf(ws[i], c) + HeldOf(l, c)
  {
    var k := |ws| - 1;
    if i == k {
      assert ws[i := l][..k] == ws[..k];
    } else {
      SumOfUpdate(ws[..k], i, l, c);
      assert ws[i := l][..k] == ws[..k][i := l];
    }
  }

  lemma {:induction false} SomeoneWorks(ws: seq<Local>) returns (i: nat)
    requires SumHeld(ws) > 0
    ensures i < |ws| && ws[i].Working? && ws[i].batch != []
  {
    var k := |ws| - 1;
    if Held(ws[k]) > 0 {
      i := k;
    } else {
      i := SomeoneWorks(ws[..k]);
    }
  }

  lemma {:induction false} NoWorkNoChecks(ws: seq<Local>)
    requires SumHeld(ws) == 0 && BatchesNonEmpty(ws)
    ensures AllPassing(ws) && CountAsleep(ws) == CountInside(ws)
  {
    if ws != [] {
      NoWorkNoChecks(ws[..|ws| - 1]);
      assert forall i :: 0 <= i < |ws| - 1 ==> ws[i] == ws[..|ws| - 1][i];
    }
  }

  // ---------------------------------------------------------------------------
  // Every step keeps the invariant
  // ---------------------------------------------------------------------------

  /** In the middle of a critical section: `who` counts as inside but holds nothing and does not sleep. */
  ghost predicate Mid(s: State, who: Who) {
    && Present(s, who) && LocalOf(s, who).Outside?
    && s.nTodo == |s.queue| + SumHeld(Threads(s))
    && s.nIdle == CountAsleep(Threads(s))
    && s.nTotal == CountInside(Threads(s)) + 1
    && Conserved(s) && Verdict(s) && BatchesNonEmpty(Threads(s)) && NoLostWakeup(s) && RoundsRight(s.rounds)
  }

  lemma CleanupMid(s: State, who: Who)
    requires Inv(s) && Present(s, who) && !LocalOf(s, who).Asleep?
    ensures Mid(Cleanup(s, who), who)
  {
    var l := LocalOf(s, who);
    if l.Working? {
      FinishMid(s, who, l.batch, l.ok);
    }
  }

  lemma FinishConserved(s: State, who: Who, batch: seq<Check>, ok: bool)
    requires Conserved(s) && Present(s, who) && LocalOf(s, who) == Working(batch, ok)
    ensures Conserved(Finish(s, who, batch, ok))
  {
    var i, ws, t := Index(s, who), Threads(s), Finish(s, who, batch, ok);
    SetLocalThreads(s, who, Outside);
    assert Threads(t) == ws[i := Outside];
    forall c
      ensures t.added[c] == t.finished[c] + multiset(t.queue)[c] + SumOf(Threads(t), c)
    {
      assert s.added[c] == s.finished[c] + multiset(s.queue)[c] + SumOf(ws, c);
      SumOfUpdate(ws, i, Outside, c);
    }
  }

  lemma FinishVerdict(s: State, who: Who, batch: seq<Check>, ok: bool)
    requires Verdict(s) && Present(s, who) && LocalOf(s, who) == Working(batch, ok)
    ensures Verdict(Finish(s, who, batch, ok))
  {
    var i, ws, t := Index(s, who), Threads(s), Finish(s, who, batch, ok);
    SetLocalThreads(s, who, Outside);
    assert Threads(t) == ws[i := Outside];
    PassingUpdate(ws, i, Outside);
  }

  lemma FinishCounters(s: State, who: Who, batch: seq<Check>, ok: bool)
    requires Counters(s) && BatchesNonEmpty(Threads(s)) && NoLostWakeup(s) && Present(s, who) && LocalOf(s, who) == Working(batch, ok)
    ensures
      var t := Finish(s, who, batch, ok);
      && Present(t, who) && LocalOf(t, who).Outside? && t.rounds == s.rounds
      && t.nTodo == |t.queue| + SumHeld(Threads(t)) && t.nIdle == CountAsleep(Threads(t)) && t.nTotal == CountInside(Threads(t)) + 1
      && BatchesNonEmpty(Threads(t))
      && (t.master.Asleep? ==> t.queue == [] && who.Worker?)
      && t.nTodo >= 0
  {
    var i, ws, t := Index(s, who), Threads(s), Finish(s, who, batch, ok);
    SetLocalThreads(s, who, Outside);
    assert Threads(t) == ws[i := Outside];
    SumUpdate(ws, i, Outside);
  }

  /** Handing back a batch: what it counted for moves into `fAllOk` and `nTodo`. */
  lemma FinishMid(s: State, who: Who, batch: seq<Check>, ok: bool)
    requires Inv(s) && Present(s, who) && LocalOf(s, who) == Working(batch, ok)
    ensures Mid(Cleanup(s, who), who)
  {
    hide Conserved, Verdict, AllPass, RoundsRight, BatchesNonEmpty, Threads, SumHeld, CountAsleep, CountInside, Finish;
    var t := Finish(s, who, batch, ok);
    FinishCounters(s, who, batch, ok);
    FinishConserved(s, who, batch, ok);
    FinishVerdict(s, who, batch, ok);
    if t.nTodo == 0 && who.Worker? {
      NotifyMaster(t, who);
    }
  }

  lemma PassingUpdate(ws: seq<Local>, i: nat, l: Local)
    requires i < |ws|
    ensures Passing(ws[i]) && AllPassing(ws[i := l]) ==> (Passing(l) ==> AllPassing(ws))
    ensures AllPassing(ws) && Passing(l) ==> AllPassing(ws[i := l])
    ensures AllPassing(ws[i := l]) ==> Passing(l)
    ensures AllPassing(ws) ==> Passing(ws[i])
  {
    if AllPassing(ws[i := l]) {
      assert Passing(ws[i := l][i]);
      forall j | 0 <= j < |ws| && j != i
        ensures Passing(ws[j])
      {
        assert Passing(ws[i := l][j]);
      }
    }
  }

  lemma NotifyMaster(t: State, who: Who)
    requires Present(t, who) && who.Worker? && LocalOf(t, who).Outside?
    requires t.nTodo == |t.queue| + SumHeld(Threads(t)) && t.nIdle == CountAsleep(Threads(t)) && t.nTotal == CountInside(Threads(t)) + 1
    requires Conserved(t) && Verdict(t) && BatchesNonEmpty(Threads(t)) && RoundsRight(t.rounds)
    requires t.master.Asleep? ==> t.queue == []
    ensures Mid(t.(master := Notify(t.master)), who)
  {
    var u := t.(master := Notify(t.master));
    var ws, k := Threads(t), |t.workers|;
    assert Threads(u) == ws[k := Notify(t.master)];
    SumUpdate(ws, k, Notify(t.master));
    PassingUpdate(ws, k, Notify(t.master));
    forall c
      ensures u.added[c] == u.finished[c] + multiset(u.queue)[c] + SumOf(Threads(u), c)
    {
      assert t.added[c] == t.finished[c] + multiset(t.queue)[c] + SumOf(ws, c);
      SumOfUpdate(ws, k, Notify(t.master), c);
    }
  }

  /** Replacing a thread that holds nothing by one that holds nothing. */
  lemma SetIdle(s: State, who: Who, l: Local, t: State)
    requires Present(s, who) && !LocalOf(s, who).Working? && !l.Working?
    requires Threads(t) == Threads(s)[Index(s, who) := l] && t.queue == s.queue && t.added == s.added && t.finished == s.finished
    requires Conserved(s) && BatchesNonEmpty(Threads(s))
    ensures Conserved(t) && BatchesNonEmpty(Threads(t)) && SumHeld(Threads(t)) == SumHeld(Threads(s))
    ensures AllPassing(Threads(t)) <==> AllPassing(Threads(s))
  {
    hide SumHeld, CountAsleep, CountInside, SumOf;
    var i, ws := Index(s, who), Threads(s);
    SetLocalThreads(s, who, l);
    SumUpdate(ws, i, l);
    PassingUpdate(ws, i, l);
    forall c
      ensures t.added[c] == t.finished[c] + multiset(t.queue)[c] + SumOf(Threads(t), c)
    {
      assert s.added[c] == s.finished[c] + multiset(s.queue)[c] + SumOf(ws, c);
      SumOfUpdate(ws, i, l, c);
    }
  }

  lemma SleepInv(s: State, who: Who)
    requires Mid(s, who) && s.queue == [] && (who.Master? ==> s.nTodo != 0)
    ensures Inv(SetLocal(s.(nIdle := s.nIdle + 1), who, Asleep(false)))
  {
    hide Conserved, BatchesNonEmpty, AllPassing, AllPassIn, RoundsRight, SumHeld, CountAsleep, CountInside, SumOf;
    var t := SetLocal(s.(nIdle := s.nIdle + 1), who, Asleep(false));
    SetLocalThreads(s, who, Asleep(false));
    assert Threads(t) == Threads(s)[Index(s, who) := Asleep(false)];
    SetIdle(s, who, Asleep(false), t);
    SumUpdate(Threads(s), Index(s, who), Asleep(false));
  }

  /** Nothing outstanding: `fAllOk` is the answer for the whole round. */
  lemma NothingLeft(s: State)
    requires s.nTodo == |s.queue| + SumHeld(Threads(s)) && s.nTodo == 0 && BatchesNonEmpty(Threads(s)) && Verdict(s)
    ensures s.fAllOk <==> AllPassIn(s.added)
    ensures SumHeld(Threads(s)) == 0 && s.queue == [] && AllPassing(Threads(s))
    ensures CountAsleep(Threads(s)) == CountInside(Threads(s))
  {
    NoWorkNoChecks(Threads(s));
  }

  lemma {:induction false} SumOfBound(ws: seq<Local>, c: Check)
    requires SumHeld(ws) == 0
    ensures SumOf(ws, c) == 0
  {
    if ws != [] {
      SumOfBound(ws[..|ws| - 1], c);
      var l := ws[|ws| - 1];
      if l.Working? {
        assert l.batch == [];
      }
    }
  }

  lemma ReturnInv(s: State, who: Who)
    requires Mid(s, who) && s.queue == [] && (who.Master? || s.fQuit) && s.nTodo == 0
    ensures Inv(Continue(s, who))
  {
    hide SumHeld, CountAsleep, CountInside, SumOf, BatchesNonEmpty;
    var t := Continue(s, who);
    NothingLeft(s);
    SetLocalThreads(s, who, Outside);
    assert Threads(t) == Threads(s)[Index(s, who) := Outside] == Threads(s);
    if who.Master? {
      forall c
        ensures t.added[c] == t.finished[c] + multiset(t.queue)[c] + SumOf(Threads(t), c)
      {
        SumOfBound(Threads(t), c);
      }
    }
  }

  lemma TakeVerdict(s: State, who: Who, n: nat, t: State)
    requires Verdict(s) && Present(s, who) && !LocalOf(s, who).Working? && n <= |s.queue|
    requires t == SetLocal(s.(queue := s.queue[..|s.queue| - n]), who, Working(Batch(s.queue, n), s.fAllOk))
    ensures Verdict(t)
  {
    var l := Working(Batch(s.queue, n), s.fAllOk);
    SetLocalThreads(s, who, l);
    assert Threads(t) == Threads(s)[Index(s, who) := l];
    PassingUpdate(Threads(s), Index(s, who), l);
    BatchSplits(s.queue, n);
  }

  lemma TakeConserved(s: State, who: Who, n: nat, t: State)
    requires Conserved(s) && Present(s, who) && !LocalOf(s, who).Working? && n <= |s.queue|
    requires t == SetLocal(s.(queue := s.queue[..|s.queue| - n]), who, Working(Batch(s.queue, n), s.fAllOk))
    ensures Conserved(t)
  {
    hide SumOf, AllPass, Batch;
    var l := Working(Batch(s.queue, n), s.fAllOk);
    SetLocalThreads(s, who, l);
    assert Threads(t) == Threads(s)[Index(s, who) := l];
    BatchSplits(s.queue, n);
    forall c
      ensures t.added[c] == t.finished[c] + multiset(t.queue)[c] + SumOf(Threads(t), c)
    {
      assert s.added[c] == s.finished[c] + multiset(s.queue)[c] + SumOf(Threads(s), c);
      SumOfUpdate(Threads(s), Index(s, who), l, c);
    }
  }

  lemma TakeInv(s: State, who: Who)
    requires Mid(s, who) && s.queue != []
    ensures s.nTotal + s.nIdle + 1 > 0 && Inv(Continue(s, who))
  {
    hide Conserved, Verdict, RoundsRight, BatchSize, SumHeld, CountAsleep, CountInside, SumOf;
    var n := BatchSize(s);
    var l := Working(Batch(s.queue, n), s.fAllOk);
    var t := Continue(s, who);
    SetLocalThreads(s, who, l);
    assert Threads(t) == Threads(s)[Index(s, who) := l];
    SumUpdate(Threads(s), Index(s, who), l);
    TakeVerdict(s, who, n, t);
    TakeConserved(s, who, n, t);
  }

  lemma ContinueInv(s: State, who: Who)
    requires Mid(s, who)
    ensures s.nTotal + s.nIdle + 1 > 0 && Inv(Continue(s, who))
  {
    hide Inv, Conserved, Verdict, AllPassIn, BatchesNonEmpty, RoundsRight, SumHeld, CountAsleep, CountInside, Threads;
    if s.queue != [] {
      TakeInv(s, who);
    } else if (who.Master? || s.fQuit) && s.nTodo == 0 {
      ReturnInv(s, who);
    } else {
      SleepInv(s, who);
    }
  }

  lemma WakeMid(s: State, who: Who)
    requires Inv(s) && Present(s, who) && LocalOf(s, who).Asleep?
    ensures Mid(SetLocal(s.(nIdle := s.nIdle - 1), who, Outside), who)
  {
    hide Conserved, BatchesNonEmpty, AllPassing, AllPassIn, RoundsRight, SumHeld, CountAsleep, CountInside, SumOf;
    var t := SetLocal(s.(nIdle := s.nIdle - 1), who, Outside);
    SetLocalThreads(s, who, Outside);
    assert Threads(t) == Threads(s)[Index(s, who) := Outside];
    SetIdle(s, who, Outside, t);
    SumUpdate(Threads(s), Index(s, who), Outside);
  }

  lemma {:induction false} NotifySame(ws: seq<Local>, vs: seq<Local>)
    requires |vs| == |ws| && forall i :: 0 <= i < |ws| ==> vs[i] == ws[i] || vs[i] == Notify(ws[i])
    ensures SumHeld(vs) == SumHeld(ws) && CountAsleep(vs) == CountAsleep(ws) && CountInside(vs) == CountInside(ws)
    ensures forall c :: SumOf(vs, c) == SumOf(ws, c)
    ensures AllPassing(vs) <==> AllPassing(ws)
  {
    if ws != [] {
      NotifySame(ws[..|ws| - 1], vs[..|ws| - 1]);
    }
  }

  lemma AddInv(s: State, checks: seq<Check>, woken: set<nat>)
    requires Inv(s) && Step(s, Add(checks, woken)).Some?
    ensures Inv(Step(s, Add(checks, woken)).value)
  {
    var t := Step(s, Add(checks, woken)).value;
    NotifySame(Threads(s), Threads(t));
    AllPassConcat(s.queue, checks);
    assert AllPassIn(t.added) <==> AllPassIn(s.added) && AllPass(checks) by {
      assert forall c :: c in t.added <==> c in s.added || c in checks;
    }
  }

  lemma StepInv(s: State, a: Action)
    requires Inv(s) && Step(s, a).Some?
    ensures Inv(Step(s, a).value)
  {
    hide Inv, Mid, Continue, Cleanup;
    match a
    case Add(checks, woken) => AddInv(s, checks, woken);
    case Section(who) =>
      CleanupMid(s, who);
      ContinueInv(Cleanup(s, who), who);
    case Wake(who) =>
      WakeMid(s, who);
      ContinueInv(SetLocal(s.(nIdle := s.nIdle - 1), who, Outside), who);
  }

  /** A thread that is there can always take its step: the share of the queue is never a division by zero. */
  lemma StepEnabled(s: State, who: Who)
    requires Inv(s) && Present(s, who)
    ensures LocalOf(s, who).Asleep? ==> Step(s, Wake(who)).Some?
    ensures !LocalOf(s, who).Asleep? ==> Step(s, Section(who)).Some?
  {
    hide Inv, Mid, Continue, Cleanup;
    if LocalOf(s, who).Asleep? {
      WakeMid(s, who);
      ContinueInv(SetLocal(s.(nIdle := s.nIdle - 1), who, Outside), who);
    } else {
      CleanupMid(s, who);
      ContinueInv(Cleanup(s, who), who);
    }
  }

  // ---------------------------------------------------------------------------
  // Every interleaving
  // ---------------------------------------------------------------------------

  /** The state after a run of steps from a fresh queue; None if some step was not possible. */
  function Run(batchSize: nat, workers: nat, actions: seq<Action>): Option<State> {
    if actions == [] then Some(Init(batchSize, workers))
    else
      match Run(batchSize, workers, actions[..|actions| - 1])
      case None => None
      case Some(s) => Step(s, actions[|actions| - 1])
  }

  lemma {:induction false} AllOutside(ws: seq<Local>)
    requires forall i :: 0 <= i < |ws| ==> ws[i].Outside?
    ensures SumHeld(ws) == 0 && CountAsleep(ws) == 0 && CountInside(ws) == 0
  {
    if ws != [] {
      AllOutside(ws[..|ws| - 1]);
    }
  }

  lemma InitInv(batchSize: nat, workers: nat)
    ensures Inv(Init(batchSize, workers))
  {
    var s := Init(batchSize, workers);
    AllOutside(Threads(s));
    forall c
      ensures s.added[c] == s.finished[c] + multiset(s.queue)[c] + SumOf(Threads(s), c)
    {
      SumOfBound(Threads(s), c);
    }
  }

  lemma {:induction false} RunInv(batchSize: nat, workers: nat, actions: seq<Action>)
    requires Run(batchSize, workers, actions).Some?
    ensures Inv(Run(batchSize, workers, actions).value)
  {
    hide Inv, Step;
    if actions == [] {
      InitInv(batchSize, workers);
    } else {
      var k := |actions| - 1;
      RunInv(batchSize, workers, actions[..k]);
      StepInv(Run(batchSize, workers, actions[..k]).value, actions[k]);
    }
  }

  lemma {:induction false} HeldIsCounted(ws: seq<Local>, i: nat, c: Check)
    requires i < |ws| && ws[i].Working? && c in ws[i].batch
    ensures SumOf(ws, c) > 0
  {
    if i < |ws| - 1 {
      HeldIsCounted(ws[..|ws| - 1], i, c);
    }
  }

  lemma OutstandingIsAdded(s: State, c: Check)
    requires Conserved(s) && (c in s.queue || SumOf(Threads(s), c) > 0)
    ensures s.added[c] > 0
  {
  }

  /** Nothing added means nothing outstanding. */
  lemma NothingAdded(s: State)
    requires Inv(s) && s.added == multiset{}
    ensures s.queue == [] && SumHeld(Threads(s)) == 0
  {
    if s.queue != [] {
      OutstandingIsAdded(s, s.queue[0]);
    } else if SumHeld(Threads(s)) > 0 {
      var i := SomeoneWorks(Threads(s));
      var c := Threads(s)[i].batch[0];
      HeldIsCounted(Threads(s), i, c);
      OutstandingIsAdded(s, c);
    }
  }

  /**
    For any number of workers and every interleaving: `nTodo` is what is queued
    plus what is in batches; every finished `Wait` returned true exactly when
    every check added since the `Wait` before it passes; and whenever nothing
    has been added since the last `Wait`, the assertions of the controller's
    constructor hold.
   */
  lemma WaitIsRight(batchSize: nat, workers: nat, actions: seq<Action>)
    requires Run(batchSize, workers, actions).Some?
    ensures
      var s := Run(batchSize, workers, actions).value;
      && s.nTodo == |s.queue| + SumHeld(Threads(s))
      && RoundsRight(s.rounds)
      && Conserved(s)
      && (s.master.Outside? && s.added == multiset{} ==> s.nTotal == s.nIdle && s.nTodo == 0 && s.fAllOk)
  {
    RunInv(batchSize, workers, actions);
    var s := Run(batchSize, workers, actions).value;
    if s.added == multiset{} {
      NothingAdded(s);
      NothingLeft(s);
    }
  }

  /**
    No wake-up is lost: while the master is in `Wait`, it is working, or has
    been notified, or some worker still holds a batch; and that thread can take
    its next step.
   */
  lemma NoDeadlock(batchSize: nat, workers: nat, actions: seq<Action>) returns (who: Who)
    requires Run(batchSize, workers, actions).Some? && !Run(batchSize, workers, actions).value.master.Outside?
    ensures
      var s := Run(batchSize, workers, actions).value;
      && Present(s, who)
      && (LocalOf(s, who).Working? || (who.Master? && s.master == Asleep(true)))
      && (s.master == Asleep(false) ==> who.Worker?)
      && (if LocalOf(s, who).Asleep? then Step(s, Wake(who)).Some? else Step(s, Section(who)).Some?)
  {
    RunInv(batchSize, workers, actions);
    var s := Run(batchSize, workers, actions).value;
    who := Master;
    if s.master == Asleep(false) {
      var i := SomeoneWorks(Threads(s));
      assert Threads(s)[i] != s.master;
      who := Worker(i);
    }
    StepEnabled(s, who);
  }

  /** Handing back a batch always leaves less to do. */
  lemma WorkShrinks(s: State, who: Who)
    requires Inv(s) && Present(s, who) && LocalOf(s, who).Working?
    ensures Step(s, Section(who)).Some? && Step(s, Section(who)).value.nTodo < s.nTodo
  {
    hide SumHeld, CountAsleep, CountInside, SumOf, Conserved, Verdict, AllPass, RoundsRight, BatchSize;
    StepEnabled(s, who);
    SetLocalThreads(s, who, Outside);
  }
}
