/**
  Whole runs of best-chain selection: blocks arrive, and any number of threads
  are in `ActivateBestChain`, one section under `cs_main` or one test of the tip
  at a time.
 */
module ChainRuns {
  import opened BlockTree
  import opened ChainActivation
  import opened ChainSelection
  import opened Options

  type Thread = nat

  /** A block arrives, or a thread in `ActivateBestChain` takes its next step: a section, or the test at the end of the loop. */
  datatype Event =
    | Block(b: Id, prev: Id, proof: nat, headerOk: bool, txs: nat, blockOk: bool, corrupt: bool)
    | Activate(t: Thread)

  /**
    What became of it: the block's data was stored or not; a section went some
    way towards a block, having found corrupted data or not; the test sent the
    thread round again; or the call returned.
   */
  datatype Reply = Stored | Refused | Moving(target: Id, corrupt: bool) | Again | Returned(ok: bool)

  /** Every block has work and transactions, and a block refused on its own account is invalid. */
  predicate Sensible(e: Event, valid: Validity) {
    e.Block? ==> e.proof > 0 && (e.blockOk ==> e.txs > 0) && (!e.blockOk && !e.corrupt ==> !valid(e.b))
  }

  /** The blocks whose data was accepted in the first `n` events. */
  function Accepted(events: seq<Event>, replies: seq<Reply>, n: nat): set<Id>
    requires n <= |events| && n <= |replies|
  {
    if n == 0 then {}
    else Accepted(events, replies, n - 1) + if events[n - 1].Block? && replies[n - 1].Stored? then {events[n - 1].b} else {}
  }

  /** Every block of the branch has arrived and is not marked failed. */
  ghost predicate Usable(st: State, b: Id)
    requires Wf(st.tree) && b in st.tree
  {
    forall a :: a in Path(st.tree, b) ==> a in st.haveData && a !in st.failed
  }

  /** No branch usable in one state has more work than the active branch of the other. */
  ghost predicate Covers(st: State, st': State) {
    && Wf(st.tree) && (st'.tip.Some? ==> st'.tip.value in st'.tree)
    && forall b :: b in st.tree && Usable(st, b) ==> st'.tip.Some? && st.tree[b].work <= st'.tree[st'.tip.value].work
  }

  /** No usable branch has more work than the active one. */
  ghost predicate BestBranch(st: State) {
    Covers(st, st)
  }

  /** The branch of `m` comes before every other usable one: it has more work, or as much and was received earlier. */
  ghost predicate Target(st: State, m: Id) {
    && Wf(st.tree) && m in st.tree
    && forall b :: b in st.tree && Usable(st, b) ==> b == m || Preferred(st, m, b)
  }

  /** The active branch comes before every other usable one. */
  ghost predicate Chosen(st: State) {
    if st.tip.Some? then Target(st, st.tip.value) else Wf(st.tree) && forall b :: b in st.tree ==> !Usable(st, b)
  }

  lemma ChosenIsBest(st: State)
    requires Chosen(st)
    ensures BestBranch(st)
  {
    hide Usable;
  }

  lemma BestTipIsBest(st: State)
    requires Links(st) && BestTip(st)
    ensures BestBranch(st) && Chosen(st)
  {
    hide Links, BestTip, Skips, Preferred, BestBranch;
    TreeOk(st);
    forall b | b in st.tree && Usable(st, b)
      ensures st.tip.Some? && (b == st.tip.value || Preferred(st, st.tip.value, b))
    {
      UsableIsEligible(st, b);
      EligibleIsBeaten(st, b);
    }
    ChosenIsBest(st);
  }

  lemma NoneBetterIsTarget(st: State, m: Id)
    requires Links(st) && NoneBetter(st, m)
    ensures Target(st, m)
  {
    hide Links, NoneBetter, Skips, Preferred;
    TreeOk(st);
    forall b | b in st.tree && Usable(st, b)
      ensures b == m || Preferred(st, m, b)
    {
      UsableIsEligible(st, b);
      EligibleIsBeatenBy(st, m, b);
    }
  }

  lemma TreeOk(st: State)
    requires Links(st)
    ensures Wf(st.tree) && (st.tip.Some? ==> st.tip.value in st.tree)
    ensures forall m :: NoneBetter(st, m) ==> m in st.tree
  {
  }

  lemma UsableIsEligible(st: State, b: Id)
    requires Links(st) && b in st.tree && Wf(st.tree) && Usable(st, b)
    ensures b in st.chainTx && Eligible(st, b)
  {
    hide Links, Skips, Wf, Path;
    LinkedIffAllData(st, b);
    assert Unfailed(st.tree, st.failed, b);
  }

  lemma EligibleIsBeaten(st: State, b: Id)
    requires Links(st) && BestTip(st) && b in st.chainTx && Eligible(st, b)
    ensures st.tip.Some? && (b == st.tip.value || Preferred(st, st.tip.value, b))
  {
    hide Links, Skips, Wf, Path, Eligible, Preferred;
  }

  lemma EligibleIsBeatenBy(st: State, m: Id, b: Id)
    requires Links(st) && NoneBetter(st, m) && b in st.chainTx && Eligible(st, b)
    ensures b == m || Preferred(st, m, b)
  {
    hide Links, Skips, Wf, Path, Eligible, Preferred;
  }

  /** What is known of the tree is never forgotten, and no mark is taken back. */
  ghost predicate Grows(st: State, st': State) {
    && (forall b :: b in st.tree ==> b in st'.tree && st'.tree[b] == st.tree[b])
    && st.haveData <= st'.haveData && st.failed <= st'.failed
    && (forall b :: b in st.seqId ==> b in st'.seqId && st'.seqId[b] == st.seqId[b])
  }

  lemma GrowsTrans(a: State, b: State, c: State)
    requires Grows(a, b) && Grows(b, c)
    ensures Grows(a, c)
  {
  }

  /** A section that is not the last one marks a block, moves to a tip with more work, or makes the best branch active. */
  ghost predicate Advances(st: State, st': State) {
    Closer(st'.tree, st'.failed, st'.tip, st.failed, st.tip) || BestBranch(st')
  }

  /** What happened in a section: nothing, at the best branch; a disk error; or a step towards a block that comes before all others, the tip included. */
  ghost predicate SectionDone(r: Reply, st: State, st': State, f: Faults, f': Faults) {
    && st'.tree == st.tree && st'.haveData == st.haveData && st'.seqId == st.seqId
    && match r
       case Returned(ok) => if ok then BestBranch(st') && Chosen(st') && st'.tip == st.tip && f' == f else f'.disk < f.disk
       case Moving(m, corrupt) =>
         && Target(st', m) && (st.tip.Some? ==> Preferred(st', m, st.tip.value))
         && f'.disk == f.disk && if corrupt then f'.data < f.data else f' == f && Advances(st, st')
       case _ => false
  }

  /** What the test of a thread heading for `m` says; `since` is the state after its section. */
  ghost predicate TestDone(m: Id, r: Reply, since: State, st: State, st': State, f: Faults, f': Faults) {
    && st' == st
    && match r
       case Again => st.tip != Some(m) && f' == f
       case Returned(ok) => st.tip == Some(m) && if ok then Covers(since, st') && f' == f else f'.disk < f.disk
       case _ => false
  }

  /** What an event that is not a test did. */
  ghost predicate Settled(genesis: Id, e: Event, r: Reply, st: State, st': State, f: Faults, f': Faults) {
    match e
    case Block(b, prev, proof, headerOk, _, blockOk, corrupt) =>
      && (r.Stored? || r.Refused?) && (f' == f || f'.disk < f.disk)
      && BlockDone(st, st', genesis, b, prev, proof, headerOk, blockOk, corrupt, f' == f, r.Stored?)
    case Activate(_) => SectionDone(r, st, st', f, f')
  }

  /** What happened: replies, for every event the section it belongs to, and states and faults to come before, between and after. */
  datatype Log = Log(replies: seq<Reply>, since: seq<nat>, states: seq<State>, faults: seq<Faults>) {
    predicate Sized(n: nat) {
      |replies| == |since| == n && |states| == |faults| == n + 1
    }

    function Add(r: Reply, j: nat, st: State, f: Faults): (log: Log)
      ensures forall n: nat :: Sized(n) ==> log.Sized(n + 1)
    {
      Log(replies + [r], since + [j], states + [st], faults + [f])
    }
  }

  /** Before event `n`, a thread is between the section that was event `j` and its test. */
  ghost predicate Waits(events: seq<Event>, log: Log, j: nat, n: nat)
    requires log.Sized(|log.since|) && j < n <= |log.since| <= |events|
  {
    && events[j].Activate? && log.since[j] == j && log.replies[j].Moving?
    && forall k :: j < k < n ==> events[k] != events[j]
  }

  /** An event is the test of a thread that is before it, and belongs to its section, or else belongs to itself. */
  ghost predicate Belongs(events: seq<Event>, log: Log, i: nat, j: nat)
    requires log.Sized(|log.since|) && i <= |log.since| <= |events| && i < |events|
  {
    if j == i then forall k :: 0 <= k < i && events[k] == events[i] ==> !Waits(events, log, k, i)
    else j < i && events[j] == events[i] && Waits(events, log, j, i)
  }

  /** Event `i` went as it should. */
  ghost predicate EventOk(genesis: Id, events: seq<Event>, log: Log, i: nat)
    requires log.Sized(|log.since|) && i < |log.since| <= |events|
  {
    var j, r, st, st', f, f' := log.since[i], log.replies[i], log.states[i], log.states[i + 1], log.faults[i], log.faults[i + 1];
    && Belongs(events, log, i, j) && Grows(st, st')
    && if j == i then Settled(genesis, events[i], r, st, st', f, f')
       else TestDone(log.replies[j].target, r, log.states[j + 1], st, st', f, f')
  }

  /** A thread at its test is heading for `local.0` since event `local.1`. */
  ghost predicate AtTest(events: seq<Event>, log: Log, t: Thread, local: (Id, nat))
    requires log.Sized(|log.since|) && |log.since| <= |events|
  {
    var (m, j) := local;
    var n := |log.since|;
    && j < n && Waits(events, log, j, n) && events[j] == Activate(t) && log.replies[j].target == m
    && Target(log.states[j + 1], m) && Grows(log.states[j + 1], log.states[n])
  }

  /** Every thread that is at its test is known to be. */
  ghost predicate AllKnown(events: seq<Event>, log: Log, locals: map<Thread, (Id, nat)>)
    requires log.Sized(|log.since|) && |log.since| <= |events|
  {
    && (forall t :: t in locals ==> AtTest(events, log, t, locals[t]))
    && (forall j :: 0 <= j < |log.since| && Waits(events, log, j, |log.since|) ==> events[j].t in locals && locals[events[j].t].1 == j)
  }

  lemma WaitsKept(events: seq<Event>, log: Log, n: nat, r: Reply, i: nat, st: State, f: Faults, j: nat, m: nat)
    requires log.Sized(n) && j < m <= n < |events|
    ensures Waits(events, log.Add(r, i, st, f), j, m) <==> Waits(events, log, j, m)
  {
  }

  lemma WaitsNext(events: seq<Event>, log: Log, n: nat, j: nat)
    requires log.Sized(n + 1) && j < n < |events|
    ensures Waits(events, log, j, n + 1) <==> Waits(events, log, j, n) && events[n] != events[j]
  {
  }

  lemma BelongsKept(events: seq<Event>, log: Log, n: nat, r: Reply, i': nat, st: State, f: Faults, i: nat, j: nat)
    requires log.Sized(n) && i <= n < |events| && Belongs(events, log, i, j)
    ensures Belongs(events, log.Add(r, i', st, f), i, j)
  {
    hide Waits;
    forall k | 0 <= k < i
      ensures Waits(events, log.Add(r, i', st, f), k, i) <==> Waits(events, log, k, i)
    {
      WaitsKept(events, log, n, r, i', st, f, k, i);
    }
  }

  lemma EventKept(genesis: Id, events: seq<Event>, log: Log, n: nat, r: Reply, j: nat, st: State, f: Faults, i: nat)
    requires log.Sized(n) && i < n < |events| && EventOk(genesis, events, log, i)
    ensures EventOk(genesis, events, log.Add(r, j, st, f), i)
  {
    hide Grows, Settled, TestDone, Belongs, Waits;
    BelongsKept(events, log, n, r, j, st, f, i, log.since[i]);
    if log.since[i] != i {
      BelongsBefore(events, log, i, log.since[i]);
    }
  }

  lemma BelongsBefore(events: seq<Event>, log: Log, i: nat, j: nat)
    requires log.Sized(|log.since|) && i <= |log.since| <= |events| && i < |events| && Belongs(events, log, i, j) && j != i
    ensures j < i && log.replies[j].Moving?
  {
  }

  lemma EventAdded(genesis: Id, events: seq<Event>, log: Log, n: nat, r: Reply, j: nat, st: State, f: Faults)
    requires log.Sized(n) && n < |events| && Belongs(events, log, n, j) && Grows(log.states[n], st)
    requires j == n ==> Settled(genesis, events[n], r, log.states[n], st, log.faults[n], f)
    requires j != n ==> j < n && log.replies[j].Moving? && TestDone(log.replies[j].target, r, log.states[j + 1], log.states[n], st, log.faults[n], f)
    ensures EventOk(genesis, events, log.Add(r, j, st, f), n)
  {
    hide Grows, Settled, TestDone, Belongs;
    BelongsKept(events, log, n, r, j, st, f, n, j);
  }

  lemma AtTestIs(events: seq<Event>, log: Log, n: nat, t: Thread, local: (Id, nat))
    requires log.Sized(n) && n < |events| && AtTest(events, log, t, local) && events[n] == Activate(t)
    ensures local.1 < n && Belongs(events, log, n, local.1)
    ensures log.replies[local.1].Moving? && log.replies[local.1].target == local.0
    ensures Target(log.states[local.1 + 1], local.0) && Grows(log.states[local.1 + 1], log.states[n])
  {
    hide Target, Grows;
  }

  lemma NotAtTest(events: seq<Event>, log: Log, n: nat, locals: map<Thread, (Id, nat)>)
    requires log.Sized(n) && n < |events| && AllKnown(events, log, locals) && (events[n].Activate? ==> events[n].t !in locals)
    ensures Belongs(events, log, n, n)
  {
    hide AtTest;
  }

  lemma AtTestKept(events: seq<Event>, log: Log, n: nat, r: Reply, j: nat, st: State, f: Faults, t: Thread, local: (Id, nat))
    requires log.Sized(n) && n < |events| && AtTest(events, log, t, local) && events[n] != Activate(t) && Grows(log.states[n], st)
    ensures AtTest(events, log.Add(r, j, st, f), t, local)
  {
    hide Grows, Target, Waits;
    GrowsTrans(log.states[local.1 + 1], log.states[n], st);
    WaitsKept(events, log, n, r, j, st, f, local.1, n);
    WaitsNext(events, log.Add(r, j, st, f), n, local.1);
  }

  lemma AtTestAdded(events: seq<Event>, log: Log, n: nat, r: Reply, st: State, f: Faults, t: Thread)
    requires log.Sized(n) && n < |events| && events[n] == Activate(t) && r.Moving? && Target(st, r.target)
    ensures AtTest(events, log.Add(r, n, st, f), t, (r.target, n))
  {
    hide Target;
  }

  /** Which threads are at their test after one more event. */
  function NextLocals(locals: map<Thread, (Id, nat)>, e: Event, r: Reply, j: nat, n: nat): map<Thread, (Id, nat)> {
    if e.Block? then locals else if j == n && r.Moving? then locals[e.t := (r.target, n)] else locals - {e.t}
  }

  lemma KnownNext(events: seq<Event>, log: Log, n: nat, locals: map<Thread, (Id, nat)>, r: Reply, j: nat, st: State, f: Faults)
    requires log.Sized(n) && n < |events| && AllKnown(events, log, locals) && Grows(log.states[n], st)
    requires events[n].Activate? && j == n && r.Moving? ==> Target(st, r.target)
    ensures AllKnown(events, log.Add(r, j, st, f), NextLocals(locals, events[n], r, j, n))
  {
    hide Grows, Target, AtTest, Waits;
    var log', next, e := log.Add(r, j, st, f), NextLocals(locals, events[n], r, j, n), events[n];
    forall t | t in next
      ensures AtTest(events, log', t, next[t])
    {
      if e == Activate(t) {
        AtTestAdded(events, log, n, r, st, f, t);
      } else {
        AtTestKept(events, log, n, r, j, st, f, t, locals[t]);
      }
    }
    forall k | 0 <= k < n + 1 && Waits(events, log', k, n + 1)
      ensures events[k].Activate? && events[k].t in next && next[events[k].t].1 == k
    {
      WaitsIsActivate(events, log', k, n + 1);
      if k < n {
        WaitsNext(events, log', n, k);
        WaitsKept(events, log, n, r, j, st, f, k, n);
      }
    }
  }

  lemma WaitsIsActivate(events: seq<Event>, log: Log, j: nat, n: nat)
    requires log.Sized(|log.since|) && j < n <= |log.since| <= |events| && Waits(events, log, j, n)
    ensures events[j].Activate? && log.since[j] == j && log.replies[j].Moving?
  {
  }

  /**
    Any run of block arrivals, in any order and with any verdicts, and of any
    number of threads in `ActivateBestChain`, interleaved between the sections
    that hold the lock. The invariant holds throughout, and every block, section
    and test does what it should. A call returns true only when no branch that
    had arrived by the thread's last section, and is not marked failed, has more
    work than the active one, and false only if the disk failed.
   */
  method Run(valid: Validity, genesis: Id, faults: Faults, events: seq<Event>) returns (log: Log)
    requires forall i :: 0 <= i < |events| ==> Sensible(events[i], valid)
    ensures log.Sized(|events|)
    ensures log.states[0].tree == map[] && log.states[0].failed == {} && log.states[0].tip == None && log.faults[0] == faults
    ensures forall i :: 0 <= i <= |events| ==> Inv(log.states[i], valid) && log.states[i].haveData == Accepted(events, log.replies, i)
    ensures Ran(genesis, events, log)
  {
    hide Settled, Grows, Inv, IsChain, Accepted, AllKnown, EventOk;
    var cs := new ChainState(valid, genesis, faults);
    log := Log([], [], [cs.Now()], [faults]);
    var locals: map<Thread, (Id, nat)> := map[];
    NothingAccepted(events);
    NobodyKnown(events, log);
    for n := 0 to |events|
      invariant cs.Valid() && cs.valid == valid && cs.genesis == genesis && fresh(cs) && fresh(cs.chainActive)
      invariant log.Sized(n) && log.states[n] == cs.Now() && log.faults[n] == cs.faults
      invariant log.states[0].tree == map[] && log.states[0].failed == {} && log.states[0].tip == None && log.faults[0] == faults
      invariant log.states[0].haveData == {} && log.states[0].seqId == map[]
      invariant forall i :: 0 <= i <= n ==> Inv(log.states[i], valid) && log.states[i].haveData == Accepted(events, log.replies, i)
      invariant forall i :: 0 <= i < n ==> EventOk(genesis, events, log, i)
      invariant AllKnown(events, log, locals)
    {
      ghost var log0 := log;
      log, locals := RunNext(cs, events, n, log, locals);
      forall i | 0 <= i < n
        ensures EventOk(genesis, events, log, i)
      {
        EventKept(genesis, events, log0, n, log.replies[n], log.since[n], log.states[n + 1], log.faults[n + 1], i);
      }
    }
  }

  lemma NobodyKnown(events: seq<Event>, log: Log)
    requires log.Sized(0)
    ensures AllKnown(events, log, map[])
  {
  }

  /** One event of a run; `locals` has the threads that are at their test. */
  method RunNext(cs: ChainState, events: seq<Event>, n: nat, log: Log, locals: map<Thread, (Id, nat)>)
    returns (log': Log, locals': map<Thread, (Id, nat)>)
    requires n < |events| && cs.Valid() && Sensible(events[n], cs.valid)
    requires log.Sized(n) && log.states[n] == cs.Now() && log.faults[n] == cs.faults
    requires cs.haveData == Accepted(events, log.replies, n) && AllKnown(events, log, locals)
    modifies cs, cs.chainActive
    ensures cs.Valid() && log'.Sized(n + 1) && log'.states[n + 1] == cs.Now() && log'.faults[n + 1] == cs.faults
    ensures log' == log.Add(log'.replies[n], log'.since[n], log'.states[n + 1], log'.faults[n + 1])
    ensures forall i :: 0 <= i <= n ==> Accepted(events, log'.replies, i) == Accepted(events, log.replies, i)
    ensures cs.haveData == Accepted(events, log'.replies, n + 1) && EventOk(cs.genesis, events, log', n)
    ensures AllKnown(events, log', locals')
  {
    hide Grows, Inv, IsChain, Accepted, AtTest, EventOk, Belongs, Waits, Target, BestBranch, Covers, BlockDone, Advances;
    var e, j, at := events[n], n, None;
    if e.Activate? && e.t in locals {
      AtTestIs(events, log, n, e.t, locals[e.t]);
      at, j := Some(locals[e.t].0), locals[e.t].1;
    } else {
      NotAtTest(events, log, n, locals);
    }
    var r := Handle(cs, e, at, log.states[if at.Some? then j + 1 else n]);
    AcceptedNext(events, log.replies, r, n);
    log' := log.Add(r, j, cs.Now(), cs.faults);
    EventAdded(cs.genesis, events, log, n, r, j, cs.Now(), cs.faults);
    locals' := NextLocals(locals, e, r, j, n);
    KnownNext(events, log, n, locals, r, j, cs.Now(), cs.faults);
  }

  /** One event; `at` is what its thread is heading for if it is at its test, and `since` the state after its section. */
  method Handle(cs: ChainState, e: Event, at: Option<Id>, ghost since: State) returns (r: Reply)
    requires cs.Valid() && Sensible(e, cs.valid)
    requires at.Some? ==> e.Activate? && Target(since, at.value) && Grows(since, cs.Now())
    modifies cs, cs.chainActive
    ensures cs.Valid() && Grows(old(cs.Now()), cs.Now())
    ensures at.None? ==> Settled(cs.genesis, e, r, old(cs.Now()), cs.Now(), old(cs.faults), cs.faults)
    ensures at.Some? ==> TestDone(at.value, r, since, old(cs.Now()), cs.Now(), old(cs.faults), cs.faults)
    ensures cs.haveData == old(cs.haveData) + if e.Block? && r.Stored? then {e.b} else {}
  {
    hide Complete, FailedJustly, TipOk, BestTip, Covers, Skips, IsChain, Links, Target, NoneBetter, Closer, HeaderAccepted, Preferred, Chosen;
    match e {
      case Block(b, prev, proof, headerOk, txs, blockOk, corrupt) =>
        var ok := cs.AcceptBlock(b, prev, proof, headerOk, txs, blockOk, corrupt);
        r := if ok then Stored else Refused;
      case Activate(_) =>
        if at.Some? {
          r := TestTip(cs, at.value, since);
        } else {
          r := EnterSection(cs);
        }
    }
  }

  /** The section that a thread enters next: it returns, or goes on to the test. */
  method EnterSection(cs: ChainState) returns (r: Reply)
    requires cs.Valid()
    modifies cs.chainActive, cs`failed, cs`candidates, cs`faults
    ensures cs.Valid() && Grows(old(cs.Now()), cs.Now())
    ensures SectionDone(r, old(cs.Now()), cs.Now(), old(cs.faults), cs.faults)
  {
    hide Complete, FailedJustly, TipOk, BestTip, BestBranch, Chosen, Skips, IsChain, Links, Target, NoneBetter, Preferred, SeqOk, SeqBelow;
    var data := cs.faults.data;
    var end := cs.ActivateSection();
    match end {
      case Nothing =>
        BestTipIsBest(cs.Now());
        return Returned(true);
      case Failed =>
        return Returned(false);
      case Stepped(m) =>
        NoneBetterIsTarget(cs.Now(), m);
        if cs.chainActive.Tip() == Some(m) {
          TargetIsBest(cs.Now(), m);
          BestTipIsBest(cs.Now());
        }
        return Moving(m, cs.faults.data < data);
    }
  }

  /** The test at the end of the loop, and the flush after it. */
  method TestTip(cs: ChainState, m: Id, ghost since: State) returns (r: Reply)
    requires cs.Valid() && Target(since, m) && Grows(since, cs.Now())
    modifies cs`faults
    ensures cs.Valid() && TestDone(m, r, since, old(cs.Now()), cs.Now(), old(cs.faults), cs.faults)
  {
    hide Skips, IsChain, Links, Wf, Usable;
    if Some(m) != cs.chainActive.Tip() {
      return Again;
    }
    var flushFails: bool := *;
    if flushFails && cs.faults.disk > 0 {
      cs.faults := cs.faults.(disk := cs.faults.disk - 1);
      return Returned(false);
    }
    r := Returned(true);
  }

  /**
    Without new data since the section, the active branch is the best one on
    return; in general it is exactly if nothing usable that has arrived since
    has more work.
   */
  lemma CoversIsBest(st: State, st': State)
    requires Covers(st, st') && Grows(st, st') && Wf(st'.tree) && st.haveData <= st.tree.Keys
    ensures BestBranch(st') <==>
      forall b :: b in st'.tree && Usable(st', b) && !(b in st.tree && Usable(st, b)) ==>
        st'.tip.Some? && st'.tree[b].work <= st'.tree[st'.tip.value].work
    ensures st'.haveData == st.haveData ==> BestBranch(st')
  {
    hide Wf, Path;
    if st'.haveData == st.haveData {
      forall b | b in st'.tree && Usable(st', b)
        ensures b in st.tree && Usable(st, b)
      {
        UsableBefore(st, st', b);
      }
    }
  }

  /** A usable block on top of the tip has more work than the tip. */
  lemma ChildBeats(st: State, b: Id)
    requires Wf(st.tree) && b in st.tree && Usable(st, b) && st.tip.Some? && st.tree[b].prev == st.tip
    ensures !BestBranch(st)
  {
    hide Path;
    assert NodeOk(st.tree, b);
  }

  // ---------------------------------------------------------------------------
  // The branch received first
  // ---------------------------------------------------------------------------

  /** Within the first `n` events there is a moment at which `a` had arrived and `b` had not. */
  ghost predicate ReceivedBefore(log: Log, n: nat, a: Id, b: Id)
    requires log.Sized(|log.since|) && n <= |log.since|
  {
    exists i :: 0 <= i <= n && a in log.states[i].haveData && b !in log.states[i].haveData
  }

  /** A run in which every event went as it should. */
  ghost predicate Ran(genesis: Id, events: seq<Event>, log: Log) {
    && log.Sized(|events|) && log.states[0].haveData == {} && log.states[0].seqId == map[]
    && forall i :: 0 <= i < |events| ==> EventOk(genesis, events, log, i)
  }

  /** What one event does to the data that has arrived and its numbers. */
  lemma EventNumbers(genesis: Id, events: seq<Event>, log: Log, i: nat)
    requires Ran(genesis, events, log) && i < |events| && log.states[i].seqId.Keys == log.states[i].haveData
    ensures
      var st, st' := log.states[i], log.states[i + 1];
      && st.haveData <= st'.haveData && st'.seqId.Keys == st'.haveData
      && (forall x :: x in st.seqId ==> st'.seqId[x] == st.seqId[x])
      && (forall x, y :: x in st'.haveData - st.haveData && y in st.haveData ==> st'.seqId[y] < st'.seqId[x])
      && (forall x, y :: x in st'.haveData - st.haveData && y in st'.haveData - st.haveData ==> x == y)
  {
    hide Belongs, Target, Chosen, BestBranch, Covers, Advances, HeaderAccepted;
    assert EventOk(genesis, events, log, i);
  }

  /** A higher number means received later, in every state of every run. */
  lemma {:induction false} NumbersAreArrival(genesis: Id, events: seq<Event>, log: Log, n: nat)
    requires Ran(genesis, events, log) && n <= |events|
    ensures
      var st := log.states[n];
      && st.seqId.Keys == st.haveData
      && forall a, b {:trigger st.seqId[a], st.seqId[b]} :: a in st.haveData && b in st.haveData && a != b ==>
           (st.seqId[a] < st.seqId[b] <==> ReceivedBefore(log, n, a, b)) && st.seqId[a] != st.seqId[b]
  {
    hide Ran;
    RanStart(genesis, events, log);
    if n > 0 {
      NumbersAreArrival(genesis, events, log, n - 1);
      EventNumbers(genesis, events, log, n - 1);
      var st, st' := log.states[n - 1], log.states[n];
      forall a, b | a in st'.haveData && b in st'.haveData && a != b
        ensures (st'.seqId[a] < st'.seqId[b] <==> ReceivedBefore(log, n, a, b)) && st'.seqId[a] != st'.seqId[b]
      {
        ReceivedNext(genesis, events, log, n - 1, a, b);
        assert a in st.haveData || a in st'.haveData - st.haveData;
        assert b in st.haveData || b in st'.haveData - st.haveData;
        if a in st.haveData && b in st.haveData {
          assert st.seqId[a] == st'.seqId[a] && st.seqId[b] == st'.seqId[b];
        }
      }
    }
  }

  lemma RanStart(genesis: Id, events: seq<Event>, log: Log)
    requires Ran(genesis, events, log)
    ensures log.Sized(|events|) && log.states[0].haveData == {} && log.states[0].seqId == map[]
  {
  }

  lemma {:induction false} DataGrows(genesis: Id, events: seq<Event>, log: Log, i: nat, n: nat)
    requires Ran(genesis, events, log) && i <= n <= |events|
    ensures log.states[i].haveData <= log.states[n].haveData
  {
    hide Settled, TestDone, Belongs;
    if i < n {
      DataGrows(genesis, events, log, i, n - 1);
      assert EventOk(genesis, events, log, n - 1);
    }
  }

  lemma ReceivedNext(genesis: Id, events: seq<Event>, log: Log, n: nat, a: Id, b: Id)
    requires Ran(genesis, events, log) && n < |events|
    requires a in log.states[n + 1].haveData && b in log.states[n + 1].haveData
    ensures ReceivedBefore(log, n + 1, a, b) <==> ReceivedBefore(log, n, a, b)
    ensures a in log.states[n].haveData && b !in log.states[n].haveData ==> ReceivedBefore(log, n, a, b)
    ensures a !in log.states[n].haveData ==> !ReceivedBefore(log, n, a, b)
  {
    hide EventOk;
    if a !in log.states[n].haveData && ReceivedBefore(log, n, a, b) {
      var i :| 0 <= i <= n && a in log.states[i].haveData && b !in log.states[i].haveData;
      DataGrows(genesis, events, log, i, n);
    }
  }

  /**
    A section sets out only for a branch that has more work than the active one,
    or as much and was received earlier; and of all usable branches with as much
    work as that one it was received first.
   */
  lemma EarliestWins(genesis: Id, events: seq<Event>, log: Log, i: nat)
    requires Ran(genesis, events, log) && i < |events| && log.since[i] == i && log.replies[i].Moving?
    ensures
      var m, st, st' := log.replies[i].target, log.states[i], log.states[i + 1];
      && m in st.tree && Wf(st'.tree) && m in st'.tree && (st.tip.Some? ==> st.tip.value in st.tree)
      && (st.tip.Some? ==> st.tree[m].work > st.tree[st.tip.value].work
                           || (st.tree[m].work == st.tree[st.tip.value].work && ReceivedBefore(log, i, m, st.tip.value)))
      && forall b :: b in st'.tree && Usable(st', b) && b != m ==>
           st'.tree[m].work > st'.tree[b].work || (st'.tree[m].work == st'.tree[b].work && ReceivedBefore(log, i, m, b))
  {
    hide Ran, Usable, ReceivedBefore, BlockDone, Advances, Wf;
    RanStart(genesis, events, log);
    NumbersAreArrival(genesis, events, log, i);
    SectionAt(genesis, events, log, i);
    var m, st, st' := log.replies[i].target, log.states[i], log.states[i + 1];
    forall b | b in st'.tree && Usable(st', b) && b != m
      ensures st'.tree[m].work > st'.tree[b].work || (st'.tree[m].work == st'.tree[b].work && ReceivedBefore(log, i, m, b))
    {
      assert Preferred(st', m, b);
    }
  }

  lemma SectionAt(genesis: Id, events: seq<Event>, log: Log, i: nat)
    requires Ran(genesis, events, log) && i < |events| && log.since[i] == i && log.replies[i].Moving?
    ensures SectionDone(log.replies[i], log.states[i], log.states[i + 1], log.faults[i], log.faults[i + 1])
  {
    hide SectionDone, BlockDone, TestDone;
    assert EventOk(genesis, events, log, i);
  }

  // ---------------------------------------------------------------------------
  // A run that returns too early
  // ---------------------------------------------------------------------------

  /** Blocks 0 and 1, each on top of the one before, both valid; a thread takes one step before block 1 arrives and one after. */
  function TwoBlocks(): (events: seq<Event>)
    ensures |events| == 4
  {
    [Block(0, 0, 1, true, 1, true, false), Activate(0), Block(1, 0, 1, true, 1, true, false), Activate(0)]
  }

  predicate Everything(b: Id) {
    true
  }

  /** In that run nothing goes wrong, and yet the call returns true while block 1, which has arrived, is better. */
  method ReturnsTooEarly() returns (log: Log)
    ensures log.Sized(4) && log.replies[3] == Returned(true) && !BestBranch(log.states[4])
  {
    hide EventOk, Inv, BestBranch;
    log := Run(Everything, 0, Faults(0, 0), TwoBlocks());
    EarlyReturn(log);
  }

  /** A run of the two blocks, as `Run` describes it. */
  ghost predicate RanTwo(log: Log) {
    && log.Sized(4) && log.states[0].tree == map[] && log.states[0].tip == None && log.faults[0] == Faults(0, 0)
    && (forall i :: 0 <= i <= 4 ==> Inv(log.states[i], Everything))
    && (forall i :: 0 <= i < 4 ==> EventOk(0, TwoBlocks(), log, i))
  }

  lemma NothingFailed(st: State)
    requires Inv(st, Everything)
    ensures st.failed == {} && Wf(st.tree) && st.haveData <= st.tree.Keys
  {
    hide Complete, TipOk;
    assert forall b :: b in st.tree ==> AllValid(st.tree, Everything, b);
  }

  /** The state with the first `n` of the two blocks, of which 0 may be the tip. */
  ghost predicate Holds(log: Log, i: nat, n: nat, tip: Option<Id>)
    requires log.Sized(4) && i <= 4
  {
    var st := log.states[i];
    && st.tree.Keys == (if n == 0 then {} else if n == 1 then {0} else {0, 1}) && st.haveData == st.tree.Keys && st.tip == tip && log.faults[i] == Faults(0, 0)
    && (n > 0 ==> st.tree[0].prev == None) && (n > 1 ==> st.tree[1].prev == Some(0))
  }

  lemma FirstArrives(log: Log)
    requires RanTwo(log)
    ensures Holds(log, 1, 1, None)
  {
    hide Inv, Grows, SectionDone, TestDone;
    NothingFailed(log.states[0]);
    assert EventOk(0, TwoBlocks(), log, 0);
  }

  lemma FirstIsActive(log: Log)
    requires RanTwo(log) && Holds(log, 1, 1, None)
    ensures Holds(log, 2, 1, Some(0)) && log.since[1] == 1 && log.replies[1] == Moving(0, false)
  {
    hide Inv, Grows, TestDone, BlockDone, Wf, Path;
    assert EventOk(0, TwoBlocks(), log, 1);
    NothingFailed(log.states[1]);
    NothingFailed(log.states[2]);
    AllUsable(log.states[2]);
  }

  lemma AllUsable(st: State)
    requires Wf(st.tree) && st.failed == {} && st.haveData == st.tree.Keys
    ensures forall b :: b in st.tree ==> Usable(st, b)
  {
  }

  lemma SecondArrives(log: Log)
    requires RanTwo(log) && Holds(log, 2, 1, Some(0))
    ensures Holds(log, 3, 2, Some(0))
  {
    hide Inv, Grows, SectionDone, TestDone;
    NothingFailed(log.states[2]);
    assert EventOk(0, TwoBlocks(), log, 2);
    assert TwoBlocks()[0] != TwoBlocks()[2] && TwoBlocks()[1] != TwoBlocks()[2];
  }

  lemma EarlyReturn(log: Log)
    requires RanTwo(log)
    ensures log.replies[3] == Returned(true) && !BestBranch(log.states[4])
  {
    hide Inv, Grows, BlockDone, SectionDone, BestBranch, Covers, Wf, Path, Usable;
    FirstArrives(log);
    FirstIsActive(log);
    SecondArrives(log);
    assert EventOk(0, TwoBlocks(), log, 3);
    assert Waits(TwoBlocks(), log, 1, 3);
    assert TwoBlocks()[2] != TwoBlocks()[3] && TwoBlocks()[0] != TwoBlocks()[3];
    NothingFailed(log.states[4]);
    AllUsable(log.states[4]);
    ChildBeats(log.states[4], 1);
  }

  lemma UsableBefore(st: State, st': State, b: Id)
    requires Wf(st.tree) && Wf(st'.tree) && Grows(st, st') && st.haveData <= st.tree.Keys && st'.haveData == st.haveData
    requires b in st'.tree && Usable(st', b)
    ensures b in st.tree && Usable(st, b)
  {
    var path := Path(st'.tree, b);
    assert path[|path| - 1] == b && b in path;
    PathGrows(st.tree, st'.tree, b);
  }

  lemma NothingAccepted(events: seq<Event>)
    ensures Accepted(events, [], 0) == {}
  {
  }

  lemma {:induction false} AcceptedPrefix(events: seq<Event>, replies: seq<Reply>, replies': seq<Reply>, n: nat)
    requires n <= |events| && n <= |replies| && n <= |replies'| && replies[..n] == replies'[..n]
    ensures Accepted(events, replies, n) == Accepted(events, replies', n)
  {
    if n > 0 {
      assert replies[..n][n - 1] == replies'[..n][n - 1] && replies[..n - 1] == replies'[..n - 1];
      AcceptedPrefix(events, replies, replies', n - 1);
    }
  }

  lemma AcceptedNext(events: seq<Event>, replies: seq<Reply>, r: Reply, n: nat)
    requires n < |events| && |replies| == n
    ensures forall i :: 0 <= i <= n ==> Accepted(events, replies + [r], i) == Accepted(events, replies, i)
    ensures Accepted(events, replies + [r], n + 1) ==
      Accepted(events, replies, n) + if events[n].Block? && r.Stored? then {events[n].b} else {}
  {
    forall i | 0 <= i <= n
      ensures Accepted(events, replies + [r], i) == Accepted(events, replies, i)
    {
      AcceptedPrefix(events, replies + [r], replies, i);
    }
  }
}
