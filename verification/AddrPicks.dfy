/**
  How addrman.cpp chooses which address to give up. Random numbers and the
  clock are parameters.
 */
module AddrPicks {
  import opened AddrTables
  import opened Sequences

  const INSPECT_ON_EVICT: nat := 4
  const HORIZON_DAYS := 30
  const RETRIES := 3
  const MAX_FAILURES := 10
  const MIN_FAIL_DAYS := 7
  const DAY := 24 * 60 * 60

  predicate IsTerrible(info: Info, nNow: int) {
    && !(info.nLastTry != 0 && info.nLastTry >= nNow - 60)
    && (|| info.nTime > nNow + 10 * 60
        || info.nTime == 0
        || nNow - info.nTime > HORIZON_DAYS * DAY
        || (info.nLastSuccess == 0 && info.nAttempts >= RETRIES)
        || (nNow - info.nLastSuccess > MIN_FAIL_DAYS * DAY && info.nAttempts >= MAX_FAILURES))
  }

  /** The elements of a bucket in some order. */
  ghost predicate Lists(order: seq<Id>, ids: set<Id>) {
    |order| == |ids| && forall x :: x in order <==> x in ids
  }

  method Enumerate(ids: set<Id>) returns (order: seq<Id>)
    ensures Lists(order, ids)
  {
    order := [];
    var rest := ids;
    while rest != {}
      invariant |order| + |rest| == |ids|
      invariant forall x :: x in ids <==> x in order || x in rest
    {
      var x: Id :| x in rest;
      order, rest := order + [x], rest - {x};
    }
  }

  ghost predicate Known(order: seq<Id>, mapInfo: map<Id, Info>) {
    forall i :: 0 <= i < |order| ==> order[i] in mapInfo
  }

  /** The first loop of `ShrinkNew`. */
  method FindTerrible(order: seq<Id>, mapInfo: map<Id, Info>, nNow: int) returns (r: int)
    requires Known(order, mapInfo)
    ensures r != -1 ==> 0 <= r < |order| && IsTerrible(mapInfo[order[r]], nNow)
    ensures r == -1 ==> forall i :: 0 <= i < |order| ==> !IsTerrible(mapInfo[order[i]], nNow)
  {
    for i := 0 to |order|
      invariant forall j :: 0 <= j < i ==> !IsTerrible(mapInfo[order[j]], nNow)
    {
      if IsTerrible(mapInfo[order[i]], nNow) {
        return i;
      }
    }
    r := -1;
  }

  /** The second loop of `ShrinkNew`: the one seen longest ago of those at the drawn places. */
  method FindOldest(order: seq<Id>, mapInfo: map<Id, Info>, n: seq<nat>) returns (nOldest: int, ghost place: nat)
    requires Known(order, mapInfo)
    requires n != [] && forall i :: 0 <= i < |n| ==> n[i] < |order|
    ensures place < |order| && place in n && nOldest == order[place]
    ensures forall i :: 0 <= i < |order| && i in n ==> mapInfo[nOldest].nTime <= mapInfo[order[i]].nTime
  {
    nOldest, place := -1, 0;
    for nI := 0 to |order|
      invariant nOldest == -1 ==> forall i :: 0 <= i < nI ==> i !in n
      invariant nOldest != -1 ==> place < nI && place in n && nOldest == order[place]
      invariant nOldest != -1 ==> forall i :: 0 <= i < nI && i in n ==> mapInfo[nOldest].nTime <= mapInfo[order[i]].nTime
    {
      if nI in n {
        if nOldest == -1 || mapInfo[order[nI]].nTime < mapInfo[nOldest].nTime {
          nOldest, place := order[nI], nI;
        }
      }
    }
    assert n[0] in n;
  }

  // ---------------------------------------------------------------------------
  // Shuffling a tried bucket
  // ---------------------------------------------------------------------------

  /** `draws[i]` is the random number of round `i`. */
  predicate DrawsOk(draws: seq<nat>, size: nat) {
    |draws| == INSPECT_ON_EVICT && forall i :: 0 <= i < |draws| && i < size ==> draws[i] < size - i
  }

  /** The bucket after `n` rounds: round `i` swaps place `i` with a random place from there on. */
  function Shuffled(s: seq<Id>, draws: seq<nat>, n: nat): (r: seq<Id>)
    requires DrawsOk(draws, |s|) && n <= |s| && n <= INSPECT_ON_EVICT
    ensures |r| == |s|
  {
    if n == 0 then s
    else
      var t, i := Shuffled(s, draws, n - 1), n - 1;
      t[i + draws[i] := t[i]][i := t[i + draws[i]]]
  }

  lemma ShuffledNone(s: seq<Id>, draws: seq<nat>)
    requires DrawsOk(draws, |s|)
    ensures Shuffled(s, draws, 0) == s
  {
  }

  lemma ShuffledOnce(s: seq<Id>, draws: seq<nat>, i: nat)
    requires DrawsOk(draws, |s|) && i < |s| && i < INSPECT_ON_EVICT
    ensures
      var t := Shuffled(s, draws, i);
      Shuffled(s, draws, i + 1) == t[i + draws[i] := t[i]][i := t[i + draws[i]]]
  {
  }

  function Inspected(size: nat): nat {
    if size < INSPECT_ON_EVICT then size else INSPECT_ON_EVICT
  }

  ghost predicate Rearranged(s: seq<Id>, t: seq<Id>) {
    |s| == |t| && multiset(s) == multiset(t)
  }

  lemma SwapKeeps(s: seq<Id>, i: nat, j: nat)
    requires i < |s| && j < |s|
    ensures Rearranged(s[j := s[i]][i := s[j]], s)
  {
  }

  lemma {:induction false} ShuffleKeeps(s: seq<Id>, draws: seq<nat>, n: nat)
    requires DrawsOk(draws, |s|) && n <= |s| && n <= INSPECT_ON_EVICT
    ensures Rearranged(Shuffled(s, draws, n), s)
  {
    if n > 0 {
      ShuffleKeeps(s, draws, n - 1);
      SwapKeeps(Shuffled(s, draws, n - 1), n - 1, n - 1 + draws[n - 1]);
    }
  }

  /** Of the first `n` entries, the one at `first` had its last success longest ago. */
  ghost predicate LeastRecent(first: nat, vTried: seq<Id>, n: nat, mapInfo: map<Id, Info>)
    requires Known(vTried, mapInfo) && n <= |vTried|
  {
    && first < n
    && (forall i :: 0 <= i < n ==> mapInfo[vTried[first]].nLastSuccess <= mapInfo[vTried[i]].nLastSuccess)
    && (forall i :: 0 <= i < first ==> mapInfo[vTried[first]].nLastSuccess < mapInfo[vTried[i]].nLastSuccess)
  }

  /**
    The loop of `SelectTried` over a tried bucket. Of the entries it inspects, now in front, the one
    at `first` had its last success longest ago; but the position returned is where that entry was
    before its swap.
   */
  method ShuffleTried(vTried: seq<Id>, mapInfo: map<Id, Info>, draws: seq<nat>)
    returns (shuffled: seq<Id>, nOldestPos: int, ghost first: nat)
    requires Known(vTried, mapInfo) && DrawsOk(draws, |vTried|)
    ensures shuffled == Shuffled(vTried, draws, Inspected(|vTried|)) && Known(shuffled, mapInfo)
    ensures vTried == [] ==> nOldestPos == -1
    ensures vTried != [] ==> LeastRecent(first, shuffled, Inspected(|vTried|), mapInfo) && nOldestPos == first + draws[first]
  {
    hide Shuffled;
    ShuffledNone(vTried, draws);
    shuffled := vTried;
    var nOldest: int := -1;
    nOldestPos, first := -1, 0;
    var i := 0;
    while i < INSPECT_ON_EVICT && i < |shuffled|
      invariant 0 <= i <= |vTried| && i <= INSPECT_ON_EVICT
      invariant shuffled == Shuffled(vTried, draws, i) && Known(shuffled, mapInfo)
      invariant (i == 0 <==> nOldest == -1) && (i == 0 ==> nOldestPos == -1)
      invariant i > 0 ==> LeastRecent(first, shuffled, i, mapInfo) && nOldest == shuffled[first] && nOldestPos == first + draws[first]
    {
      ShuffledOnce(vTried, draws, i);
      var nPos := draws[i] + i;
      var nTemp := shuffled[nPos];
      shuffled := shuffled[nPos := shuffled[i]];
      shuffled := shuffled[i := nTemp];
      if nOldest == -1 || mapInfo[nTemp].nLastSuccess < mapInfo[nOldest].nLastSuccess {
        nOldest, nOldestPos, first := nTemp, nPos, i;
      }
      i := i + 1;
    }
  }

  /** The returned position holds the entry that was picked exactly if that entry was not moved. */
  lemma PickedIffUnmoved(vTried: seq<Id>, draws: seq<nat>, first: nat)
    requires Distinct(vTried) && DrawsOk(draws, |vTried|) && first < Inspected(|vTried|)
    ensures
      var shuffled := Shuffled(vTried, draws, Inspected(|vTried|));
      shuffled[first + draws[first]] == shuffled[first] <==> draws[first] == 0
  {
    hide Shuffled;
    ShuffleKeeps(vTried, draws, Inspected(|vTried|));
    DistinctPermuted(vTried, Shuffled(vTried, draws, Inspected(|vTried|)));
  }

  /** Entry 1 is picked, and the position returned is that of entry 0, whose last success is later. */
  lemma WrongPosition(mapInfo: map<Id, Info>)
    requires 0 in mapInfo && 1 in mapInfo && mapInfo[1].nLastSuccess < mapInfo[0].nLastSuccess
    ensures
      var vTried, draws := [0, 1], [1, 0, 0, 0];
      && DrawsOk(draws, 2) && Shuffled(vTried, draws, 2) == [1, 0]
      && LeastRecent(0, Shuffled(vTried, draws, 2), 2, mapInfo)
      && Shuffled(vTried, draws, 2)[0 + draws[0]] == 0
  {
    var vTried: seq<Id>, draws := [0, 1], [1, 0, 0, 0];
    assert Shuffled(vTried, draws, 0) == [0, 1];
    assert Shuffled(vTried, draws, 1) == [1, 0];
    assert Shuffled(vTried, draws, 2) == [1, 0];
  }
}
