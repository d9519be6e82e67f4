/**
  The operations of addrman.cpp. Hashes, the clock and random numbers are
  arbitrary choices, so every operation is proved for all of them.
 */
module AddrMan {
  import AddrCheck
  import opened AddrPicks
  import opened AddrTables
  import opened Arithmetic
  import opened Options

  const GETADDR_MAX_PCT := 23
  const GETADDR_MAX := 2500

  class CAddrMan {
    var nIdCount: nat
    var mapInfo: map<Id, Info>
    var mapAddr: map<nat, Id>
    var vRandom: seq<Id>
    var nTried: int
    var vvTried: seq<seq<Id>>
    var nNew: int
    var vvNew: seq<set<Id>>

    function Now(): State
      reads this
    {
      State(nIdCount, mapInfo, mapAddr, vRandom, nTried, vvTried, nNew, vvNew)
    }

    /** All five indexes agree. */
    ghost predicate Valid()
      reads this
    {
      Agrees(Now(), {})
    }

    constructor ()
      ensures Valid() && mapInfo == map[] && mapAddr == map[]
    {
      nIdCount, mapInfo, mapAddr, vRandom, nTried, nNew := 0, map[], map[], [], 0, 0;
      vvTried := seq(TRIED_BUCKET_COUNT, _ => []);
      vvNew := seq(NEW_BUCKET_COUNT, _ => {});
      new;
      assert TriedIds(mapInfo) == {} && NewIds(mapInfo) == {};
      forall id
        ensures CountsOk(Now(), id, {})
      {
        EmptyNew(vvNew, id);
        EmptyTried(vvTried, id);
      }
    }

    function Find(net: nat): Option<Id>
      reads this
    {
      FindIn(Now(), net)
    }

    /** `SwapRandom`; the assertions in it are its precondition. */
    method SwapRandom(i: nat, j: nat)
      requires i < |vRandom| && j < |vRandom| && vRandom[i] in mapInfo && vRandom[j] in mapInfo
      modifies this`mapInfo, this`vRandom
      ensures Now() == if i == j then old(Now()) else Swapped(old(Now()), i, j)
    {
      if i == j {
        return;
      }
      var a, b := vRandom[i], vRandom[j];
      mapInfo := mapInfo[a := mapInfo[a].(nRandomPos := j)];
      mapInfo := mapInfo[b := mapInfo[b].(nRandomPos := i)];
      vRandom := vRandom[i := b];
      vRandom := vRandom[j := a];
    }

    // -------------------------------------------------------------------------
    // Making room in a "new" bucket
    // -------------------------------------------------------------------------

    /** What `ShrinkNew` does with an entry that has lost its last reference. */
    method Forget(id: Id)
      requires id in mapInfo && 0 <= mapInfo[id].nRandomPos < |vRandom|
      requires vRandom[mapInfo[id].nRandomPos] == id && vRandom[|vRandom| - 1] in mapInfo
      modifies this`mapInfo, this`mapAddr, this`vRandom, this`nNew
      ensures Now() == Forgotten(old(Now()), id)
    {
      var info := mapInfo[id];
      SwapRandom(info.nRandomPos, |vRandom| - 1);
      vRandom := vRandom[..|vRandom| - 1];
      mapAddr := mapAddr - {info.net};
      mapInfo := mapInfo - {id};
      nNew := nNew - 1;
    }

    /** Take an entry out of a bucket, and forget it altogether with its last reference. */
    method Evict(b: nat, id: Id, ghost extra: set<Id>)
      requires Agrees(Now(), extra) && b < NEW_BUCKET_COUNT == |vvNew| && id in vvNew[b] && id !in extra
      modifies this
      ensures Agrees(Now(), extra) && Evicted(old(Now()), Now(), b, id)
    {
      hide Agrees, CountsOk, Forgotten;
      ghost var st := Now();
      DropAgrees(st, extra, id, b);
      var info := mapInfo[id];
      var refs := info.nRefCount - 1;
      mapInfo := mapInfo[id := info.(nRefCount := refs)];
      if refs == 0 {
        LastReference(st, extra, id, b);
        Forget(id);
      }
      vvNew := vvNew[b := vvNew[b] - {id}];
    }

    /**
      `ShrinkNew`: a terrible entry goes first; otherwise the one seen longest ago of those at four
      random places, given by `n`. Entries in the tried table are left alone.
     */
    method ShrinkNew(b: nat, nNow: int, n: seq<nat>, ghost extra: set<Id>) returns (r: int, ghost victim: Id, ghost order: seq<Id>)
      requires Agrees(Now(), extra) && b < NEW_BUCKET_COUNT == |vvNew| && vvNew[b] !! extra
      requires |n| == 4 && forall i :: 0 <= i < 4 ==> n[i] < |vvNew[b]|
      modifies this
      ensures Agrees(Now(), extra) && victim in old(vvNew[b]) && Evicted(old(Now()), Now(), b, victim)
      ensures Lists(order, old(vvNew[b])) && Known(order, old(mapInfo)) && victim in old(mapInfo)
      ensures r == 0 ==> IsTerrible(old(mapInfo)[victim], nNow)
      ensures r != 0 ==>
        && r == 1 && (forall i :: 0 <= i < |order| ==> !IsTerrible(old(mapInfo)[order[i]], nNow))
        && (exists i :: 0 <= i < |order| && i in n && order[i] == victim)
        && (forall i :: 0 <= i < |order| && i in n ==> old(mapInfo)[victim].nTime <= old(mapInfo)[order[i]].nTime)
    {
      hide Agrees, Evicted;
      var vNew := Enumerate(vvNew[b]);
      order := vNew;
      BucketKnown(Now(), extra, b, vNew);
      var bad := FindTerrible(vNew, mapInfo, nNow);
      if bad != -1 {
        victim := vNew[bad];
        Evict(b, vNew[bad], extra);
        return 0, victim, vNew;
      }
      ghost var place: nat;
      var nOldest: int;
      nOldest, place := FindOldest(vNew, mapInfo, n);
      victim := vNew[place];
      Evict(b, nOldest, extra);
      r := 1;
    }

    // -------------------------------------------------------------------------
    // From "new" to "tried"
    // -------------------------------------------------------------------------

    /** `SelectTried`; `draws` are its random numbers. */
    method SelectTried(k: nat, draws: seq<nat>) returns (nOldestPos: int, ghost first: nat)
      requires k < |vvTried| && Known(vvTried[k], mapInfo) && DrawsOk(draws, |vvTried[k]|)
      modifies this`vvTried
      ensures vvTried == old(vvTried)[k := Shuffled(old(vvTried[k]), draws, Inspected(old(|vvTried[k]|)))]
      ensures vvTried[k] == [] ==> nOldestPos == -1
      ensures vvTried[k] != [] ==>
        && first < INSPECT_ON_EVICT && nOldestPos == first + draws[first] < |vvTried[k]| && Known(vvTried[k], mapInfo)
        && LeastRecent(first, vvTried[k], Inspected(|vvTried[k]|), mapInfo)
    {
      hide Shuffled;
      var vTried;
      vTried, nOldestPos, first := ShuffleTried(vvTried[k], mapInfo, draws);
      vvTried := vvTried[k := vTried];
    }

    /** The first part of `MakeTried`: no "new" bucket holds the entry any more. */
    method LeaveNew(id: Id, nOrigin: nat)
      requires Movable(Now(), id, nOrigin)
      modifies this`vvNew, this`mapInfo, this`nNew
      ensures Now() == Unplaced(old(Now()), id)
    {
      hide Agrees;
      RoomLeft(Now(), id, nOrigin);
      var bs, n := RemoveEverywhere(vvNew, id);
      vvNew := bs;
      mapInfo := mapInfo[id := mapInfo[id].(nRefCount := mapInfo[id].nRefCount - n)];
      nNew := nNew - 1;
      assert mapInfo[id].nRefCount == 0;
    }

    /** The tried bucket has room. */
    method Append(id: Id, k: nat, ghost st: State)
      requires id in st.mapInfo && Now() == Unplaced(st, id) && k < |vvTried|
      modifies this`vvTried, this`nTried, this`mapInfo
      ensures Now() == Moved(st, id, k)
    {
      hide Without;
      vvTried := vvTried[k := vvTried[k] + [id]];
      nTried := nTried + 1;
      mapInfo := mapInfo[id := mapInfo[id].(fInTried := true)];
    }

    /** The tried bucket is full: the entry at `pos` goes back to the new bucket `u`. */
    method Replace(id: Id, k: nat, pos: nat, u: nat, ghost st: State)
      requires id in st.mapInfo && Now() == Unplaced(st.(vvTried := vvTried), id) && k < |st.vvTried| == |vvTried|
      requires pos < |vvTried[k]| && vvTried[k][pos] in mapInfo && vvTried[k][pos] != id && u < |vvNew|
      modifies this`vvNew, this`vvTried, this`nNew, this`mapInfo
      ensures Now() == Replaced(st.(vvTried := old(vvTried)), id, k, old(vvTried[k]), pos, u)
    {
      hide Without;
      var vTried: seq<Id> := vvTried[k];
      var old_: Id := vTried[pos];
      mapInfo := mapInfo[old_ := mapInfo[old_].(fInTried := false, nRefCount := 1)];
      vvNew := vvNew[u := vvNew[u] + {old_}];
      nNew := nNew + 1;
      vvTried := vvTried[k := vTried[pos := id]];
      mapInfo := mapInfo[id := mapInfo[id].(fInTried := true)];
    }

    /** What `MakeTried` does when the tried bucket is full. */
    method Displace(id: Id, nOrigin: nat, k: nat, ghost st: State)
      requires Movable(st, id, nOrigin) && Now() == Unplaced(st, id)
      requires k < TRIED_BUCKET_COUNT == |vvTried| && |vvTried[k]| == TRIED_BUCKET_SIZE
      modifies this
      ensures Valid() && MadeTried(st, Now(), id, k)
    {
      hide Agrees, Shuffled, LeastRecent, MadeTried, Replaced;
      RoomLeft(st, id, nOrigin);
      TriedKnown(st, k);
      var draws := SomeDraws(|vvTried[k]|);
      ShuffleKeeps(vvTried[k], draws, Inspected(|vvTried[k]|));
      ghost var first: nat;
      var nPos: int;
      nPos, first := SelectTried(k, draws);
      var u: nat :| u < NEW_BUCKET_COUNT;
      if |vvNew[u]| >= NEW_BUCKET_SIZE {
        u := nOrigin;
      }
      ReplaceAgrees(st, id, k, vvTried[k], nPos, u);
      ReplacedMade(st, id, k, vvTried[k], nPos, u, vvTried);
      Replace(id, k, nPos, u, st);
    }

    /** `MakeTried`: `id`, which is in the new bucket `nOrigin`, goes to the tried bucket `k`. */
    method MakeTried(id: Id, nOrigin: nat, k: nat)
      requires Movable(Now(), id, nOrigin) && k < TRIED_BUCKET_COUNT
      modifies this
      ensures Valid() && MadeTried(old(Now()), Now(), id, k)
    {
      hide Agrees, MadeTried, Moved;
      ghost var st := Now();
      RoomLeft(st, id, nOrigin);
      LeaveNew(id, nOrigin);
      if |vvTried[k]| < TRIED_BUCKET_SIZE {
        MoveAgrees(st, id, k);
        MovedMade(st, id, k);
        Append(id, k, st);
      } else {
        Displace(id, nOrigin, k, st);
      }
    }

    // -------------------------------------------------------------------------
    // The public operations
    // -------------------------------------------------------------------------

    /** `Good_`: the entry for that address and port is tried from now on, in the bucket that `hash` chooses. */
    method Good(net: nat, port: nat, nTime: int, hash: nat)
      requires Valid()
      modifies this
      ensures Valid() && GoodDone(old(Now()), Now(), net, port, nTime, hash % TRIED_BUCKET_COUNT)
    {
      hide Agrees, CountsOk, MadeTried;
      ghost var st := Now();
      var found := Find(net);
      if found.None? || mapInfo[found.value].port != port {
        return;
      }
      var id := found.value;
      var info := mapInfo[id].(nLastSuccess := nTime, nLastTry := nTime, nTime := nTime, nAttempts := 0);
      UpdateStats(st, {}, id, info);
      mapInfo := mapInfo[id := info];
      if info.fInTried {
        TriedHasNoReference(st, id);
        return;
      }
      InSomeBucket(Now(), id);
      var nRnd: nat :| nRnd < |vvNew|;
      var nUBucket := FindBucket(vvNew, id, nRnd);
      assert nUBucket != -1;
      ghost var updated := Now();
      var k := hash % TRIED_BUCKET_COUNT;
      MakeTried(id, nUBucket, k);
      MadeGood(st, updated, Now(), id, k, info);
    }

    /** The end of `Add_`: a reference already counted is put into its bucket, after making room. */
    method PlaceReference(id: Id, b: nat, nNow: int)
      requires Agrees(Now(), {id}) && b < NEW_BUCKET_COUNT == |vvNew| && id !in vvNew[b]
      requires id in mapInfo && !mapInfo[id].fInTried
      modifies this
      ensures Valid() && vvTried == old(vvTried) && nTried == old(nTried) && nIdCount == old(nIdCount)
      ensures id in mapInfo && SameEntry(mapInfo[id], old(mapInfo[id])) && b < |vvNew| && id in vvNew[b]
      ensures exists victim :: Spared(old(mapInfo), mapInfo, id, victim) && Evictable(old(Now()), b, victim, nNow)
    {
      hide Agrees;
      ghost var st := Now();
      BucketFits(st, {id}, b);
      if |vvNew[b]| == NEW_BUCKET_SIZE {
        var n := FourOf(|vvNew[b]|);
        ghost var victim, order;
        var r;
        r, victim, order := ShrinkNew(b, nNow, n, {id});
        InNew(st, {id}, victim, b);
        CardRemove(st.vvNew[b], victim);
        assert Spared(st.mapInfo, mapInfo, id, victim) && Evictable(st, b, victim, nNow);
      } else {
        FreshId(st, {id});
        assert Spared(st.mapInfo, mapInfo, id, nIdCount) && Evictable(st, b, nIdCount, nNow);
      }
      PlaceAgrees(Now(), id, b);
      vvNew := vvNew[b := vvNew[b] + {id}];
    }

    /** The first part of `Add_` for an address that is known: whether to refer to it once more. */
    method Refresh(id: Id, nTime: nat, nServices: set<nat>, nTimePenalty: int, nNow: int, draw: nat) returns (more: bool)
      requires Valid() && id in mapInfo
      modifies this`mapInfo
      ensures Valid() && mapInfo.Keys == old(mapInfo.Keys)
      ensures mapInfo == old(mapInfo)[id := old(mapInfo[id]).(
        nTime := NewTime(old(mapInfo[id].nTime), nTime, nTimePenalty, nNow), nServices := old(mapInfo[id].nServices) + nServices)]
      ensures more <==> Refers(mapInfo[id], nTime, draw)
      ensures mapInfo[id].nRefCount >= 0
    {
      hide Agrees;
      ghost var st := Now();
      var info := mapInfo[id];
      var fCurrentlyOnline := nNow - nTime < DAY;
      var nUpdateInterval := if fCurrentlyOnline then 60 * 60 else DAY;
      if nTime != 0 && (info.nTime == 0 || info.nTime < nTime - nUpdateInterval - nTimePenalty) {
        info := info.(nTime := Max(0, nTime - nTimePenalty));
      }
      info := info.(nServices := info.nServices + nServices);
      InRange(st, id);
      UpdateStats(st, {}, id, info);
      mapInfo := mapInfo[id := info];
      if nTime == 0 || (info.nTime != 0 && nTime <= info.nTime) {
        return false;
      }
      if info.fInTried || info.nRefCount == NEW_BUCKETS_PER_ADDRESS {
        return false;
      }
      var nFactor := 1;
      for n := 0 to info.nRefCount
        invariant nFactor == Pow2(n)
      {
        nFactor := nFactor * 2;
      }
      more := !(nFactor > 1 && draw % nFactor != 0);
    }

    /** `Create`, with the first reference that `Add_` then counts. */
    method Create(net: nat, port: nat, nServices: set<nat>, source: nat, nTime: int) returns (id: Id)
      requires Valid() && net !in mapAddr
      modifies this
      ensures id == old(nIdCount) && Now() == Created(old(Now()), NewInfo(net, port, nServices, source, nTime))
      ensures Agrees(Now(), {id}) && id !in old(mapInfo)
    {
      hide Agrees;
      FreshId(Now(), {});
      CreateAgrees(Now(), NewInfo(net, port, nServices, source, nTime));
      id := nIdCount;
      nIdCount := nIdCount + 1;
      mapInfo := mapInfo[id := NewInfo(net, port, nServices, source, nTime)];
      mapAddr := mapAddr[net := id];
      mapInfo := mapInfo[id := mapInfo[id].(nRandomPos := |vRandom|)];
      vRandom := vRandom + [id];
      nNew := nNew + 1;
      mapInfo := mapInfo[id := mapInfo[id].(nRefCount := mapInfo[id].nRefCount + 1)];
    }

    /** `Add_` for an address that is known. */
    method AddKnown(id: Id, nTime: nat, nServices: set<nat>, nTimePenalty: int, nNow: int, b: nat, draw: nat)
      requires Valid() && id in mapInfo && b < NEW_BUCKET_COUNT
      modifies this
      ensures Valid() && vvTried == old(vvTried) && nTried == old(nTried) && id in mapInfo
      ensures mapInfo[id].net in mapAddr && mapAddr[mapInfo[id].net] == id
      ensures Refreshed(old(Now()), Now(), id, nServices, nTime, nTimePenalty, nNow, b, draw)
      ensures exists victim :: Spared(old(mapInfo), mapInfo, id, victim) && Evictable(old(Now()), b, victim, nNow)
    {
      hide Agrees, Spared;
      ghost var st := Now();
      TableSizes(st);
      FreshId(st, {});
      var more := Refresh(id, nTime, nServices, nTimePenalty, nNow, draw);
      if more && id !in vvNew[b] {
        InRange(Now(), id);
        RaiseAgrees(Now(), id);
        mapInfo := mapInfo[id := mapInfo[id].(nRefCount := mapInfo[id].nRefCount + 1)];
        ghost var m := Now();
        PlaceReference(id, b, nNow);
        ghost var victim :| Spared(m.mapInfo, mapInfo, id, victim) && Evictable(m, b, victim, nNow);
        SparedSince(st.mapInfo, m.mapInfo, mapInfo, id, victim);
        EvictableSince(st, m, id, b, victim, nNow);
      } else {
        NobodyPaid(st.mapInfo, mapInfo, id, st.nIdCount);
        assert Evictable(st, b, st.nIdCount, nNow);
      }
      Indexed(Now(), id);
    }

    /** `Add_` for an address that is not. */
    method AddNew(net: nat, port: nat, nServices: set<nat>, source: nat, nTime: int, nNow: int, b: nat) returns (id: Id)
      requires Valid() && net !in mapAddr && b < NEW_BUCKET_COUNT
      modifies this
      ensures Valid() && vvTried == old(vvTried) && nTried == old(nTried) && id in mapInfo && id == old(nIdCount)
      ensures net in mapAddr && mapAddr[net] == id && b < |vvNew| && id in vvNew[b]
      ensures SameEntry(mapInfo[id], NewInfo(net, port, nServices, source, nTime).(nRefCount := 1))
      ensures exists victim :: Spared(old(mapInfo), mapInfo, id, victim) && Evictable(old(Now()), b, victim, nNow)
    {
      hide Agrees, Spared;
      ghost var st := Now();
      TableSizes(st);
      NeverReferred(st, b);
      id := Create(net, port, nServices, source, nTime);
      ghost var m := Now();
      PlaceReference(id, b, nNow);
      ghost var victim :| Spared(m.mapInfo, mapInfo, id, victim) && Evictable(m, b, victim, nNow);
      SparedSince(st.mapInfo, m.mapInfo, mapInfo, id, victim);
      EvictableSince(st, m, id, b, victim, nNow);
      Indexed(Now(), id);
    }

    /** `Add_`: the address is known afterwards, and no tried entry is disturbed; `hash` chooses its bucket, and `draw` is the random number. */
    method Add(net: nat, port: nat, nServices: set<nat>, routable: bool, nTime: nat, source: nat, nTimePenalty: int, nNow: int,
               hash: nat, draw: nat) returns (fNew: bool)
      requires Valid()
      modifies this
      ensures Valid()
      ensures AddDone(old(Now()), Now(), net, port, nServices, routable, nTime, source, nTimePenalty, nNow, hash % NEW_BUCKET_COUNT, draw, fNew)
    {
      hide Agrees, Spared, SameEntry, Refreshed, Evictable;
      if !routable {
        return false;
      }
      FindIsRight(Now(), net);
      var found, b := Find(net), hash % NEW_BUCKET_COUNT;
      if found.Some? {
        AddKnown(found.value, nTime, nServices, nTimePenalty, nNow, b, draw);
        SameNet(old(Now()), Now(), found.value, nServices, nTime, nTimePenalty, nNow, b, draw);
        fNew := false;
      } else {
        var id := AddNew(net, port, nServices, source, Max(0, nTime - nTimePenalty), nNow, b);
        fNew := true;
      }
    }

    /** `Attempt_`. */
    method Attempt(net: nat, port: nat, nTime: int)
      requires Valid()
      modifies this`mapInfo
      ensures Valid() && AttemptDone(old(Now()), Now(), net, port, nTime)
    {
      hide Agrees;
      var found := Find(net);
      if found.None? || mapInfo[found.value].port != port {
        return;
      }
      var info := mapInfo[found.value];
      info := info.(nLastTry := nTime, nAttempts := info.nAttempts + 1);
      InRange(Now(), found.value);
      UpdateStats(Now(), {}, found.value, info);
      mapInfo := mapInfo[found.value := info];
    }

    /** `Connected_`. */
    method Connected(net: nat, port: nat, nTime: int)
      requires Valid()
      modifies this`mapInfo
      ensures Valid() && ConnectedDone(old(Now()), Now(), net, port, nTime)
    {
      hide Agrees;
      var found := Find(net);
      if found.None? || mapInfo[found.value].port != port {
        return;
      }
      var info := mapInfo[found.value];
      if nTime - info.nTime > 20 * 60 {
        info := info.(nTime := nTime);
        InRange(Now(), found.value);
        UpdateStats(Now(), {}, found.value, info);
        mapInfo := mapInfo[found.value := info];
      }
    }

    /** One round of `GetAddr_`. */
    method Gather(n: nat, sofar: seq<Info>, nNow: int) returns (vAddr: seq<Info>)
      requires Valid() && n < |vRandom| && Known(vRandom, mapInfo) && sofar == Worthy(mapInfo, vRandom[..n], nNow)
      modifies this`mapInfo, this`vRandom
      ensures Valid() && |vRandom| == old(|vRandom|) && SameEntries(old(mapInfo), mapInfo)
      ensures Known(vRandom, mapInfo) && vAddr == Worthy(mapInfo, vRandom[..n + 1], nNow) && |vAddr| <= |sofar| + 1
    {
      hide Agrees, SameEntries;
      var r: nat :| n <= r < |vRandom|;
      ghost var st := Now();
      WorthySwapped(st, n, r, nNow);
      SwapRandom(n, r);
      AllKnown(Now());
      assert vRandom[..n + 1][..n] == vRandom[..n];
      vAddr := sofar;
      if !IsTerrible(mapInfo[vRandom[n]], nNow) {
        vAddr := vAddr + [mapInfo[vRandom[n]]];
      }
    }

    /**
      `GetAddr_`: at most 23% of the table and at most 2500 addresses, none of them terrible and none
      twice; if there are fewer than that, it is everything that is not terrible.
     */
    method GetAddr(nNow: int) returns (vAddr: seq<Info>)
      requires Valid()
      modifies this`mapInfo, this`vRandom
      ensures Valid() && GetAddrDone(old(Now()), Now(), nNow, vAddr)
    {
      hide Agrees, Worthy;
      var nNodes := MaxNodes(|vRandom|);
      vAddr := [];
      var n := 0;
      AllKnown(Now());
      WorthyNone(mapInfo, vRandom, nNow);
      while n < |vRandom| && |vAddr| < nNodes
        invariant n <= |vRandom| == old(|vRandom|) && Valid() && SameEntries(old(mapInfo), mapInfo)
        invariant Now() == old(Now()).(mapInfo := mapInfo, vRandom := vRandom)
        invariant Known(vRandom, mapInfo) && vAddr == Worthy(mapInfo, vRandom[..n], nNow) && |vAddr| <= nNodes
      {
        vAddr := Gather(n, vAddr, nNow);
        n := n + 1;
      }
      WorthyIsRight(Now(), n, nNow);
    }
  }

  // ---------------------------------------------------------------------------
  // Whole runs
  // ---------------------------------------------------------------------------

  function FindIn(st: State, net: nat): Option<Id> {
    if net in st.mapAddr && st.mapAddr[net] in st.mapInfo then Some(st.mapAddr[net]) else None
  }

  predicate MatchIn(st: State, net: nat, port: nat) {
    FindIn(st, net).Some? && st.mapInfo[FindIn(st, net).value].port == port
  }

  /** The entry that matches is tried with its statistics reset; one that was not yet goes to the tried bucket `k`. */
  ghost predicate GoodDone(st: State, st': State, net: nat, port: nat, nTime: int, k: nat) {
    if MatchIn(st, net, port) then
      var id := FindIn(st, net).value;
      var info := st.mapInfo[id].(nLastSuccess := nTime, nLastTry := nTime, nTime := nTime, nAttempts := 0, fInTried := true, nRefCount := 0);
      if st.mapInfo[id].fInTried then st' == st.(mapInfo := st.mapInfo[id := info])
      else
        && st'.mapInfo.Keys == st.mapInfo.Keys && st'.mapAddr == st.mapAddr && st'.mapInfo[id] == info
        && exists old_ :: Displaces(st, st', id, k, old_)
    else st' == st
  }

  lemma MadeGood(st: State, updated: State, st': State, id: Id, k: nat, info: Info)
    requires id in st.mapInfo && updated == st.(mapInfo := st.mapInfo[id := info]) && MadeTried(updated, st', id, k)
    ensures st'.mapInfo.Keys == st.mapInfo.Keys && st'.mapAddr == st.mapAddr
    ensures st'.mapInfo[id] == info.(fInTried := true, nRefCount := 0) && exists old_ :: Displaces(st, st', id, k, old_)
  {
    var old_ :| Displaces(updated, st', id, k, old_);
    assert Displaces(st, st', id, k, old_);
  }

  /**
    A time is taken from an announcement that has one, if none is known, or if the one known is older than it,
    less the penalty, by more than an hour for an address seen within a day, and by more than a day otherwise.
   */
  function NewTime(known: int, nTime: nat, nTimePenalty: int, nNow: int): int {
    var age := (nTime - nTimePenalty) - known;
    if nTime != 0 && (known == 0 || age > if nNow - nTime < DAY then 60 * 60 else DAY) then Max(0, nTime - nTimePenalty) else known
  }

  /**
    One more reference: only for an entry that is not tried and has fewer than it may have, on an announcement with a
    time later than the one recorded; and then with a chance that every reference it has halves.
   */
  predicate Refers(info: Info, nTime: nat, draw: nat) {
    && nTime != 0 && (info.nTime == 0 || nTime > info.nTime)
    && !info.fInTried && 0 <= info.nRefCount && info.nRefCount != NEW_BUCKETS_PER_ADDRESS
    && draw % Pow2(info.nRefCount) == 0
  }

  /** A known entry takes the time or not, joins the services, and is referred to once more or not. */
  ghost predicate Refreshed(st: State, st': State, id: Id, nServices: set<nat>, nTime: nat, nTimePenalty: int, nNow: int, b: nat, draw: nat) {
    && id in st.mapInfo && id in st'.mapInfo && b < |st.vvNew| && b < |st'.vvNew|
    && var a := st.mapInfo[id].(nTime := NewTime(st.mapInfo[id].nTime, nTime, nTimePenalty, nNow), nServices := st.mapInfo[id].nServices + nServices);
       if Refers(a, nTime, draw) && id !in st.vvNew[b] then
         SameEntry(st'.mapInfo[id], a.(nRefCount := a.nRefCount + 1)) && id in st'.vvNew[b]
       else
         SameEntry(st'.mapInfo[id], a) && st'.vvNew == st.vvNew
  }

  lemma SameNet(st: State, st': State, id: Id, nServices: set<nat>, nTime: nat, nTimePenalty: int, nNow: int, b: nat, draw: nat)
    requires Refreshed(st, st', id, nServices, nTime, nTimePenalty, nNow, b, draw)
    ensures st'.mapInfo[id].net == st.mapInfo[id].net
  {
  }

  /** Only a full bucket loses an entry: one of its own that is terrible, unless none of them is. */
  ghost predicate Evictable(st: State, b: nat, victim: Id, nNow: int) {
    victim in st.mapInfo ==>
      && b < |st.vvNew| && |st.vvNew[b]| == NEW_BUCKET_SIZE && victim in st.vvNew[b]
      && (IsTerrible(st.mapInfo[victim], nNow) || forall x :: x in st.vvNew[b] && x in st.mapInfo ==> !IsTerrible(st.mapInfo[x], nNow))
  }

  lemma EvictableSince(st: State, m: State, id: Id, b: nat, victim: Id, nNow: int)
    requires Evictable(m, b, victim, nNow) && m.vvNew == st.vvNew && victim != id
    requires forall x :: x in st.mapInfo && x != id ==> x in m.mapInfo && m.mapInfo[x] == st.mapInfo[x]
    requires b < |st.vvNew| && id !in st.vvNew[b]
    ensures Evictable(st, b, victim, nNow)
  {
  }

  /** A routable address is known afterwards; a new one gets the next id and one reference; at most one other entry pays. */
  ghost predicate AddDone(st: State, st': State, net: nat, port: nat, nServices: set<nat>, routable: bool, nTime: nat,
                          source: nat, nTimePenalty: int, nNow: int, b: nat, draw: nat, fNew: bool) {
    && (fNew <==> routable && net !in st.mapAddr)
    && if !routable then st' == st
       else
         && net in st'.mapAddr && st'.mapAddr[net] in st'.mapInfo
         && st'.vvTried == st.vvTried && st'.nTried == st.nTried
         && var id := st'.mapAddr[net];
            && (exists victim :: Spared(st.mapInfo, st'.mapInfo, id, victim) && Evictable(st, b, victim, nNow))
            && if fNew then
                 && id == st.nIdCount && b < |st'.vvNew| && id in st'.vvNew[b]
                 && SameEntry(st'.mapInfo[id], NewInfo(net, port, nServices, source, Max(0, nTime - nTimePenalty)).(nRefCount := 1))
               else
                 FindIn(st, net) == Some(id) && Refreshed(st, st', id, nServices, nTime, nTimePenalty, nNow, b, draw)
  }

  ghost predicate AttemptDone(st: State, st': State, net: nat, port: nat, nTime: int) {
    st' ==
      if MatchIn(st, net, port) then
        var id := FindIn(st, net).value;
        st.(mapInfo := st.mapInfo[id := st.mapInfo[id].(nLastTry := nTime, nAttempts := st.mapInfo[id].nAttempts + 1)])
      else st
  }

  /** The time is moved on, but not by less than twenty minutes. */
  ghost predicate ConnectedDone(st: State, st': State, net: nat, port: nat, nTime: int) {
    st' ==
      if MatchIn(st, net, port) && nTime - st.mapInfo[FindIn(st, net).value].nTime > 20 * 60 then
        var id := FindIn(st, net).value;
        st.(mapInfo := st.mapInfo[id := st.mapInfo[id].(nTime := nTime)])
      else st
  }

  /** Only the order of the random vector changes; no address is terrible or there twice, and none is missing without need. */
  ghost predicate GetAddrDone(st: State, st': State, nNow: int, vAddr: seq<Info>) {
    && st' == st.(mapInfo := st'.mapInfo, vRandom := st'.vRandom) && SameEntries(st.mapInfo, st'.mapInfo)
    && |vAddr| <= MaxNodes(|st.vRandom|)
    && (forall i :: 0 <= i < |vAddr| ==> !IsTerrible(vAddr[i], nNow) && Knows(st'.mapInfo, vAddr[i]))
    && (forall i, j :: 0 <= i < j < |vAddr| ==> vAddr[i].net != vAddr[j].net)
    && (|vAddr| < MaxNodes(|st.vRandom|) ==>
          forall id :: id in st'.mapInfo && !IsTerrible(st'.mapInfo[id], nNow) ==> st'.mapInfo[id] in vAddr)
  }

  /** A call of the address manager; `now` is the time it is given or reads, `hash` the hash that chooses a bucket, and `draw` a random number. */
  datatype Call =
    | Add(net: nat, port: nat, nServices: set<nat>, routable: bool, nTime: nat, source: nat, nTimePenalty: int, now: int, hash: nat, draw: nat)
    | Good(net: nat, port: nat, now: int, hash: nat)
    | Attempt(net: nat, port: nat, now: int)
    | Connected(net: nat, port: nat, now: int)
    | GetAddr(now: int)

  datatype Reply = Nothing | Added(fNew: bool) | Addresses(vAddr: seq<Info>)

  /** What a call did. */
  ghost predicate Did(call: Call, r: Reply, st: State, st': State) {
    match call
    case Add(net, port, nServices, routable, nTime, source, nTimePenalty, now, hash, draw) =>
      && r.Added?
      && AddDone(st, st', net, port, nServices, routable, nTime, source, nTimePenalty, now, hash % NEW_BUCKET_COUNT, draw, r.fNew)
    case Good(net, port, now, hash) => r.Nothing? && GoodDone(st, st', net, port, now, hash % TRIED_BUCKET_COUNT)
    case Attempt(net, port, now) => r.Nothing? && AttemptDone(st, st', net, port, now)
    case Connected(net, port, now) => r.Nothing? && ConnectedDone(st, st', net, port, now)
    case GetAddr(now) => r.Addresses? && GetAddrDone(st, st', now, r.vAddr)
  }

  /** A call records no time that `Check_` objects to: a success that is not positive, or a negative try. */
  predicate OnTime(call: Call, st: State) {
    && (call.Good? && MatchIn(st, call.net, call.port) ==> call.now > 0)
    && (call.Attempt? && MatchIn(st, call.net, call.port) ==> call.now >= 0)
  }

  /** Times in order stay in order exactly if the call is on time, which can be told before it is made. */
  lemma TimelyIff(call: Call, r: Reply, st: State, st': State)
    requires Did(call, r, st, st') && Timely(st.mapInfo)
    ensures Timely(st'.mapInfo) <==> OnTime(call, st)
  {
    match call {
      case Add(net, _, _, routable, _, _, _, _, _, _) =>
        if routable {
          SparedTimely(st.mapInfo, st'.mapInfo, st'.mapAddr[net]);
        }
      case Good(net, port, _, _) =>
        if MatchIn(st, net, port) {
          assert FindIn(st, net).value in st'.mapInfo;
        }
      case Attempt(net, port, _) =>
        if MatchIn(st, net, port) {
          assert FindIn(st, net).value in st'.mapInfo;
        }
      case Connected(_, _, _) =>
      case GetAddr(_) =>
    }
  }

  /** An announcement without a negative penalty never sets a known time back, and moves it by more than an hour if at all. */
  lemma TimeNeverBack(known: int, nTime: nat, nTimePenalty: int, nNow: int)
    requires nTimePenalty >= 0
    ensures
      var t := NewTime(known, nTime, nTimePenalty, nNow);
      t == known || known == 0 <= t || known + 60 * 60 < t <= nTime
  {
  }

  /** After a success an entry is good for exactly thirty days, if it is never heard of again. */
  lemma GoodLasts(st: State, st': State, net: nat, port: nat, nTime: int, k: nat, nNow: int)
    requires GoodDone(st, st', net, port, nTime, k) && MatchIn(st, net, port) && 0 < nTime <= nNow
    ensures IsTerrible(st'.mapInfo[FindIn(st, net).value], nNow) <==> nNow > nTime + HORIZON_DAYS * DAY
  {
  }

  /** An entry that never succeeded becomes terrible one minute after its third try, and not before the third, while it is being heard of. */
  lemma ThreeTries(st: State, st': State, net: nat, port: nat, nTime: int, nNow: int)
    requires AttemptDone(st, st', net, port, nTime) && MatchIn(st, net, port) && 0 < nTime <= nNow
    requires
      var info := st.mapInfo[FindIn(st, net).value];
      info.nLastSuccess == 0 && 0 <= info.nAttempts < MAX_FAILURES - 1 && 0 < info.nTime <= nNow + 10 * 60 && nNow <= info.nTime + HORIZON_DAYS * DAY
    ensures
      var id := FindIn(st, net).value;
      IsTerrible(st'.mapInfo[id], nNow) <==> st.mapInfo[id].nAttempts >= 2 && nNow > nTime + 60
  {
  }

  /** One that did succeed is given up a week after that, and not before its tenth failure, while it is being heard of. */
  lemma TenFailures(st: State, st': State, net: nat, port: nat, nTime: int, nNow: int)
    requires AttemptDone(st, st', net, port, nTime) && MatchIn(st, net, port) && 0 < nTime <= nNow
    requires
      var info := st.mapInfo[FindIn(st, net).value];
      info.nLastSuccess > 0 && 0 < info.nTime <= nNow + 10 * 60 && nNow <= info.nTime + HORIZON_DAYS * DAY
    ensures
      var id := FindIn(st, net).value;
      IsTerrible(st'.mapInfo[id], nNow) <==>
        st.mapInfo[id].nAttempts >= 9 && nNow > nTime + 60 && nNow > st.mapInfo[id].nLastSuccess + 7 * DAY
  {
  }

  lemma SparedTimely(m: map<Id, Info>, m': map<Id, Info>, id: Id)
    requires Timely(m) && id in m' && TimesOk(m'[id]) && exists victim :: Spared(m, m', id, victim)
    ensures Timely(m')
  {
  }

  /** The tables before, between and after the calls, what the calls returned, and what `Check_` says after each. */
  datatype Log = Log(states: seq<State>, replies: seq<Reply>, checks: seq<int>) {
    predicate Sized(n: nat) {
      |states| == n + 1 && |replies| == |checks| == n
    }
  }

  /** The call did what it should, the tables agree, and `Check_` finds nothing wrong exactly if the times are in order. */
  ghost predicate CallOk(calls: seq<Call>, log: Log, i: nat)
    requires log.Sized(|log.replies|) && i < |log.replies| <= |calls|
  {
    && Did(calls[i], log.replies[i], log.states[i], log.states[i + 1]) && Agrees(log.states[i + 1], {})
    && (log.checks[i] == 0 <==> Timely(log.states[i + 1].mapInfo))
  }

  /**
    Whatever is called on an address manager, every call does what it should and
    the indexes agree after each. Its own check finds nothing wrong in the whole
    run exactly if every call was on time for the table it was made on.
   */
  method Run(calls: seq<Call>) returns (log: Log)
    ensures log.Sized(|calls|) && log.states[0].mapInfo == map[] && Agrees(log.states[0], {})
    ensures forall i :: 0 <= i < |calls| ==> CallOk(calls, log, i)
    ensures (forall i :: 0 <= i < |calls| ==> log.checks[i] == 0) <==> (forall i :: 0 <= i < |calls| ==> OnTime(calls[i], log.states[i]))
  {
    hide Agrees, AddrCheck.Passes, Timely, CallOk, Did;
    var addrman := new CAddrMan();
    log := Log([addrman.Now()], [], []);
    for i := 0 to |calls|
      invariant fresh(addrman) && addrman.Valid() && log.Sized(i) && log.states[i] == addrman.Now()
      invariant log.states[0].mapInfo == map[] && Agrees(log.states[0], {})
      invariant forall k :: 0 <= k < i ==> CallOk(calls, log, k)
    {
      var r := Perform(addrman, calls[i]);
      AddrCheck.AgreesPasses(addrman.Now());
      var check := AddrCheck.Check(addrman.Now());
      ghost var before := log;
      log := Log(log.states + [addrman.Now()], log.replies + [r], log.checks + [check]);
      CallsKept(calls, before, log, i);
    }
    AllOnTime(calls, log, |calls|);
  }

  lemma CallsKept(calls: seq<Call>, log: Log, log': Log, n: nat)
    requires log.Sized(n) && log'.Sized(n + 1) && n < |calls|
    requires log'.states[..n + 1] == log.states && log'.replies[..n] == log.replies && log'.checks[..n] == log.checks
    requires forall k :: 0 <= k < n ==> CallOk(calls, log, k)
    requires Did(calls[n], log'.replies[n], log'.states[n], log'.states[n + 1]) && Agrees(log'.states[n + 1], {})
    requires log'.checks[n] == 0 <==> Timely(log'.states[n + 1].mapInfo)
    ensures forall k :: 0 <= k < n + 1 ==> CallOk(calls, log', k)
  {
    hide Did, Agrees, Timely;
    forall k | 0 <= k < n + 1
      ensures CallOk(calls, log', k)
    {
      if k < n {
        assert CallOk(calls, log, k);
        assert log'.states[..n + 1][k] == log.states[k] && log'.states[..n + 1][k + 1] == log.states[k + 1];
        assert log'.replies[..n][k] == log.replies[k] && log'.checks[..n][k] == log.checks[k];
      }
    }
  }

  lemma {:induction false} AllOnTime(calls: seq<Call>, log: Log, n: nat)
    requires log.Sized(|calls|) && n <= |calls| && log.states[0].mapInfo == map[]
    requires forall k :: 0 <= k < |calls| ==> CallOk(calls, log, k)
    ensures (forall i :: 0 <= i < n ==> log.checks[i] == 0) <==> (forall i :: 0 <= i < n ==> OnTime(calls[i], log.states[i]))
    ensures (forall i :: 0 <= i < n ==> log.checks[i] == 0) ==> Timely(log.states[n].mapInfo)
  {
    hide Did, Agrees, OnTime;
    if n > 0 {
      AllOnTime(calls, log, n - 1);
      assert CallOk(calls, log, n - 1);
      if forall i :: 0 <= i < n - 1 ==> log.checks[i] == 0 {
        TimelyIff(calls[n - 1], log.replies[n - 1], log.states[n - 1], log.states[n]);
      }
    }
  }

  /** One call. */
  method Perform(addrman: CAddrMan, call: Call) returns (r: Reply)
    requires addrman.Valid()
    modifies addrman
    ensures addrman.Valid() && Did(call, r, old(addrman.Now()), addrman.Now())
  {
    hide Agrees, AddDone, GoodDone, AttemptDone, ConnectedDone, GetAddrDone;
    r := Nothing;
    match call {
      case Add(net, port, nServices, routable, nTime, source, nTimePenalty, now, hash, draw) =>
        var fNew := addrman.Add(net, port, nServices, routable, nTime, source, nTimePenalty, now, hash, draw);
        r := Added(fNew);
      case Good(net, port, now, hash) =>
        addrman.Good(net, port, now, hash);
      case Attempt(net, port, now) =>
        addrman.Attempt(net, port, now);
      case Connected(net, port, now) =>
        addrman.Connected(net, port, now);
      case GetAddr(now) =>
        var vAddr := addrman.GetAddr(now);
        r := Addresses(vAddr);
    }
  }

  /** A success recorded at time zero is one that `Check_` objects to. */
  method GoodAtTimeZero() returns (before: int, after: int)
    ensures before == 0 && after != 0
  {
    hide Agrees, AddrCheck.Passes;
    var addrman := new CAddrMan();
    ghost var st := addrman.Now();
    var fNew := addrman.Add(7, 8333, {}, true, 100, 9, 0, 200, 0, 0);
    ghost var id := addrman.mapAddr[7];
    TimelyIff(Call.Add(7, 8333, {}, true, 100, 9, 0, 200, 0, 0), Added(fNew), st, addrman.Now());
    AddrCheck.AgreesPasses(addrman.Now());
    before := AddrCheck.Check(addrman.Now());
    addrman.Good(7, 8333, 0, 0);
    assert id in addrman.mapInfo && !TimesOk(addrman.mapInfo[id]);
    AddrCheck.AgreesPasses(addrman.Now());
    after := AddrCheck.Check(addrman.Now());
  }

  /** How many addresses `GetAddr_` gives out of a table of `n`. */
  function MaxNodes(n: nat): nat {
    var nNodes := GETADDR_MAX_PCT * n / 100;
    if nNodes > GETADDR_MAX then GETADDR_MAX else nNodes
  }

  ghost predicate SameEntries(m: map<Id, Info>, m': map<Id, Info>) {
    m'.Keys == m.Keys && forall id :: id in m ==> SameEntry(m'[id], m[id])
  }

  ghost predicate Knows(m: map<Id, Info>, info: Info) {
    exists id :: id in m && m[id] == info
  }

  /** The entries that are not terrible. */
  function Worthy(m: map<Id, Info>, ids: seq<Id>, nNow: int): seq<Info>
    requires Known(ids, m)
  {
    if ids == [] then []
    else
      var k := |ids| - 1;
      Worthy(m, ids[..k], nNow) + if IsTerrible(m[ids[k]], nNow) then [] else [m[ids[k]]]
  }

  lemma AllKnown(st: State)
    requires Agrees(st, {})
    ensures Known(st.vRandom, st.mapInfo)
  {
    hide Counts, Totals, Sizes;
    forall i | 0 <= i < |st.vRandom|
      ensures st.vRandom[i] in st.mapInfo
    {
      assert RandomOk(st, i);
    }
  }

  lemma {:induction false} WorthySame(m: map<Id, Info>, m': map<Id, Info>, ids: seq<Id>, nNow: int)
    requires Known(ids, m) && Known(ids, m') && forall i :: 0 <= i < |ids| ==> m[ids[i]] == m'[ids[i]]
    ensures Worthy(m, ids, nNow) == Worthy(m', ids, nNow)
  {
    if ids != [] {
      WorthySame(m, m', ids[..|ids| - 1], nNow);
    }
  }

  lemma WorthyNone(m: map<Id, Info>, ids: seq<Id>, nNow: int)
    requires Known(ids, m)
    ensures Worthy(m, ids[..0], nNow) == []
  {
  }

  /** A swap further on does not affect what has been gathered. */
  lemma WorthySwapped(st: State, n: nat, r: nat, nNow: int)
    requires Agrees(st, {}) && n <= r < |st.vRandom| && Known(st.vRandom, st.mapInfo)
    ensures
      var st' := if n == r then st else Swapped(st, n, r);
      && Agrees(st', {}) && SameEntries(st.mapInfo, st'.mapInfo)
      && st'.vRandom[..n] == st.vRandom[..n] && Known(st.vRandom[..n], st'.mapInfo)
      && Worthy(st'.mapInfo, st.vRandom[..n], nNow) == Worthy(st.mapInfo, st.vRandom[..n], nNow)
  {
    hide Counts, Totals, Sizes, Worthy;
    assert RandomOk(st, n) && RandomOk(st, r);
    if n != r {
      SwapAgrees(st, {}, n, r);
      forall i | 0 <= i < n
        ensures st.vRandom[i] != st.vRandom[n] && st.vRandom[i] != st.vRandom[r]
      {
        assert RandomOk(st, i);
      }
      WorthySame(st.mapInfo, Swapped(st, n, r).mapInfo, st.vRandom[..n], nNow);
    }
  }

  lemma {:induction false} WorthyFrom(m: map<Id, Info>, ids: seq<Id>, nNow: int, i: nat) returns (j: nat)
    requires Known(ids, m) && i < |Worthy(m, ids, nNow)|
    ensures j < |ids| && Worthy(m, ids, nNow)[i] == m[ids[j]] && !IsTerrible(m[ids[j]], nNow)
  {
    var k := |ids| - 1;
    if i < |Worthy(m, ids[..k], nNow)| {
      j := WorthyFrom(m, ids[..k], nNow, i);
    } else {
      j := k;
    }
  }

  lemma {:induction false} WorthyHas(m: map<Id, Info>, ids: seq<Id>, nNow: int, j: nat)
    requires Known(ids, m) && j < |ids| && !IsTerrible(m[ids[j]], nNow)
    ensures m[ids[j]] in Worthy(m, ids, nNow)
  {
    var k := |ids| - 1;
    if j < k {
      WorthyHas(m, ids[..k], nNow, j);
      assert ids[..k][j] == ids[j];
    }
  }

  /** Different places in the random vector hold different addresses. */
  lemma PlacesDiffer(st: State, i: nat, j: nat)
    requires Agrees(st, {}) && i < j < |st.vRandom| && Known(st.vRandom, st.mapInfo)
    ensures st.mapInfo[st.vRandom[i]].net != st.mapInfo[st.vRandom[j]].net
  {
    hide Counts, Totals, Sizes;
    var a: Id, b: Id := st.vRandom[i], st.vRandom[j];
    assert RandomOk(st, i) && RandomOk(st, j) && InfoOk(st, a) && InfoOk(st, b);
  }

  lemma {:induction false} WorthyDiffer(st: State, n: nat, nNow: int, i: nat, j: nat)
    requires Agrees(st, {}) && n <= |st.vRandom| && Known(st.vRandom, st.mapInfo)
    requires i < j < |Worthy(st.mapInfo, st.vRandom[..n], nNow)|
    ensures
      var w := Worthy(st.mapInfo, st.vRandom[..n], nNow);
      w[i].net != w[j].net
  {
    hide Agrees;
    var k := n - 1;
    assert st.vRandom[..n][..k] == st.vRandom[..k];
    var w := Worthy(st.mapInfo, st.vRandom[..k], nNow);
    if j < |w| {
      WorthyDiffer(st, k, nNow, i, j);
    } else {
      var a := WorthyFrom(st.mapInfo, st.vRandom[..k], nNow, i);
      PlacesDiffer(st, a, k);
    }
  }

  lemma WorthyIsRight(st: State, n: nat, nNow: int)
    requires Agrees(st, {}) && n <= |st.vRandom| && Known(st.vRandom, st.mapInfo)
    ensures
      var w := Worthy(st.mapInfo, st.vRandom[..n], nNow);
      && (forall i :: 0 <= i < |w| ==> !IsTerrible(w[i], nNow) && Knows(st.mapInfo, w[i]))
      && (forall i, j :: 0 <= i < j < |w| ==> w[i].net != w[j].net)
      && (n == |st.vRandom| ==> forall id :: id in st.mapInfo && !IsTerrible(st.mapInfo[id], nNow) ==> st.mapInfo[id] in w)
  {
    hide Worthy, CountsOk;
    var w := Worthy(st.mapInfo, st.vRandom[..n], nNow);
    forall i | 0 <= i < |w|
      ensures !IsTerrible(w[i], nNow) && Knows(st.mapInfo, w[i])
    {
      var j := WorthyFrom(st.mapInfo, st.vRandom[..n], nNow, i);
    }
    forall i, j | 0 <= i < j < |w|
      ensures w[i].net != w[j].net
    {
      WorthyDiffer(st, n, nNow, i, j);
    }
    if n == |st.vRandom| {
      forall id | id in st.mapInfo && !IsTerrible(st.mapInfo[id], nNow)
        ensures st.mapInfo[id] in w
      {
        assert InfoOk(st, id);
        WorthyHas(st.mapInfo, st.vRandom[..n], nNow, st.mapInfo[id].nRandomPos);
      }
    }
  }

  function Max(a: int, b: int): int {
    if a < b then b else a
  }

  /** `CAddrInfo(addr, source)`. */
  function NewInfo(net: nat, port: nat, nServices: set<nat>, source: nat, nTime: int): Info {
    Info(net, port, nServices, source, nTime, 0, 0, 0, 0, false, -1)
  }

  /** What a new reference of `id` may cost: one other entry that is not tried loses one, and may be forgotten with it. */
  ghost predicate Spared(m: map<Id, Info>, m': map<Id, Info>, id: Id, victim: Id) {
    && victim != id && id in m' && m'.Keys <= m.Keys + {id}
    && (forall x :: x in m && x != id && x != victim ==> x in m' && SameEntry(m'[x], m[x]))
    && (victim in m ==> !m[victim].fInTried)
    && (victim in m' ==> SameEntry(m'[victim], m[victim].(nRefCount := m[victim].nRefCount - 1)))
  }

  /** What happened to `id` before does not matter to the others. */
  lemma SparedSince(m0: map<Id, Info>, m: map<Id, Info>, m': map<Id, Info>, id: Id, victim: Id)
    requires Spared(m, m', id, victim) && m.Keys == m0.Keys + {id} && forall x :: x in m0 && x != id ==> m[x] == m0[x]
    ensures Spared(m0, m', id, victim)
  {
  }

  lemma NobodyPaid(m: map<Id, Info>, m': map<Id, Info>, id: Id, fresh_: Id)
    requires id in m && fresh_ !in m && m'.Keys == m.Keys && forall x :: x in m && x != id ==> m'[x] == m[x]
    ensures Spared(m, m', id, fresh_)
  {
  }

  /** Four random numbers below `size`. */
  method FourOf(size: nat) returns (n: seq<nat>)
    requires size > 0
    ensures |n| == 4 && forall i :: 0 <= i < 4 ==> n[i] < size
  {
    var a: nat :| a < size;
    var b: nat :| b < size;
    var c: nat :| c < size;
    var d: nat :| d < size;
    n := [a, b, c, d];
  }

  lemma BucketFits(st: State, extra: set<Id>, b: nat)
    requires Agrees(st, extra) && b < NEW_BUCKET_COUNT == |st.vvNew|
    ensures |st.vvNew[b]| <= NEW_BUCKET_SIZE
  {
  }

  lemma TableSizes(st: State)
    requires Agrees(st, {})
    ensures |st.vvNew| == NEW_BUCKET_COUNT
  {
  }

  lemma InRange(st: State, id: Id)
    requires Agrees(st, {}) && id in st.mapInfo
    ensures
      var info := st.mapInfo[id];
      info.nRefCount >= 0 && (!info.fInTried ==> info.nRefCount <= NEW_BUCKETS_PER_ADDRESS)
  {
    assert InfoOk(st, id);
  }

  /** `Find` misses nothing and finds the right entry. */
  lemma FindIsRight(st: State, net: nat)
    requires Agrees(st, {})
    ensures net in st.mapAddr ==> st.mapAddr[net] in st.mapInfo && st.mapInfo[st.mapAddr[net]].net == net
  {
    assert net in st.mapAddr ==> AddrOk(st, net);
  }

  lemma Indexed(st: State, id: Id)
    requires Agrees(st, {}) && id in st.mapInfo
    ensures st.mapInfo[id].net in st.mapAddr && st.mapAddr[st.mapInfo[id].net] == id
  {
    assert InfoOk(st, id);
  }

  lemma NeverReferred(st: State, b: nat)
    requires Agrees(st, {}) && b < NEW_BUCKET_COUNT == |st.vvNew|
    ensures st.nIdCount !in st.vvNew[b]
  {
    hide Agrees;
    FreshId(st, {});
    if st.nIdCount in st.vvNew[b] {
      InNew(st, {}, st.nIdCount, b);
    }
  }

  ghost predicate Movable(st: State, id: Id, nOrigin: nat) {
    && Agrees(st, {}) && nOrigin < NEW_BUCKET_COUNT == |st.vvNew| && id in st.vvNew[nOrigin]
    && id in st.mapInfo && !st.mapInfo[id].fInTried
  }

  /** `id` has left the "new" buckets and is nowhere yet. */
  ghost function Unplaced(st: State, id: Id): State
    requires id in st.mapInfo
  {
    st.(mapInfo := st.mapInfo[id := st.mapInfo[id].(nRefCount := 0)], vvNew := Without(st.vvNew, id), nNew := st.nNew - 1)
  }

  /** `id` has become tried; nothing is forgotten, and at most one entry has gone back to "new". */
  ghost predicate MadeTried(st: State, st': State, id: Id, k: nat) {
    && id in st.mapInfo && st'.mapInfo.Keys == st.mapInfo.Keys && st'.mapAddr == st.mapAddr && st'.vRandom == st.vRandom
    && st'.mapInfo[id] == st.mapInfo[id].(fInTried := true, nRefCount := 0)
    && (exists old_ :: Displaces(st, st', id, k, old_))
    && st'.nTried + st'.nNew == st.nTried + st.nNew && st.nTried <= st'.nTried
  }

  /** In a bucket with room everybody stays, and a full one gives up one of its own, which goes back to "new". */
  ghost predicate Displaces(st: State, st': State, id: Id, k: nat, old_: Id) {
    && OthersKept(st.mapInfo, st'.mapInfo, id, old_) && k < |st.vvTried| && k < |st'.vvTried| && id in st'.vvTried[k]
    && if |st.vvTried[k]| < TRIED_BUCKET_SIZE then old_ == id && st'.vvTried == st.vvTried[k := st.vvTried[k] + [id]]
       else old_ != id && old_ in st.vvTried[k] && old_ in st'.mapInfo && !st'.mapInfo[old_].fInTried
  }

  ghost predicate OthersKept(m: map<Id, Info>, m': map<Id, Info>, id: Id, old_: Id) {
    forall x :: x in m && x != id ==>
      x in m' && (m'[x] == m[x] || (x == old_ && m'[x] == m[x].(fInTried := false, nRefCount := 1)))
  }

  lemma MovedMade(st: State, id: Id, k: nat)
    requires id in st.mapInfo && k < |st.vvTried| && |st.vvTried[k]| < TRIED_BUCKET_SIZE
    ensures MadeTried(st, Moved(st, id, k), id, k)
  {
    assert Displaces(st, Moved(st, id, k), id, k, id);
  }

  lemma ReplacedMade(st: State, id: Id, k: nat, vTried: seq<Id>, pos: nat, u: nat, vvTried: seq<seq<Id>>)
    requires id in st.mapInfo && k < |st.vvTried| && pos < |vTried| && vTried[pos] in st.mapInfo && u < |st.vvNew| && vTried[pos] != id
    requires vvTried == st.vvTried[k := vTried] && |st.vvTried[k]| == TRIED_BUCKET_SIZE && multiset(vTried) == multiset(st.vvTried[k])
    ensures MadeTried(st, Replaced(st, id, k, vTried, pos, u), id, k)
    ensures Replaced(st.(vvTried := vvTried), id, k, vTried, pos, u) == Replaced(st, id, k, vTried, pos, u)
  {
    var st' := Replaced(st, id, k, vTried, pos, u);
    assert vTried[pos] in multiset(vTried);
    assert st'.vvTried[k][pos] == id && vTried[pos] in st.vvTried[k];
    assert Displaces(st, st', id, k, vTried[pos]);
    assert st.vvTried[k := vTried][k := vTried[pos := id]] == st.vvTried[k := vTried[pos := id]];
  }

  /** The loop of `MakeTried`. */
  method RemoveEverywhere(bs: seq<set<Id>>, id: Id) returns (r: seq<set<Id>>, n: nat)
    ensures r == Without(bs, id) && n == NewCount(bs, id)
  {
    r, n := bs, 0;
    for b := 0 to |bs|
      invariant |r| == |bs| && n == NewCount(bs[..b], id)
      invariant forall j :: 0 <= j < |bs| ==> r[j] == if j < b then bs[j] - {id} else bs[j]
    {
      assert bs[..b + 1][..b] == bs[..b];
      if id in r[b] {
        r, n := r[b := r[b] - {id}], n + 1;
      }
    }
    assert bs[..|bs|] == bs;
  }

  /** Four random numbers for a bucket. */
  method SomeDraws(size: nat) returns (draws: seq<nat>)
    requires size >= INSPECT_ON_EVICT
    ensures DrawsOk(draws, size)
  {
    draws := [];
    for i := 0 to INSPECT_ON_EVICT
      invariant |draws| == i && forall j :: 0 <= j < i ==> draws[j] < size - j
    {
      var d: nat :| d < size - i;
      draws := draws + [d];
    }
  }

  /** What `MakeTried` needs to know of the entry it moves: where it is, it leaves room. */
  lemma RoomLeft(st: State, id: Id, nOrigin: nat)
    requires Movable(st, id, nOrigin)
    ensures NewCount(st.vvNew, id) == st.mapInfo[id].nRefCount
    ensures |st.vvTried| == TRIED_BUCKET_COUNT && |Without(st.vvNew, id)[nOrigin]| < NEW_BUCKET_SIZE
    ensures forall b :: 0 <= b < NEW_BUCKET_COUNT ==> |Without(st.vvNew, id)[b]| <= NEW_BUCKET_SIZE
    ensures forall b :: 0 <= b < TRIED_BUCKET_COUNT ==> |st.vvTried[b]| <= TRIED_BUCKET_SIZE
  {
    hide Indexes, Totals;
    assert CountsOk(st, id, {});
    WithoutSizes(st.vvNew, id);
  }

  function Distance(from: nat, to: nat, size: nat): int {
    if to >= from then to - from else to + size - from
  }

  function Wrapped(n: nat, size: nat): (r: nat)
    requires size > 0 && n < 2 * size
    ensures r == if n < size then n else n - size
  {
    var q := if n < size then 0 else 1;
    DivUnique(n, size, q, n - size * q);
    n % size
  }

  /** The loop of `Good_`, from a random bucket on. */
  method FindBucket(bs: seq<set<Id>>, id: Id, nRnd: nat) returns (nB: int)
    requires nRnd < |bs|
    ensures nB != -1 ==> 0 <= nB < |bs| && id in bs[nB]
    ensures nB == -1 ==> forall b :: 0 <= b < |bs| ==> id !in bs[b]
  {
    hide Wrapped;
    for n := 0 to |bs|
      invariant forall b :: 0 <= b < |bs| && Distance(nRnd, b, |bs|) < n ==> id !in bs[b]
    {
      nB := Wrapped(n + nRnd, |bs|);
      if id in bs[nB] {
        return;
      }
      assert forall b :: 0 <= b < |bs| && Distance(nRnd, b, |bs|) == n ==> b == nB;
    }
    nB := -1;
  }

  lemma InSomeBucket(st: State, id: Id)
    requires Agrees(st, {}) && id in st.mapInfo && !st.mapInfo[id].fInTried
    ensures |st.vvNew| == NEW_BUCKET_COUNT && exists b :: 0 <= b < |st.vvNew| && id in st.vvNew[b]
  {
    assert InfoOk(st, id) && CountsOk(st, id, {});
    var b := SomeBucket(st.vvNew, id);
  }

  lemma TriedHasNoReference(st: State, id: Id)
    requires Agrees(st, {}) && id in st.mapInfo && st.mapInfo[id].fInTried
    ensures st.mapInfo[id].nRefCount == 0
  {
    assert InfoOk(st, id);
  }

  /** Everything in a "new" bucket is a known entry. */
  lemma BucketKnown(st: State, extra: set<Id>, b: nat, order: seq<Id>)
    requires Agrees(st, extra) && b < NEW_BUCKET_COUNT == |st.vvNew| && Lists(order, st.vvNew[b])
    ensures Known(order, st.mapInfo)
  {
    hide Agrees;
    forall i | 0 <= i < |order|
      ensures order[i] in st.mapInfo
    {
      InNew(st, extra, order[i], b);
    }
  }

  lemma TriedKnown(st: State, k: nat)
    requires Agrees(st, {}) && k < TRIED_BUCKET_COUNT == |st.vvTried|
    ensures Known(st.vvTried[k], st.mapInfo)
  {
    hide Agrees;
    forall i | 0 <= i < |st.vvTried[k]|
      ensures st.vvTried[k][i] in st.mapInfo
    {
      InTriedBucket(st, {}, st.vvTried[k][i], k);
    }
  }

  /** Where an entry sits in the random vector may change, nothing else. */
  ghost predicate SameEntry(a: Info, b: Info) {
    a == b.(nRandomPos := a.nRandomPos)
  }

  /** One entry has left one "new" bucket; it has one reference less, or is forgotten; all others are as they were. */
  ghost predicate Evicted(st: State, st': State, b: nat, id: Id) {
    && b < |st.vvNew| && st'.vvNew == st.vvNew[b := st.vvNew[b] - {id}]
    && st'.vvTried == st.vvTried && st'.nTried == st.nTried && st'.nIdCount == st.nIdCount
    && (forall x :: x in st.mapInfo && x != id ==> x in st'.mapInfo && SameEntry(st'.mapInfo[x], st.mapInfo[x]))
    && st'.mapInfo.Keys <= st.mapInfo.Keys
    && (id in st'.mapInfo ==> SameEntry(st'.mapInfo[id], st.mapInfo[id].(nRefCount := st.mapInfo[id].nRefCount - 1)))
  }

  /** The state with an entry moved to the end of the random vector. */
  ghost function AtEnd(st: State, id: Id): State
    requires id in st.mapInfo && 0 <= st.mapInfo[id].nRandomPos < |st.vRandom|
    requires st.vRandom[st.mapInfo[id].nRandomPos] == id && st.vRandom[|st.vRandom| - 1] in st.mapInfo
  {
    var i, last := st.mapInfo[id].nRandomPos, |st.vRandom| - 1;
    if i == last then st else Swapped(st, i, last)
  }

  /** The state without an entry that no bucket refers to. */
  ghost function Forgotten(st: State, id: Id): State
    requires id in st.mapInfo && 0 <= st.mapInfo[id].nRandomPos < |st.vRandom|
    requires st.vRandom[st.mapInfo[id].nRandomPos] == id && st.vRandom[|st.vRandom| - 1] in st.mapInfo
  {
    var st' := AtEnd(st, id);
    st'.(mapInfo := st'.mapInfo - {id},
         mapAddr := st.mapAddr - {st.mapInfo[id].net},
         vRandom := st'.vRandom[..|st'.vRandom| - 1],
         nNew := st.nNew - 1)
  }

  ghost function NoReference(st: State, id: Id): State
    requires id in st.mapInfo
  {
    st.(mapInfo := st.mapInfo[id := st.mapInfo[id].(nRefCount := 0)])
  }

  /** An entry that loses its last reference can be forgotten. */
  lemma LastReference(st: State, extra: set<Id>, id: Id, b: nat)
    requires Agrees(st, extra) && b < NEW_BUCKET_COUNT == |st.vvNew| && id in st.vvNew[b] && id !in extra
    requires id in st.mapInfo && st.mapInfo[id].nRefCount == 1
    ensures 0 <= st.mapInfo[id].nRandomPos < |st.vRandom|
    ensures st.vRandom[st.mapInfo[id].nRandomPos] == id && st.vRandom[|st.vRandom| - 1] in st.mapInfo
    ensures
      var st' := Forgotten(NoReference(st, id), id).(vvNew := st.vvNew[b := st.vvNew[b] - {id}]);
      && Forgotten(NoReference(st, id), id).vvNew == st.vvNew
      && Agrees(st', extra) && Evicted(st, st', b, id)
  {
    hide Agrees, Evicted;
    AtEndAgrees(st, extra, id);
    DeleteAgrees(AtEnd(st, id), extra, id, b);
    ForgottenIsDeleted(st, id, b);
  }

  lemma AtEndAgrees(st: State, extra: set<Id>, id: Id)
    requires Agrees(st, extra) && id in st.mapInfo
    ensures 0 <= st.mapInfo[id].nRandomPos < |st.vRandom|
    ensures st.vRandom[st.mapInfo[id].nRandomPos] == id && st.vRandom[|st.vRandom| - 1] in st.mapInfo
    ensures Agrees(AtEnd(st, id), extra)
    ensures
      var st' := AtEnd(st, id);
      && st'.vvNew == st.vvNew && id in st'.mapInfo
      && st'.mapInfo[id] == st.mapInfo[id].(nRandomPos := |st'.vRandom| - 1)
  {
    hide Counts, Totals, Sizes;
    assert InfoOk(st, id);
    assert RandomOk(st, |st.vRandom| - 1);
    var i, last := st.mapInfo[id].nRandomPos, |st.vRandom| - 1;
    if i != last {
      SwapAgrees(st, extra, i, last);
    }
  }

  /** The decrement of a count that is then erased leaves no trace. */
  lemma ForgottenIsDeleted(st: State, id: Id, b: nat)
    requires id in st.mapInfo && 0 <= st.mapInfo[id].nRandomPos < |st.vRandom|
    requires st.vRandom[st.mapInfo[id].nRandomPos] == id && st.vRandom[|st.vRandom| - 1] in st.mapInfo
    requires b < |st.vvNew|
    ensures
      var st' := Forgotten(NoReference(st, id), id).(vvNew := st.vvNew[b := st.vvNew[b] - {id}]);
      && st' == Deleted(AtEnd(st, id), id, b)
      && Evicted(st, st', b, id)
  {
    hide Evicted;
    ErasedIsGone(st, id);
    DeletedEvicts(st, id, b);
  }

  lemma ErasedIsGone(st: State, id: Id)
    requires id in st.mapInfo && 0 <= st.mapInfo[id].nRandomPos < |st.vRandom|
    requires st.vRandom[st.mapInfo[id].nRandomPos] == id && st.vRandom[|st.vRandom| - 1] in st.mapInfo
    ensures AtEnd(NoReference(st, id), id) == AtEnd(st, id).(mapInfo := AtEnd(NoReference(st, id), id).mapInfo)
    ensures AtEnd(NoReference(st, id), id).mapInfo - {id} == AtEnd(st, id).mapInfo - {id}
  {
  }

  lemma DeletedEvicts(st: State, id: Id, b: nat)
    requires id in st.mapInfo && 0 <= st.mapInfo[id].nRandomPos < |st.vRandom|
    requires st.vRandom[st.mapInfo[id].nRandomPos] == id && st.vRandom[|st.vRandom| - 1] in st.mapInfo
    requires b < |st.vvNew|
    ensures Evicted(st, Deleted(AtEnd(st, id), id, b), b, id)
  {
  }

  lemma {:induction false} EmptyNew(bs: seq<set<Id>>, id: Id)
    requires forall b :: 0 <= b < |bs| ==> bs[b] == {}
    ensures NewCount(bs, id) == 0
  {
    if bs != [] {
      EmptyNew(bs[..|bs| - 1], id);
    }
  }

  lemma {:induction false} EmptyTried(bs: seq<seq<Id>>, id: Id)
    requires forall b :: 0 <= b < |bs| ==> bs[b] == []
    ensures TriedCount(bs, id) == 0
  {
    if bs != [] {
      EmptyTried(bs[..|bs| - 1], id);
    }
  }
}
