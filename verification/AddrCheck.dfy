/**
  `CAddrMan::Check_` of addrman.cpp, the repository's own statement of what its
  address tables have to satisfy: exactly when it finds nothing wrong, also for
  tables that agree.
 */
module AddrCheck {
  import opened AddrTables

  /** `mapAddr[info]`, which reads as 0 for an address that is not there. */
  function AddrIndex(mapAddr: map<nat, Id>, net: nat): Id {
    if net in mapAddr then mapAddr[net] else 0
  }

  ghost predicate EntryPasses(st: State, id: Id)
    requires id in st.mapInfo
  {
    var info := st.mapInfo[id];
    && (info.fInTried ==> info.nLastSuccess != 0 && info.nRefCount == 0)
    && (!info.fInTried ==> 0 < info.nRefCount <= NEW_BUCKETS_PER_ADDRESS)
    && AddrIndex(st.mapAddr, info.net) == id
    && 0 <= info.nRandomPos < |st.vRandom| && st.vRandom[info.nRandomPos] == id
    && info.nLastTry >= 0 && info.nLastSuccess >= 0
  }

  ghost predicate EntriesPass(st: State) {
    forall id {:trigger EntryPasses(st, id)} :: id in st.mapInfo ==> EntryPasses(st, id)
  }

  ghost predicate TriedPasses(st: State, id: Id) {
    TriedCount(st.vvTried, id) == InTried(st, id)
  }

  ghost predicate NewPasses(st: State, id: Id) {
    NewCount(st.vvNew, id) == NewRefs(st.mapInfo, id)
  }

  /** The references that an entry in "new" should have. */
  function NewRefs(m: map<Id, Info>, id: Id): int {
    if id in m && !m[id].fInTried then m[id].nRefCount else 0
  }

  /** Every tried entry is in the tried buckets once, every other one is in as many new buckets as it counts. */
  ghost predicate Passes(st: State) {
    && |st.vRandom| == st.nTried + st.nNew
    && EntriesPass(st)
    && |TriedIds(st.mapInfo)| == st.nTried && |NewIds(st.mapInfo)| == st.nNew
    && AllTriedPass(st) && AllNewPass(st)
  }

  /** Nothing is wrong with tables that agree, exactly if the times in them are in order. */
  lemma AgreesPasses(st: State)
    requires Agrees(st, {})
    ensures Passes(st) <==> Timely(st.mapInfo)
  {
    forall id | id in st.mapInfo
      ensures EntryPasses(st, id) <==> TimesOk(st.mapInfo[id])
    {
      assert InfoOk(st, id);
    }
    forall id
      ensures TriedPasses(st, id) && NewPasses(st, id)
    {
      assert CountsOk(st, id, {});
      assert id in st.mapInfo ==> InfoOk(st, id);
    }
  }

  // ---------------------------------------------------------------------------
  // The entries
  // ---------------------------------------------------------------------------

  function CheckEntry(st: State, id: Id): (r: int)
    requires id in st.mapInfo
    ensures r == 0 <==> EntryPasses(st, id)
  {
    var info := st.mapInfo[id];
    if info.fInTried && info.nLastSuccess == 0 then -1
    else if info.fInTried && info.nRefCount != 0 then -2
    else if !info.fInTried && (info.nRefCount < 0 || info.nRefCount > NEW_BUCKETS_PER_ADDRESS) then -3
    else if !info.fInTried && info.nRefCount == 0 then -4
    else if AddrIndex(st.mapAddr, info.net) != id then -5
    else if info.nRandomPos < 0 || info.nRandomPos >= |st.vRandom| || st.vRandom[info.nRandomPos] != id then -14
    else if info.nLastTry < 0 then -6
    else if info.nLastSuccess < 0 then -8
    else 0
  }

  function ValueAt(m: map<Id, int>, id: Id): int {
    if id in m then m[id] else 0
  }

  /** What the first loop leaves: the tried ids, and the others with their counts. */
  ghost predicate Collected(m: map<Id, Info>, done: set<Id>, setTried: set<Id>, mapNew: map<Id, int>) {
    && (forall id :: id in setTried <==> id in done && id in m && m[id].fInTried)
    && (forall id :: id in mapNew <==> id in done && id in m && !m[id].fInTried)
    && (forall id :: id in mapNew ==> mapNew[id] == m[id].nRefCount)
  }

  method CheckEntries(st: State) returns (r: int, setTried: set<Id>, mapNew: map<Id, int>)
    ensures r == 0 <==> EntriesPass(st)
    ensures r == 0 ==> Collected(st.mapInfo, st.mapInfo.Keys, setTried, mapNew)
  {
    var rest := st.mapInfo.Keys;
    setTried, mapNew := {}, map[];
    while rest != {}
      invariant rest <= st.mapInfo.Keys
      invariant forall id {:trigger EntryPasses(st, id)} :: id in st.mapInfo && id !in rest ==> EntryPasses(st, id)
      invariant Collected(st.mapInfo, st.mapInfo.Keys - rest, setTried, mapNew)
    {
      var id :| id in rest;
      r := CheckEntry(st, id);
      if r != 0 {
        return;
      }
      if st.mapInfo[id].fInTried {
        setTried := setTried + {id};
      } else {
        mapNew := mapNew[id := st.mapInfo[id].nRefCount];
      }
      rest := rest - {id};
    }
    r := 0;
  }

  // ---------------------------------------------------------------------------
  // The buckets
  // ---------------------------------------------------------------------------

  function One(b: bool): nat {
    if b then 1 else 0
  }

  /** The inner loop over a tried bucket: every element has to be in the set, and is taken out of it. */
  method CheckTriedBucket(vTried: seq<Id>, setTried: set<Id>) returns (ok: bool, rest: set<Id>)
    ensures ok <==> forall id :: multiset(vTried)[id] <= One(id in setTried)
    ensures ok ==> forall id :: multiset(vTried)[id] + One(id in rest) == One(id in setTried)
  {
    rest := setTried;
    for i := 0 to |vTried|
      invariant forall id :: multiset(vTried[..i])[id] + One(id in rest) == One(id in setTried)
    {
      assert vTried[..i + 1] == vTried[..i] + [vTried[i]];
      if vTried[i] !in rest {
        MoreThanPrefix(vTried, i + 1, vTried[i]);
        return false, rest;
      }
      rest := rest - {vTried[i]};
    }
    assert vTried[..|vTried|] == vTried;
    ok := true;
  }

  lemma MoreThanPrefix(s: seq<Id>, n: nat, id: Id)
    requires n <= |s|
    ensures multiset(s)[id] >= multiset(s[..n])[id]
  {
    assert s == s[..n] + s[n..];
  }

  lemma {:induction false} TriedPrefix(bs: seq<seq<Id>>, n: nat, id: Id)
    requires n <= |bs|
    ensures TriedCount(bs, id) >= TriedCount(bs[..n], id)
  {
    if n < |bs| {
      TriedPrefix(bs[..|bs| - 1], n, id);
      assert bs[..|bs| - 1][..n] == bs[..n];
    } else {
      assert bs[..n] == bs;
    }
  }

  method CheckTried(bs: seq<seq<Id>>, setTried: set<Id>) returns (ok: bool, rest: set<Id>)
    ensures ok <==> forall id :: TriedCount(bs, id) <= One(id in setTried)
    ensures ok ==> forall id :: TriedCount(bs, id) + One(id in rest) == One(id in setTried)
  {
    rest := setTried;
    for n := 0 to |bs|
      invariant forall id :: TriedCount(bs[..n], id) + One(id in rest) == One(id in setTried)
    {
      assert bs[..n + 1][..n] == bs[..n];
      ok, rest := CheckTriedBucket(bs[n], rest);
      if !ok {
        ghost var id :| multiset(bs[n])[id] + TriedCount(bs[..n], id) > One(id in setTried);
        TriedPrefix(bs, n + 1, id);
        return;
      }
    }
    assert bs[..|bs|] == bs;
    ok := true;
  }

  /** The inner loop over a new bucket: one less for every element, which has to be there. */
  method CheckNewBucket(vNew: set<Id>, mapNew: map<Id, int>) returns (ok: bool, rest: map<Id, int>)
    requires forall id :: id in mapNew ==> mapNew[id] > 0
    ensures ok <==> forall id :: One(id in vNew) <= ValueAt(mapNew, id)
    ensures ok ==> forall id :: One(id in vNew) + ValueAt(rest, id) == ValueAt(mapNew, id)
    ensures forall id :: id in rest ==> rest[id] > 0
  {
    rest := mapNew;
    var todo := vNew;
    while todo != {}
      invariant todo <= vNew && forall id :: id in rest ==> rest[id] > 0
      invariant forall id :: One(id in vNew) - One(id in todo) + ValueAt(rest, id) == ValueAt(mapNew, id)
    {
      var id :| id in todo;
      if id !in rest {
        assert One(id in vNew) > ValueAt(mapNew, id);
        return false, rest;
      }
      rest := rest[id := rest[id] - 1];
      if rest[id] == 0 {
        rest := rest - {id};
      }
      todo := todo - {id};
    }
    ok := true;
  }

  lemma {:induction false} NewPrefix(bs: seq<set<Id>>, n: nat, id: Id)
    requires n <= |bs|
    ensures NewCount(bs, id) >= NewCount(bs[..n], id)
  {
    if n < |bs| {
      NewPrefix(bs[..|bs| - 1], n, id);
      assert bs[..|bs| - 1][..n] == bs[..n];
    } else {
      assert bs[..n] == bs;
    }
  }

  method CheckNew(bs: seq<set<Id>>, mapNew: map<Id, int>) returns (ok: bool, rest: map<Id, int>)
    requires forall id :: id in mapNew ==> mapNew[id] > 0
    ensures ok <==> forall id :: NewCount(bs, id) <= ValueAt(mapNew, id)
    ensures ok ==> forall id :: NewCount(bs, id) + ValueAt(rest, id) == ValueAt(mapNew, id)
    ensures forall id :: id in rest ==> rest[id] > 0
  {
    rest := mapNew;
    for n := 0 to |bs|
      invariant forall id :: id in rest ==> rest[id] > 0
      invariant forall id :: NewCount(bs[..n], id) + ValueAt(rest, id) == ValueAt(mapNew, id)
    {
      assert bs[..n + 1][..n] == bs[..n];
      ok, rest := CheckNewBucket(bs[n], rest);
      if !ok {
        ghost var id :| One(id in bs[n]) + NewCount(bs[..n], id) > ValueAt(mapNew, id);
        NewPrefix(bs, n + 1, id);
        return;
      }
    }
    assert bs[..|bs|] == bs;
    ok := true;
  }

  // ---------------------------------------------------------------------------
  // All of it
  // ---------------------------------------------------------------------------

  ghost predicate AllTriedPass(st: State) {
    forall id {:trigger TriedPasses(st, id)} :: TriedPasses(st, id)
  }

  ghost predicate AllNewPass(st: State) {
    forall id {:trigger NewPasses(st, id)} :: NewPasses(st, id)
  }

  /** The two loops over the tried buckets together with the test of what is left. */
  method TriedVerdict(st: State, setTried: set<Id>) returns (ok: bool, rest: set<Id>)
    requires setTried == TriedIds(st.mapInfo)
    ensures ok && rest == {} <==> AllTriedPass(st)
  {
    ok, rest := CheckTried(st.vvTried, setTried);
    if ok && rest == {} {
      forall id
        ensures TriedPasses(st, id)
      {
        assert TriedCount(st.vvTried, id) + One(id in rest) == One(id in setTried);
      }
    } else {
      ghost var id :| TriedCount(st.vvTried, id) != One(id in setTried);
      assert !TriedPasses(st, id);
    }
  }

  method NewVerdict(st: State, mapNew: map<Id, int>) returns (ok: bool, rest: map<Id, int>)
    requires forall id :: id in mapNew ==> mapNew[id] > 0
    requires forall id :: ValueAt(mapNew, id) == NewRefs(st.mapInfo, id)
    ensures ok && rest == map[] <==> AllNewPass(st)
  {
    ok, rest := CheckNew(st.vvNew, mapNew);
    if ok && rest == map[] {
      forall id
        ensures NewPasses(st, id)
      {
        assert NewCount(st.vvNew, id) + ValueAt(rest, id) == ValueAt(mapNew, id) == NewRefs(st.mapInfo, id);
      }
    } else {
      ghost var id: Id;
      if ok {
        assert rest.Keys != {};
        id :| id in rest.Keys;
        assert NewCount(st.vvNew, id) + ValueAt(rest, id) == ValueAt(mapNew, id);
      } else {
        id :| NewCount(st.vvNew, id) > ValueAt(mapNew, id);
      }
      assert NewRefs(st.mapInfo, id) == ValueAt(mapNew, id);
      assert !NewPasses(st, id);
    }
  }

  /** What the first loop hands to the others. */
  lemma CollectedAll(st: State, setTried: set<Id>, mapNew: map<Id, int>)
    requires EntriesPass(st) && Collected(st.mapInfo, st.mapInfo.Keys, setTried, mapNew)
    ensures setTried == TriedIds(st.mapInfo) && |mapNew| == |NewIds(st.mapInfo)|
    ensures forall id :: id in mapNew ==> mapNew[id] > 0
    ensures forall id :: ValueAt(mapNew, id) == NewRefs(st.mapInfo, id)
  {
    assert mapNew.Keys == NewIds(st.mapInfo);
    forall id | id in mapNew
      ensures mapNew[id] > 0
    {
      assert EntryPasses(st, id);
    }
  }

  method Check(st: State) returns (r: int)
    ensures r == 0 <==> Passes(st)
  {
    if |st.vRandom| != st.nTried + st.nNew {
      return -7;
    }
    var setTried, mapNew;
    r, setTried, mapNew := CheckEntries(st);
    if r != 0 {
      return;
    }
    CollectedAll(st, setTried, mapNew);
    if |setTried| != st.nTried {
      return -9;
    }
    if |mapNew| != st.nNew {
      return -10;
    }
    var okTried, okNew;
    okTried, setTried := TriedVerdict(st, setTried);
    if !okTried {
      return -11;
    }
    okNew, mapNew := NewVerdict(st, mapNew);
    if !okNew {
      return -12;
    }
    if setTried != {} {
      return -13;
    }
    if mapNew != map[] {
      return -15;
    }
  }
}
