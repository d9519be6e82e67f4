/**
  The tables of addrman.h: five indexes over the known addresses that have to
  agree with each other. This module states what they have to agree on and what
  each elementary change does to it; module `AddrMan` has the operations.
 */
module AddrTables {

  const TRIED_BUCKET_COUNT: nat := 64
  const TRIED_BUCKET_SIZE: nat := 64
  const NEW_BUCKET_COUNT: nat := 256
  const NEW_BUCKET_SIZE: nat := 64
  const NEW_BUCKETS_PER_ADDRESS: nat := 4

  /** `CAddrInfo`; `net` is the address without the port, `nServices` the bits that are set. */
  datatype Info = Info(
    net: nat,
    port: nat,
    nServices: set<nat>,
    source: nat,
    nTime: int,
    nLastTry: int,
    nLastSuccess: int,
    nAttempts: int,
    nRefCount: int,
    fInTried: bool,
    nRandomPos: int)

  type Id = nat

  datatype State = State(
    nIdCount: nat,
    mapInfo: map<Id, Info>,
    mapAddr: map<nat, Id>,
    vRandom: seq<Id>,
    nTried: int,
    vvTried: seq<seq<Id>>,
    nNew: int,
    vvNew: seq<set<Id>>)

  // ---------------------------------------------------------------------------
  // Counting
  // ---------------------------------------------------------------------------

  /** In how many "new" buckets an id is. */
  function NewCount(bs: seq<set<Id>>, id: Id): nat {
    if bs == [] then 0 else NewCount(bs[..|bs| - 1], id) + if id in bs[|bs| - 1] then 1 else 0
  }

  /** How often an id is in the "tried" buckets. */
  function TriedCount(bs: seq<seq<Id>>, id: Id): nat {
    if bs == [] then 0 else TriedCount(bs[..|bs| - 1], id) + multiset(bs[|bs| - 1])[id]
  }

  lemma {:induction false} NewCountUpdate(bs: seq<set<Id>>, i: nat, s: set<Id>, id: Id)
    requires i < |bs|
    ensures NewCount(bs[i := s], id) == NewCount(bs, id) - (if id in bs[i] then 1 else 0) + (if id in s then 1 else 0)
  {
    var k := |bs| - 1;
    if i == k {
      assert bs[i := s][..k] == bs[..k];
    } else {
      NewCountUpdate(bs[..k], i, s, id);
      assert bs[i := s][..k] == bs[..k][i := s];
    }
  }

  lemma {:induction false} TriedCountUpdate(bs: seq<seq<Id>>, i: nat, s: seq<Id>, id: Id)
    requires i < |bs|
    ensures TriedCount(bs[i := s], id) == TriedCount(bs, id) - multiset(bs[i])[id] + multiset(s)[id]
  {
    var k := |bs| - 1;
    if i == k {
      assert bs[i := s][..k] == bs[..k];
    } else {
      TriedCountUpdate(bs[..k], i, s, id);
      assert bs[i := s][..k] == bs[..k][i := s];
    }
  }

  lemma {:induction false} InBucketCounts(bs: seq<set<Id>>, i: nat, id: Id)
    requires i < |bs| && id in bs[i]
    ensures NewCount(bs, id) >= 1
  {
    if i < |bs| - 1 {
      InBucketCounts(bs[..|bs| - 1], i, id);
    }
  }

  lemma {:induction false} SomeBucket(bs: seq<set<Id>>, id: Id) returns (i: nat)
    requires NewCount(bs, id) >= 1
    ensures i < |bs| && id in bs[i]
  {
    var k := |bs| - 1;
    if id in bs[k] {
      i := k;
    } else {
      i := SomeBucket(bs[..k], id);
    }
  }

  lemma {:induction false} InTriedCounts(bs: seq<seq<Id>>, i: nat, id: Id)
    requires i < |bs| && id in bs[i]
    ensures TriedCount(bs, id) >= 1
  {
    if i < |bs| - 1 {
      InTriedCounts(bs[..|bs| - 1], i, id);
    }
  }

  // ---------------------------------------------------------------------------
  // Agreement
  // ---------------------------------------------------------------------------

  /** The entry agrees with the address index and the random vector, and its reference count is in range. */
  ghost predicate InfoOk(st: State, id: Id)
    requires id in st.mapInfo
  {
    var info := st.mapInfo[id];
    && id < st.nIdCount
    && info.net in st.mapAddr && st.mapAddr[info.net] == id
    && 0 <= info.nRandomPos < |st.vRandom| && st.vRandom[info.nRandomPos] == id
    && (info.fInTried ==> info.nRefCount == 0)
    && (!info.fInTried ==> 1 <= info.nRefCount <= NEW_BUCKETS_PER_ADDRESS)
  }

  ghost predicate AddrOk(st: State, a: nat)
    requires a in st.mapAddr
  {
    st.mapAddr[a] in st.mapInfo && st.mapInfo[st.mapAddr[a]].net == a
  }

  ghost predicate RandomOk(st: State, i: nat)
    requires i < |st.vRandom|
  {
    st.vRandom[i] in st.mapInfo && st.mapInfo[st.vRandom[i]].nRandomPos == i
  }

  /** The references an entry should have; `extra` is one that has been counted but not placed yet. */
  function Refs(st: State, id: Id, extra: set<Id>): int {
    if id in st.mapInfo then st.mapInfo[id].nRefCount - (if id in extra then 1 else 0) else 0
  }

  function InTried(st: State, id: Id): nat {
    if id in st.mapInfo && st.mapInfo[id].fInTried then 1 else 0
  }

  ghost predicate CountsOk(st: State, id: Id, extra: set<Id>) {
    NewCount(st.vvNew, id) == Refs(st, id, extra) && TriedCount(st.vvTried, id) == InTried(st, id)
  }

  ghost function TriedIds(m: map<Id, Info>): set<Id> {
    set id | id in m && m[id].fInTried
  }

  ghost function NewIds(m: map<Id, Info>): set<Id> {
    set id | id in m && !m[id].fInTried
  }

  ghost predicate Sizes(st: State) {
    && |st.vvTried| == TRIED_BUCKET_COUNT && |st.vvNew| == NEW_BUCKET_COUNT
    && (forall b :: 0 <= b < |st.vvTried| ==> |st.vvTried[b]| <= TRIED_BUCKET_SIZE)
    && (forall b :: 0 <= b < |st.vvNew| ==> |st.vvNew[b]| <= NEW_BUCKET_SIZE)
  }

  ghost predicate Totals(st: State) {
    && st.nTried == |TriedIds(st.mapInfo)| && st.nNew == |NewIds(st.mapInfo)|
    && |st.vRandom| == st.nTried + st.nNew
  }

  ghost predicate Indexes(st: State) {
    && (forall id {:trigger InfoOk(st, id)} :: id in st.mapInfo ==> InfoOk(st, id))
    && (forall a {:trigger AddrOk(st, a)} :: a in st.mapAddr ==> AddrOk(st, a))
    && (forall i {:trigger RandomOk(st, i)} :: 0 <= i < |st.vRandom| ==> RandomOk(st, i))
  }

  ghost predicate Counts(st: State, extra: set<Id>) {
    forall id {:trigger CountsOk(st, id, extra)} :: CountsOk(st, id, extra)
  }

  /** Everything agrees, except that the ids in `extra` have one reference too many. */
  ghost predicate Agrees(st: State, extra: set<Id>) {
    Sizes(st) && Totals(st) && Indexes(st) && Counts(st, extra)
  }

  /** The times are in order: none is negative, and a tried entry has succeeded once. */
  predicate TimesOk(info: Info) {
    info.nLastTry >= 0 && info.nLastSuccess >= 0 && (info.fInTried ==> info.nLastSuccess != 0)
  }

  ghost predicate Timely(m: map<Id, Info>) {
    forall id :: id in m ==> TimesOk(m[id])
  }

  // ---------------------------------------------------------------------------
  // Elementary changes
  // ---------------------------------------------------------------------------

  /** Times, services and counts of attempts may change freely. */
  ghost predicate SameRole(a: Info, b: Info) {
    a.net == b.net && a.nRefCount == b.nRefCount && a.fInTried == b.fInTried && a.nRandomPos == b.nRandomPos
  }

  lemma UpdateStats(st: State, extra: set<Id>, id: Id, info: Info)
    requires Agrees(st, extra) && id in st.mapInfo && SameRole(st.mapInfo[id], info)
    ensures Agrees(st.(mapInfo := st.mapInfo[id := info]), extra)
  {
    var st' := st.(mapInfo := st.mapInfo[id := info]);
    assert TriedIds(st'.mapInfo) == TriedIds(st.mapInfo) && NewIds(st'.mapInfo) == NewIds(st.mapInfo);
    forall x | x in st'.mapInfo
      ensures InfoOk(st', x)
    {
      assert InfoOk(st, x);
    }
    forall a | a in st'.mapAddr
      ensures AddrOk(st', a)
    {
      assert AddrOk(st, a);
    }
    forall i | 0 <= i < |st'.vRandom|
      ensures RandomOk(st', i)
    {
      assert RandomOk(st, i);
    }
    forall x
      ensures CountsOk(st', x, extra)
    {
      assert CountsOk(st, x, extra);
    }
  }

  /** `SwapRandom` on two different positions. */
  function Swapped(st: State, i: nat, j: nat): State
    requires i < |st.vRandom| && j < |st.vRandom| && st.vRandom[i] in st.mapInfo && st.vRandom[j] in st.mapInfo
  {
    var a, b := st.vRandom[i], st.vRandom[j];
    var m := st.mapInfo[a := st.mapInfo[a].(nRandomPos := j)];
    st.(mapInfo := m[b := m[b].(nRandomPos := i)], vRandom := st.vRandom[i := b][j := a])
  }

  lemma SwapAgrees(st: State, extra: set<Id>, i: nat, j: nat)
    requires Agrees(st, extra) && i < |st.vRandom| && j < |st.vRandom| && i != j
    ensures st.vRandom[i] in st.mapInfo && st.vRandom[j] in st.mapInfo && st.vRandom[i] != st.vRandom[j]
    ensures Agrees(Swapped(st, i, j), extra)
  {
    assert RandomOk(st, i) && RandomOk(st, j);
    var st' := Swapped(st, i, j);
    assert TriedIds(st'.mapInfo) == TriedIds(st.mapInfo) && NewIds(st'.mapInfo) == NewIds(st.mapInfo);
    SwapIndexes(st, i, j);
    forall x
      ensures CountsOk(st', x, extra)
    {
      assert CountsOk(st, x, extra);
    }
  }

  lemma SwapIndexes(st: State, i: nat, j: nat)
    requires Indexes(st) && i < |st.vRandom| && j < |st.vRandom|
    requires st.vRandom[i] in st.mapInfo && st.vRandom[j] in st.mapInfo && st.vRandom[i] != st.vRandom[j]
    ensures Indexes(Swapped(st, i, j))
  {
    var st' := Swapped(st, i, j);
    assert RandomOk(st, i) && RandomOk(st, j);
    forall x | x in st'.mapInfo
      ensures InfoOk(st', x)
    {
      assert InfoOk(st, x);
    }
    forall a | a in st'.mapAddr
      ensures AddrOk(st', a)
    {
      assert AddrOk(st, a);
    }
    forall k | 0 <= k < |st'.vRandom|
      ensures RandomOk(st', k)
    {
      assert RandomOk(st, k);
    }
  }

  lemma CardAdd(s: set<Id>, x: Id)
    requires x !in s
    ensures |s + {x}| == |s| + 1
  {
  }

  lemma CardRemove(s: set<Id>, x: Id)
    requires x in s
    ensures |s - {x}| == |s| - 1
  {
  }

  /** An id that was never given out is nowhere. */
  lemma FreshId(st: State, extra: set<Id>)
    requires Agrees(st, extra)
    ensures st.nIdCount !in st.mapInfo
  {
    assert st.nIdCount in st.mapInfo ==> InfoOk(st, st.nIdCount);
  }

  /** A new entry with its first reference counted but not placed. */
  function Created(st: State, info: Info): State {
    var id := st.nIdCount;
    st.(nIdCount := id + 1,
        mapInfo := st.mapInfo[id := info.(nRefCount := 1, fInTried := false, nRandomPos := |st.vRandom|)],
        mapAddr := st.mapAddr[info.net := id],
        vRandom := st.vRandom + [id],
        nNew := st.nNew + 1)
  }

  lemma CreateAgrees(st: State, info: Info)
    requires Agrees(st, {}) && info.net !in st.mapAddr
    ensures Agrees(Created(st, info), {st.nIdCount})
  {
    hide Indexes;
    var id, st' := st.nIdCount, Created(st, info);
    FreshId(st, {});
    assert TriedIds(st'.mapInfo) == TriedIds(st.mapInfo);
    assert NewIds(st'.mapInfo) == NewIds(st.mapInfo) + {id};
    CardAdd(NewIds(st.mapInfo), id);
    CreateIndexes(st, info);
    forall x
      ensures CountsOk(st', x, {id})
    {
      assert CountsOk(st, x, {});
    }
  }

  lemma CreateIndexes(st: State, info: Info)
    requires Agrees(st, {}) && st.nIdCount !in st.mapInfo
    requires info.net !in st.mapAddr
    ensures Indexes(Created(st, info))
  {
    hide Sizes, Counts;
    var id, st' := st.nIdCount, Created(st, info);
    forall x | x in st'.mapInfo
      ensures InfoOk(st', x)
    {
      if x != id {
        assert InfoOk(st, x);
      }
    }
    forall a | a in st'.mapAddr
      ensures AddrOk(st', a)
    {
      if a != info.net {
        assert AddrOk(st, a);
      }
    }
    forall k | 0 <= k < |st'.vRandom|
      ensures RandomOk(st', k)
    {
      if k < |st.vRandom| {
        assert RandomOk(st, k);
      }
    }
  }

  /** Changing one entry's reference count and one bucket; everything else stays. */
  lemma RefAgrees(st: State, extra: set<Id>, id: Id, refs: int, bs: seq<set<Id>>, extra': set<Id>)
    requires Agrees(st, extra) && id in st.mapInfo && !st.mapInfo[id].fInTried && 1 <= refs <= NEW_BUCKETS_PER_ADDRESS
    requires |bs| == NEW_BUCKET_COUNT && forall b :: 0 <= b < |bs| ==> |bs[b]| <= NEW_BUCKET_SIZE
    requires forall x :: x != id ==> NewCount(bs, x) == NewCount(st.vvNew, x) && (x in extra <==> x in extra')
    requires NewCount(bs, id) == refs - if id in extra' then 1 else 0
    ensures Agrees(st.(mapInfo := st.mapInfo[id := st.mapInfo[id].(nRefCount := refs)], vvNew := bs), extra')
  {
    var st' := st.(mapInfo := st.mapInfo[id := st.mapInfo[id].(nRefCount := refs)], vvNew := bs);
    assert TriedIds(st'.mapInfo) == TriedIds(st.mapInfo) && NewIds(st'.mapInfo) == NewIds(st.mapInfo);
    forall x | x in st'.mapInfo
      ensures InfoOk(st', x)
    {
      assert InfoOk(st, x);
    }
    forall a | a in st'.mapAddr
      ensures AddrOk(st', a)
    {
      assert AddrOk(st, a);
    }
    forall i | 0 <= i < |st'.vRandom|
      ensures RandomOk(st', i)
    {
      assert RandomOk(st, i);
    }
    forall x
      ensures CountsOk(st', x, extra')
    {
      assert CountsOk(st, x, extra);
    }
  }

  /** One more reference, counted but not placed. */
  lemma RaiseAgrees(st: State, id: Id)
    requires Agrees(st, {}) && id in st.mapInfo && !st.mapInfo[id].fInTried && st.mapInfo[id].nRefCount < NEW_BUCKETS_PER_ADDRESS
    ensures Agrees(st.(mapInfo := st.mapInfo[id := st.mapInfo[id].(nRefCount := st.mapInfo[id].nRefCount + 1)]), {id})
  {
    assert InfoOk(st, id) && CountsOk(st, id, {});
    RefAgrees(st, {}, id, st.mapInfo[id].nRefCount + 1, st.vvNew, {id});
    assert st.(vvNew := st.vvNew) == st;
  }

  /** The counted reference is placed in a bucket with room. */
  lemma PlaceAgrees(st: State, id: Id, b: nat)
    requires Agrees(st, {id}) && id in st.mapInfo && !st.mapInfo[id].fInTried
    requires b < NEW_BUCKET_COUNT && id !in st.vvNew[b] && |st.vvNew[b]| < NEW_BUCKET_SIZE
    ensures Agrees(st.(vvNew := st.vvNew[b := st.vvNew[b] + {id}]), {})
  {
    var bs := st.vvNew[b := st.vvNew[b] + {id}];
    CardAdd(st.vvNew[b], id);
    forall x
      ensures NewCount(bs, x) == NewCount(st.vvNew, x) + if x == id then 1 else 0
    {
      NewCountUpdate(st.vvNew, b, st.vvNew[b] + {id}, x);
    }
    assert InfoOk(st, id) && CountsOk(st, id, {id});
    RefAgrees(st, {id}, id, st.mapInfo[id].nRefCount, bs, {});
    assert st.mapInfo[id := st.mapInfo[id].(nRefCount := st.mapInfo[id].nRefCount)] == st.mapInfo;
  }

  lemma RemoveCounts(bs: seq<set<Id>>, b: nat, id: Id)
    requires b < |bs| && id in bs[b]
    ensures forall x :: NewCount(bs[b := bs[b] - {id}], x) == NewCount(bs, x) - if x == id then 1 else 0
  {
    forall x
      ensures NewCount(bs[b := bs[b] - {id}], x) == NewCount(bs, x) - if x == id then 1 else 0
    {
      NewCountUpdate(bs, b, bs[b] - {id}, x);
    }
  }

  /** One reference less, and others remain. */
  lemma DropAgrees(st: State, extra: set<Id>, id: Id, b: nat)
    requires Agrees(st, extra) && b < NEW_BUCKET_COUNT && id in st.vvNew[b] && id !in extra
    ensures id in st.mapInfo && !st.mapInfo[id].fInTried && st.mapInfo[id].nRefCount >= 1
    ensures
      var refs := st.mapInfo[id].nRefCount - 1;
      refs > 0 ==>
        Agrees(st.(mapInfo := st.mapInfo[id := st.mapInfo[id].(nRefCount := refs)], vvNew := st.vvNew[b := st.vvNew[b] - {id}]), extra)
  {
    InNew(st, extra, id, b);
    var refs := st.mapInfo[id].nRefCount - 1;
    if refs > 0 {
      var bs := st.vvNew[b := st.vvNew[b] - {id}];
      RemoveCounts(st.vvNew, b, id);
      CardRemove(st.vvNew[b], id);
      assert InfoOk(st, id);
      RefAgrees(st, extra, id, refs, bs, extra);
    }
  }

  /** Whatever is in a "new" bucket is a known entry that is not tried. */
  lemma InNew(st: State, extra: set<Id>, id: Id, b: nat)
    requires Agrees(st, extra) && b < NEW_BUCKET_COUNT && id in st.vvNew[b]
    ensures id in st.mapInfo && !st.mapInfo[id].fInTried && st.mapInfo[id].nRefCount >= 1
    ensures CountsOk(st, id, extra)
  {
    assert CountsOk(st, id, extra);
    InBucketCounts(st.vvNew, b, id);
    assert InfoOk(st, id);
  }

  /** Whatever is in a "tried" bucket is a tried entry. */
  lemma InTriedBucket(st: State, extra: set<Id>, id: Id, b: nat)
    requires Agrees(st, extra) && b < TRIED_BUCKET_COUNT && id in st.vvTried[b]
    ensures id in st.mapInfo && st.mapInfo[id].fInTried && st.mapInfo[id].nRefCount == 0
  {
    assert CountsOk(st, id, extra);
    InTriedCounts(st.vvTried, b, id);
    assert InfoOk(st, id);
  }

  /** Forget an entry that sits last in the random vector and has this one reference left. */
  function Deleted(st: State, id: Id, b: nat): State
    requires id in st.mapInfo && st.vRandom != [] && b < |st.vvNew|
  {
    st.(mapInfo := st.mapInfo - {id},
        mapAddr := st.mapAddr - {st.mapInfo[id].net},
        vRandom := st.vRandom[..|st.vRandom| - 1],
        nNew := st.nNew - 1,
        vvNew := st.vvNew[b := st.vvNew[b] - {id}])
  }

  lemma DeleteAgrees(st: State, extra: set<Id>, id: Id, b: nat)
    requires Agrees(st, extra) && b < NEW_BUCKET_COUNT && id in st.vvNew[b] && id !in extra && id in st.mapInfo
    requires st.mapInfo[id].nRefCount == 1 && st.mapInfo[id].nRandomPos == |st.vRandom| - 1
    ensures st.vRandom != [] && Agrees(Deleted(st, id, b), extra)
  {
    InNew(st, extra, id, b);
    assert InfoOk(st, id);
    var st' := Deleted(st, id, b);
    assert TriedIds(st'.mapInfo) == TriedIds(st.mapInfo);
    assert NewIds(st'.mapInfo) == NewIds(st.mapInfo) - {id};
    CardRemove(NewIds(st.mapInfo), id);
    CardRemove(st.vvNew[b], id);
    RemoveCounts(st.vvNew, b, id);
    DeleteIndexes(st, extra, id, b);
    forall x
      ensures CountsOk(st', x, extra)
    {
      assert CountsOk(st, x, extra);
    }
  }

  lemma DeleteIndexes(st: State, extra: set<Id>, id: Id, b: nat)
    requires Agrees(st, extra) && b < NEW_BUCKET_COUNT && id in st.mapInfo && st.vRandom != []
    requires st.mapInfo[id].nRandomPos == |st.vRandom| - 1
    ensures Indexes(Deleted(st, id, b))
  {
    var st' := Deleted(st, id, b);
    assert InfoOk(st, id);
    forall x | x in st'.mapInfo
      ensures InfoOk(st', x)
    {
      assert InfoOk(st, x);
    }
    forall a | a in st'.mapAddr
      ensures AddrOk(st', a)
    {
      assert AddrOk(st, a);
      assert AddrOk(st, st.mapInfo[id].net);
    }
    forall i | 0 <= i < |st'.vRandom|
      ensures RandomOk(st', i)
    {
      assert RandomOk(st, i);
    }
  }

  // ---------------------------------------------------------------------------
  // From "new" to "tried"
  // ---------------------------------------------------------------------------

  /** Every bucket without an id. */
  function Without(bs: seq<set<Id>>, id: Id): (r: seq<set<Id>>)
    ensures |r| == |bs| && forall b :: 0 <= b < |bs| ==> r[b] == bs[b] - {id}
  {
    seq(|bs|, b requires 0 <= b < |bs| => bs[b] - {id})
  }

  lemma {:induction false} WithoutCounts(bs: seq<set<Id>>, id: Id, x: Id)
    ensures NewCount(Without(bs, id), x) == if x == id then 0 else NewCount(bs, x)
  {
    if bs != [] {
      WithoutCounts(bs[..|bs| - 1], id, x);
      assert Without(bs, id)[..|bs| - 1] == Without(bs[..|bs| - 1], id);
    }
  }

  /** The state after `id` has moved into the tried bucket `k`, which had room. */
  function Moved(st: State, id: Id, k: nat): State
    requires id in st.mapInfo && k < |st.vvTried|
  {
    st.(mapInfo := st.mapInfo[id := st.mapInfo[id].(nRefCount := 0, fInTried := true)],
        nTried := st.nTried + 1,
        nNew := st.nNew - 1,
        vvNew := Without(st.vvNew, id),
        vvTried := st.vvTried[k := st.vvTried[k] + [id]])
  }

  /** The state after `id` has taken the place of `old` in the tried bucket `k`, and `old` has gone to the new bucket `u`. */
  function Replaced(st: State, id: Id, k: nat, tried: seq<Id>, pos: nat, u: nat): State
    requires id in st.mapInfo && k < |st.vvTried| && pos < |tried| && tried[pos] in st.mapInfo && u < |st.vvNew|
  {
    var old_ := tried[pos];
    var m := st.mapInfo[old_ := st.mapInfo[old_].(nRefCount := 1, fInTried := false)];
    st.(mapInfo := m[id := m[id].(nRefCount := 0, fInTried := true)],
        vvNew := Without(st.vvNew, id)[u := Without(st.vvNew, id)[u] + {old_}],
        vvTried := st.vvTried[k := tried[pos := id]])
  }

  /** The same entry, possibly with another role and the reference count that goes with it. */
  ghost predicate RoleChanged(a: Info, b: Info) {
    && b.net == a.net && b.nRandomPos == a.nRandomPos
    && (b == a || (if b.fInTried then b.nRefCount == 0 else 1 <= b.nRefCount <= NEW_BUCKETS_PER_ADDRESS))
  }

  /** Neither the address index nor the random vector is touched. */
  lemma RoleIndexes(st: State, st': State)
    requires Indexes(st) && st' == st.(mapInfo := st'.mapInfo, nTried := st'.nTried, nNew := st'.nNew, vvNew := st'.vvNew, vvTried := st'.vvTried)
    requires st'.mapInfo.Keys == st.mapInfo.Keys
    requires forall x :: x in st.mapInfo ==> RoleChanged(st.mapInfo[x], st'.mapInfo[x])
    ensures Indexes(st')
  {
    forall x | x in st'.mapInfo
      ensures InfoOk(st', x)
    {
      assert InfoOk(st, x);
      assert RoleChanged(st.mapInfo[x], st'.mapInfo[x]);
    }
    forall a | a in st'.mapAddr
      ensures AddrOk(st', a)
    {
      assert AddrOk(st, a);
      var x: Id := st.mapAddr[a];
      assert x in st.mapInfo && RoleChanged(st.mapInfo[x], st'.mapInfo[x]);
    }
    forall i | 0 <= i < |st'.vRandom|
      ensures RandomOk(st', i)
    {
      assert RandomOk(st, i);
      var x: Id := st.vRandom[i];
      assert x in st.mapInfo && RoleChanged(st.mapInfo[x], st'.mapInfo[x]);
    }
  }

  lemma WithoutSizes(bs: seq<set<Id>>, id: Id)
    requires forall b :: 0 <= b < |bs| ==> |bs[b]| <= NEW_BUCKET_SIZE
    ensures forall b :: 0 <= b < |bs| ==> |Without(bs, id)[b]| <= NEW_BUCKET_SIZE
    ensures forall b :: 0 <= b < |bs| && id in bs[b] ==> |Without(bs, id)[b]| < NEW_BUCKET_SIZE
  {
    forall b | 0 <= b < |bs|
      ensures |Without(bs, id)[b]| == |bs[b]| - if id in bs[b] then 1 else 0
    {
      if id in bs[b] {
        CardRemove(bs[b], id);
      } else {
        assert bs[b] - {id} == bs[b];
      }
    }
  }

  lemma MoveAgrees(st: State, id: Id, k: nat)
    requires Agrees(st, {}) && id in st.mapInfo && !st.mapInfo[id].fInTried
    requires k < TRIED_BUCKET_COUNT && |st.vvTried[k]| < TRIED_BUCKET_SIZE
    ensures Agrees(Moved(st, id, k), {})
  {
    hide Indexes, CountsOk, TriedCount, NewCount;
    var st' := Moved(st, id, k);
    assert TriedIds(st'.mapInfo) == TriedIds(st.mapInfo) + {id};
    assert NewIds(st'.mapInfo) == NewIds(st.mapInfo) - {id};
    CardAdd(TriedIds(st.mapInfo), id);
    CardRemove(NewIds(st.mapInfo), id);
    WithoutSizes(st.vvNew, id);
    RoleIndexes(st, st');
    forall x
      ensures CountsOk(st', x, {})
    {
      MoveCounts(st, id, k, x);
    }
  }

  lemma MoveCounts(st: State, id: Id, k: nat, x: Id)
    requires id in st.mapInfo && !st.mapInfo[id].fInTried && k < |st.vvTried| && CountsOk(st, x, {})
    ensures CountsOk(Moved(st, id, k), x, {})
  {
    hide TriedCount, NewCount;
    WithoutCounts(st.vvNew, id, x);
    TriedCountUpdate(st.vvTried, k, st.vvTried[k] + [id], x);
  }

  lemma ReplaceAgrees(st: State, id: Id, k: nat, tried: seq<Id>, pos: nat, u: nat)
    requires Agrees(st, {}) && id in st.mapInfo && !st.mapInfo[id].fInTried
    requires k < TRIED_BUCKET_COUNT && multiset(tried) == multiset(st.vvTried[k]) && |tried| == |st.vvTried[k]| && pos < |tried|
    requires u < NEW_BUCKET_COUNT && |Without(st.vvNew, id)[u]| < NEW_BUCKET_SIZE
    ensures tried[pos] in st.mapInfo && tried[pos] != id
    ensures Agrees(Replaced(st, id, k, tried, pos, u), {})
  {
    hide Indexes, Totals, CountsOk;
    var old_ := tried[pos];
    assert old_ in multiset(tried);
    InTriedBucket(st, {}, old_, k);
    var st' := Replaced(st, id, k, tried, pos, u);
    ReplaceTotals(st, id, k, tried, pos, u);
    RoleIndexes(st, st');
    ReplaceSizes(st, id, k, tried, pos, u);
    forall x
      ensures CountsOk(st', x, {})
    {
      ReplaceCounts(st, id, k, tried, pos, u, x);
    }
  }

  lemma ReplaceTotals(st: State, id: Id, k: nat, tried: seq<Id>, pos: nat, u: nat)
    requires Totals(st) && id in st.mapInfo && !st.mapInfo[id].fInTried
    requires k < |st.vvTried| && pos < |tried| && tried[pos] in st.mapInfo && st.mapInfo[tried[pos]].fInTried && u < |st.vvNew|
    ensures Totals(Replaced(st, id, k, tried, pos, u))
  {
    var old_, st' := tried[pos], Replaced(st, id, k, tried, pos, u);
    assert TriedIds(st'.mapInfo) == TriedIds(st.mapInfo) - {old_} + {id};
    assert NewIds(st'.mapInfo) == NewIds(st.mapInfo) - {id} + {old_};
    CardRemove(TriedIds(st.mapInfo), old_);
    CardAdd(TriedIds(st.mapInfo) - {old_}, id);
    CardRemove(NewIds(st.mapInfo), id);
    CardAdd(NewIds(st.mapInfo) - {id}, old_);
  }

  lemma ReplaceSizes(st: State, id: Id, k: nat, tried: seq<Id>, pos: nat, u: nat)
    requires Sizes(st) && id in st.mapInfo && k < TRIED_BUCKET_COUNT && |tried| == |st.vvTried[k]| && pos < |tried| && tried[pos] in st.mapInfo
    requires u < NEW_BUCKET_COUNT && |Without(st.vvNew, id)[u]| < NEW_BUCKET_SIZE
    ensures Sizes(Replaced(st, id, k, tried, pos, u))
  {
    WithoutSizes(st.vvNew, id);
    var s := Without(st.vvNew, id)[u];
    if tried[pos] in s {
      assert s + {tried[pos]} == s;
    } else {
      CardAdd(s, tried[pos]);
    }
  }

  lemma ReplaceCounts(st: State, id: Id, k: nat, tried: seq<Id>, pos: nat, u: nat, x: Id)
    requires Counts(st, {}) && id in st.mapInfo && !st.mapInfo[id].fInTried
    requires k < |st.vvTried| && multiset(tried) == multiset(st.vvTried[k]) && pos < |tried|
    requires tried[pos] in st.mapInfo && st.mapInfo[tried[pos]].fInTried && st.mapInfo[tried[pos]].nRefCount == 0
    requires u < |st.vvNew|
    ensures CountsOk(Replaced(st, id, k, tried, pos, u), x, {})
  {
    var old_ := tried[pos];
    var rest := Without(st.vvNew, id);
    assert CountsOk(st, x, {}) && CountsOk(st, old_, {});
    WithoutCounts(st.vvNew, id, x);
    WithoutCounts(st.vvNew, id, old_);
    NewCountUpdate(rest, u, rest[u] + {old_}, x);
    if old_ in rest[u] {
      InBucketCounts(rest, u, old_);
    }
    TriedCountUpdate(st.vvTried, k, tried[pos := id], x);
    assert multiset(tried[pos := id]) == multiset(tried) - multiset{old_} + multiset{id};
  }
}
