/**
  The layered coins cache of coins.cpp: a database below any number of
  write-back caches, each entry carrying a DIRTY and a FRESH flag.

  Every layer stands for one plain map (`Contents`); the methods are specified
  by what they do to that map, whatever is cached where.
 */
module CoinsCache {
  import opened Coins

  datatype Entry = Entry(coins: Coins, isDirty: bool, isFresh: bool)

  type CoinsMap = map<Hash, Entry>

  // ---------------------------------------------------------------------------
  // What a cache over a map stands for
  // ---------------------------------------------------------------------------

  /** Only clean, not fully spent records. */
  ghost predicate GoodView(v: View) {
    forall id :: id in v ==> v[id].IsClean() && !v[id].IsPruned()
  }

  /** The map a cache stands for: its own entries first, its base otherwise. */
  ghost function Observe(cache: CoinsMap, under: View): (v: View) {
    map id | id in cache.Keys + under.Keys && (id in cache ==> !cache[id].coins.IsPruned()) ::
      if id in cache then cache[id].coins else under[id]
  }

  /** What a flag combination promises about the base of the cache. */
  ghost predicate EntryOk(id: Hash, e: Entry, under: View) {
    && e.coins.IsClean()
    && (e.isFresh ==> id !in under)
    && (!e.isDirty ==> if e.coins.IsPruned() then id !in under else id in under && under[id] == e.coins)
  }

  ghost predicate CacheOk(cache: CoinsMap, under: View) {
    forall id :: id in cache ==> EntryOk(id, cache[id], under)
  }

  /** The entries that were pulled in from a base that had something unspent. */
  ghost function NotFresh(cache: CoinsMap): set<Hash> {
    set id | id in cache && !cache[id].isFresh
  }

  lemma ObserveGood(cache: CoinsMap, under: View)
    requires GoodView(under) && CacheOk(cache, under)
    ensures GoodView(Observe(cache, under))
  {
    forall id | id in Observe(cache, under)
      ensures Observe(cache, under)[id].IsClean() && !Observe(cache, under)[id].IsPruned()
    {
      if id in cache {
        assert EntryOk(id, cache[id], under);
      }
    }
  }

  lemma ObserveNothing(under: View)
    ensures CacheOk(map[], under) && Observe(map[], under) == under
  {
  }

  /** A cached record, taken as a copy, describes the cache's map truthfully. */
  lemma ObservedEntry(cache: CoinsMap, under: View, id: Hash)
    requires CacheOk(cache, under) && id in cache
    ensures EntryOk(id, Entry(cache[id].coins, false, cache[id].coins.IsPruned()), Observe(cache, under))
  {
    assert EntryOk(id, cache[id], under);
  }

  lemma ObserveMiss(cache: CoinsMap, under: View, id: Hash)
    requires id !in cache && id !in under
    ensures id !in Observe(cache, under)
  {
  }

  /** Copying a record up from the base changes nothing that can be observed. */
  lemma ObserveFill(cache: CoinsMap, under: View, id: Hash, e: Entry)
    requires CacheOk(cache, under)
    requires id !in cache && !e.isDirty && EntryOk(id, e, under)
    ensures CacheOk(cache[id := e], under)
    ensures Observe(cache[id := e], under) == Observe(cache, under)
    ensures NotFresh(cache[id := e]) <= NotFresh(cache) + if e.isFresh then {} else {id}
  {
  }

  /** Writing the entries of a child into a map: only dirty ones count. */
  ghost function Written(child: CoinsMap, v: View): (w: View) {
    map id | id in child.Keys + v.Keys && (id in child && child[id].isDirty ==> !child[id].coins.IsPruned()) && (id in child && !child[id].isDirty ==> id in v) ::
      if id in child && child[id].isDirty then child[id].coins else v[id]
  }

  /**
    Flushing loses nothing: for a cache whose flags are honest, writing only
    the dirty entries produces exactly what the cache stood for.
   */
  lemma WrittenIsObserved(cache: CoinsMap, under: View)
    requires CacheOk(cache, under)
    ensures Written(cache, under) == Observe(cache, under)
  {
    var w, o := Written(cache, under), Observe(cache, under);
    forall id
      ensures id in w <==> id in o
      ensures id in w && id in o ==> w[id] == o[id]
    {
      if id in cache {
        assert EntryOk(id, cache[id], under);
      }
    }
  }

  lemma WrittenGood(child: CoinsMap, v: View)
    requires GoodView(v) && forall id :: id in child ==> child[id].coins.IsClean()
    ensures GoodView(Written(child, v))
  {
  }

  /** `done` and `todo` are the two parts of a map that is being consumed. */
  ghost predicate Split(all: CoinsMap, done: CoinsMap, todo: CoinsMap) {
    && done.Keys !! todo.Keys
    && all == done + todo
  }

  lemma SplitStep(all: CoinsMap, done: CoinsMap, todo: CoinsMap, id: Hash)
    requires Split(all, done, todo) && id in todo
    ensures Split(all, done[id := todo[id]], todo - {id}) && id !in done && id in all && todo[id] == all[id]
    ensures |todo - {id}| < |todo|
  {
    assert (todo - {id}).Keys == todo.Keys - {id};
  }

  lemma SplitStart(all: CoinsMap, v: View)
    ensures Split(all, map[], all) && Written(map[], v) == v
  {
  }

  lemma SplitEnd(all: CoinsMap, done: CoinsMap)
    requires Split(all, done, map[])
    ensures done == all
  {
  }

  /** `BatchWriteCoins`: only a dirty entry is written, and a fully spent one erases. */
  function WriteEntry(v: View, id: Hash, e: Entry): View {
    if e.isDirty then Put(v, id, e.coins) else v
  }

  /** One step of the write-back loop over the child's entries. */
  lemma WrittenStep(done: CoinsMap, id: Hash, e: Entry, v: View)
    requires id !in done
    ensures Written(done[id := e], v) == WriteEntry(Written(done, v), id, e)
  {
    var w := Written(done[id := e], v);
    var w' := WriteEntry(Written(done, v), id, e);
    forall x
      ensures x in w <==> x in w'
      ensures x in w && x in w' ==> w[x] == w'[x]
    {
    }
  }

  /** `CCoinsViewCache::BatchWrite` on one entry of the child map. */
  function Absorb(cache: CoinsMap, id: Hash, e: Entry): CoinsMap {
    if !e.isDirty then cache
    else if id !in cache then
      if e.coins.IsPruned() then cache else cache[id := Entry(e.coins, true, true)]
    else if cache[id].isFresh && e.coins.IsPruned() then cache - {id}
    else cache[id := Entry(e.coins, true, cache[id].isFresh)]
  }

  /** Absorbing an entry writes it through, and the flags stay honest. */
  lemma AbsorbStep(cache: CoinsMap, under: View, id: Hash, e: Entry)
    requires CacheOk(cache, under) && e.coins.IsClean()
    requires id !in cache ==> e.isFresh && id !in under
    ensures CacheOk(Absorb(cache, id, e), under)
    ensures NotFresh(Absorb(cache, id, e)) <= NotFresh(cache)
    ensures forall x :: x != id ==> (x in Absorb(cache, id, e) <==> x in cache)
  {
  }

  lemma AbsorbObserved(cache: CoinsMap, under: View, id: Hash, e: Entry)
    requires CacheOk(cache, under)
    requires id !in cache ==> id !in under
    ensures Observe(Absorb(cache, id, e), under) == WriteEntry(Observe(cache, under), id, e)
  {
    if e.isDirty {
      var after := Absorb(cache, id, e);
      assert id in cache ==> EntryOk(id, cache[id], under);
      assert id in after ==> after[id].coins == e.coins;
      assert id !in after ==> e.coins.IsPruned() && id !in under;
      ObserveAt(cache, after, under, id, e.coins);
    }
  }

  /** Changing what a cache says about one txid changes the map it stands for there and nowhere else. */
  lemma ObserveAt(cache: CoinsMap, after: CoinsMap, under: View, id: Hash, c: Coins)
    requires forall x :: x != id ==> (x in after <==> x in cache) && (x in cache ==> after[x] == cache[x])
    requires if id in after then after[id].coins == c else c.IsPruned() && id !in under
    ensures Observe(after, under) == Put(Observe(cache, under), id, c)
  {
  }

  /** An entry the child made FRESH is unknown to the whole stack below the parent. */
  lemma FreshUnknownBelow(cache: CoinsMap, under: View, done: CoinsMap, before: View, id: Hash, e: Entry)
    requires Observe(cache, under) == Written(done, before)
    requires id !in done && EntryOk(id, e, before) && e.isFresh && id !in cache
    ensures id !in under
  {
    assert id !in Written(done, before);
  }

  /** What the modifier's destructor leaves behind: a FRESH entry with nothing unspent is erased. */
  function Stored(cache: CoinsMap, id: Hash, c: Coins): CoinsMap
    requires id in cache
  {
    if cache[id].isFresh && c.IsPruned() then cache - {id} else cache[id := cache[id].(coins := c)]
  }

  lemma StoreModified(cache: CoinsMap, under: View, id: Hash, c: Coins)
    requires CacheOk(cache, under) && id in cache && cache[id].isDirty && c.IsClean()
    ensures CacheOk(Stored(cache, id, c), under) && NotFresh(Stored(cache, id, c)) <= NotFresh(cache)
    ensures Observe(Stored(cache, id, c), under) == Put(Observe(cache, under), id, c)
  {
    assert EntryOk(id, cache[id], under);
    ObserveAt(cache, Stored(cache, id, c), under, id, c);
  }

  lemma BatchWriteStep(cache: CoinsMap, under: View, done: CoinsMap, before: View, todo: CoinsMap, id: Hash)
    requires CacheOk(cache, under) && Observe(cache, under) == Written(done, before)
    requires id in todo && id !in done && EntryOk(id, todo[id], before)
    requires NotFresh(todo) <= cache.Keys
    ensures id in cache || todo[id].isFresh
    ensures CacheOk(Absorb(cache, id, todo[id]), under) && NotFresh(Absorb(cache, id, todo[id])) <= NotFresh(cache)
    ensures Observe(Absorb(cache, id, todo[id]), under) == Written(done[id := todo[id]], before)
    ensures NotFresh(todo - {id}) <= Absorb(cache, id, todo[id]).Keys
  {
    var e := todo[id];
    if id !in cache {
      assert id !in NotFresh(todo);
      FreshUnknownBelow(cache, under, done, before, id, e);
    }
    AbsorbStep(cache, under, id, e);
    AbsorbObserved(cache, under, id, e);
    WrittenStep(done, id, e, before);
  }

  /** Raising the DIRTY flag is always honest. */
  lemma MarkDirty(cache: CoinsMap, under: View, id: Hash)
    requires CacheOk(cache, under) && id in cache
    ensures CacheOk(cache[id := cache[id].(isDirty := true)], under)
    ensures NotFresh(cache[id := cache[id].(isDirty := true)]) == NotFresh(cache)
    ensures Observe(cache[id := cache[id].(isDirty := true)], under) == Observe(cache, under)
  {
    assert EntryOk(id, cache[id], under);
  }

  /**
    The loop of `CCoinsViewCache::BatchWrite`, consuming the child's map entry
    by entry. The result stands for the parent's map with every dirty entry of
    the child written through, and its own flags are again honest.
   */
  method Merge(cache: CoinsMap, child: CoinsMap, ghost under: View) returns (merged: CoinsMap)
    requires CacheOk(cache, under) && CacheOk(child, Observe(cache, under))
    requires NotFresh(child) <= cache.Keys
    ensures CacheOk(merged, under) && NotFresh(merged) <= NotFresh(cache)
    ensures Observe(merged, under) == Written(child, Observe(cache, under))
  {
    merged := cache;
    var todo := child;
    ghost var done: CoinsMap := map[];
    ghost var before := Observe(cache, under);
    SplitStart(child, before);
    while todo != map[]
      invariant Split(child, done, todo)
      invariant CacheOk(merged, under) && NotFresh(merged) <= NotFresh(cache)
      invariant Observe(merged, under) == Written(done, before)
      invariant NotFresh(todo) <= merged.Keys
      decreases |todo|
    {
      var id :| id in todo;
      SplitStep(child, done, todo, id);
      BatchWriteStep(merged, under, done, before, todo, id);
      // The assertion of line 150: an entry this cache has never seen was FRESH in the child.
      assert id in merged || todo[id].isFresh;
      merged := Absorb(merged, id, todo[id]);
      done := done[id := todo[id]];
      todo := todo - {id};
    }
    SplitEnd(child, done);
  }

  // ---------------------------------------------------------------------------
  // The objects
  // ---------------------------------------------------------------------------

  /** `CCoinsViewDB`: the database holds no fully spent record. */
  class CoinsViewDB {
    var coins: View
    var bestBlock: Hash

    constructor ()
      ensures coins == map[] && bestBlock == 0
    {
      coins := map[];
      bestBlock := 0;
    }

    method BatchWrite(mapCoins: CoinsMap, hashBlock: Hash)
      modifies this
      ensures coins == Written(mapCoins, old(coins))
      ensures bestBlock == if hashBlock != 0 then hashBlock else old(bestBlock)
    {
      var todo := mapCoins;
      ghost var done: CoinsMap := map[];
      ghost var before := coins;
      SplitStart(mapCoins, coins);
      while todo != map[]
        invariant Split(mapCoins, done, todo)
        invariant coins == Written(done, before)
        decreases |todo|
        modifies this`coins
      {
        var id :| id in todo;
        SplitStep(mapCoins, done, todo, id);
        WrittenStep(done, id, todo[id], before);
        coins := WriteEntry(coins, id, todo[id]);
        done := done[id := todo[id]];
        todo := todo - {id};
      }
      SplitEnd(mapCoins, done);
      if hashBlock != 0 {
        bestBlock := hashBlock;
      }
    }
  }

  /** What a cache is stacked on: the database or another cache. */
  datatype Base = Db(db: CoinsViewDB) | Cached(cache: CoinsViewCache) {
    ghost function Objects(): set<object> {
      match this
      case Db(db) => {db}
      case Cached(cache) => {cache} + cache.Repr
    }

    ghost predicate Valid()
      reads Objects()
      decreases Objects(), 1
    {
      match this
      case Db(db) => GoodView(db.coins)
      case Cached(cache) => cache.Valid()
    }

    ghost function Contents(): (v: View)
      requires Valid()
      reads Objects()
      ensures GoodView(v)
      decreases Objects(), 3
    {
      match this
      case Db(db) => db.coins
      case Cached(cache) => cache.Contents()
    }

    ghost function BestBlock(): Hash
      requires Valid()
      reads Objects()
      decreases Objects(), 3
    {
      match this
      case Db(db) => db.bestBlock
      case Cached(cache) => cache.BestBlock()
    }

    /** The entries held by the cache just below; the database has none of its own. */
    ghost function Held(): set<Hash>
      reads Objects()
    {
      if Db? then {} else cache.cacheCoins.Keys
    }

    predicate HasModifier()
      reads Objects()
    {
      Cached? && cache.hasModifier
    }

    method GetBestBlock() returns (hash: Hash)
      requires Valid()
      modifies Objects()
      ensures Valid() && Contents() == old(Contents()) && BestBlock() == old(BestBlock())
      ensures Held() == old(Held()) && HasModifier() == old(HasModifier())
      ensures hash == BestBlock()
      decreases Objects(), 1
    {
      match this
      case Db(db) => hash := db.bestBlock;
      case Cached(cache) => hash := cache.GetBestBlock();
    }

    /** The object just below, the only one a write-back touches. */
    ghost function Top(): set<object> {
      match this
      case Db(db) => {db}
      case Cached(cache) => {cache}
    }

    method BatchWrite(mapCoins: CoinsMap, hash: Hash)
      requires Valid() && !HasModifier()
      requires CacheOk(mapCoins, Contents()) && (Cached? ==> NotFresh(mapCoins) <= Held())
      modifies Top()
      ensures Valid() && !HasModifier() && Contents() == Written(mapCoins, old(Contents()))
      ensures Db? ==> db.bestBlock == if hash != 0 then hash else old(db.bestBlock)
      ensures Cached? ==> cache.hashBlock == hash
    {
      match this
      case Db(db) =>
        WrittenGood(mapCoins, db.coins);
        db.BatchWrite(mapCoins, hash);
      case Cached(cache) =>
        cache.BatchWrite(mapCoins, hash);
    }

    /** The virtual `GetCoins` of the view below. */
    method GetCoins(id: Hash) returns (found: bool, coins: Coins)
      requires Valid()
      modifies Objects()
      ensures Valid() && Contents() == old(Contents()) && BestBlock() == old(BestBlock())
      ensures old(Held()) <= Held() && HasModifier() == old(HasModifier())
      ensures found ==> (Db? || id in Held()) && EntryOk(id, Entry(coins, false, coins.IsPruned()), Contents())
      ensures !found ==> id !in Contents()
      decreases Objects(), 1
    {
      coins := NO_COINS;
      match this {
        case Db(db) =>
          found := id in db.coins;
          if found {
            coins := db.coins[id];
          }
        case Cached(cache) =>
          found := cache.FetchCoins(id);
          if found {
            coins := cache.cacheCoins[id].coins;
            ObservedEntry(cache.cacheCoins, cache.base.Contents(), id);
          }
      }
    }
  }

  class CoinsViewCache {
    const base: Base
    ghost const Repr: set<object>
    var cacheCoins: CoinsMap
    var hashBlock: Hash
    var hasModifier: bool
    var modified: Hash

    ghost predicate Valid()
      reads this, Repr
      decreases Repr, 0
    {
      && this in Repr
      && base.Objects() <= Repr
      && this !in base.Objects()
      && base.Valid()
      && CacheOk(cacheCoins, base.Contents())
      && (base.Cached? ==> NotFresh(cacheCoins) <= base.Held())
      && (hasModifier ==> modified in cacheCoins && cacheCoins[modified].isDirty)
    }

    /** The plain map this layer stands for. */
    ghost function Contents(): (v: View)
      requires Valid()
      reads this, Repr
      ensures GoodView(v)
      decreases Repr, 2
    {
      ObserveGood(cacheCoins, base.Contents());
      Observe(cacheCoins, base.Contents())
    }

    ghost function BestBlock(): Hash
      requires Valid()
      reads this, Repr
      decreases Repr, 2
    {
      if hashBlock == 0 then base.BestBlock() else hashBlock
    }

    /** Nothing below has changed as far as anyone can observe. */
    twostate predicate BaseKept()
      requires old(Valid())
      reads this, Repr
    {
      && Valid()
      && base.Contents() == old(base.Contents())
      && base.BestBlock() == old(base.BestBlock())
      && base.HasModifier() == old(base.HasModifier())
    }

    /** Moreover this layer has the same best block and modifier. */
    twostate predicate Kept()
      requires old(Valid())
      reads this, Repr
    {
      BaseKept() && hashBlock == old(hashBlock) && hasModifier == old(hasModifier) && modified == old(modified)
    }

    constructor (base: Base)
      requires base.Valid()
      ensures this.base == base
      ensures Valid() && !hasModifier && fresh(Repr - base.Objects())
      ensures Repr == {this} + base.Objects()
      ensures Contents() == base.Contents() && BestBlock() == base.BestBlock() && hashBlock == 0
    {
      this.base := base;
      Repr := {this} + base.Objects();
      cacheCoins := map[];
      hashBlock := 0;
      hasModifier := false;
      modified := 0;
      new;
      ObserveNothing(base.Contents());
    }

    /** Every update of this layer's own entries goes through here. */
    method SetCache(m: CoinsMap)
      requires Valid()
      requires CacheOk(m, base.Contents()) && (base.Cached? ==> NotFresh(m) <= base.Held())
      requires hasModifier ==> modified in m && m[modified].isDirty
      modifies this`cacheCoins
      ensures Kept() && cacheCoins == m
      ensures Contents() == Observe(m, base.Contents())
      ensures BestBlock() == old(BestBlock())
    {
      cacheCoins := m;
      assert base.Valid();
    }

    /** Keep a copy of what the base returned; a fully spent copy counts as FRESH. */
    method Fill(id: Hash, coins: Coins)
      requires Valid() && id !in cacheCoins && (base.Cached? && !coins.IsPruned() ==> id in base.Held())
      requires EntryOk(id, Entry(coins, false, coins.IsPruned()), base.Contents())
      modifies this`cacheCoins
      ensures Kept() && Contents() == old(Contents()) && BestBlock() == old(BestBlock())
      ensures cacheCoins == old(cacheCoins)[id := Entry(coins, false, coins.IsPruned())]
    {
      ObserveFill(cacheCoins, base.Contents(), id, Entry(coins, false, coins.IsPruned()));
      SetCache(cacheCoins[id := Entry(coins, false, coins.IsPruned())]);
    }

    /**
      `FetchCoins`: look an entry up, filling this cache and every one below.
      `GetCoins` and `AccessCoins` return what is found this way.
     */
    method FetchCoins(id: Hash) returns (found: bool)
      requires Valid()
      modifies Repr
      ensures Kept() && Contents() == old(Contents()) && BestBlock() == old(BestBlock())
      ensures found <==> id in cacheCoins
      ensures !found ==> id !in Contents()
      ensures old(cacheCoins.Keys) <= cacheCoins.Keys
      decreases Repr, 0
    {
      if id in cacheCoins {
        return true;
      }
      ghost var under := base.Contents();
      var coins;
      found, coins := base.GetCoins(id);
      if found {
        Fill(id, coins);
      } else {
        ObserveMiss(cacheCoins, under, id);
      }
    }

    /** `GetCoins`, `AccessCoins`: a copy of the record, fully spent or not. */
    method AccessCoins(id: Hash) returns (found: bool, coins: Coins)
      requires Valid()
      modifies Repr
      ensures Kept() && Contents() == old(Contents())
      ensures found && !coins.IsPruned() <==> id in Contents()
      ensures id in Contents() ==> coins == Contents()[id]
    {
      found := FetchCoins(id);
      coins := NO_COINS;
      if found {
        coins := cacheCoins[id].coins;
        ObservedEntry(cacheCoins, base.Contents(), id);
      }
    }

    /** `HaveCoins` tests for an empty output vector, which is the same as not fully spent. */
    method HaveCoins(id: Hash) returns (have: bool)
      requires Valid()
      modifies Repr
      ensures Kept() && Contents() == old(Contents())
      ensures have <==> id in Contents()
    {
      have := FetchCoins(id);
      if have {
        have := cacheCoins[id].coins.vout != [];
        ObservedEntry(cacheCoins, base.Contents(), id);
        CleanPrunedIsEmpty(cacheCoins[id].coins);
      }
    }

    method GetBestBlock() returns (hash: Hash)
      requires Valid()
      modifies Repr
      ensures BaseKept() && Contents() == old(Contents())
      ensures cacheCoins == old(cacheCoins) && hasModifier == old(hasModifier) && modified == old(modified)
      ensures hash == hashBlock == BestBlock() == old(BestBlock())
      decreases Repr, 0
    {
      if hashBlock == 0 {
        hash := base.GetBestBlock();
        hashBlock := hash;
        assert base.Valid();
      }
      hash := hashBlock;
    }

    method SetBestBlock(hash: Hash)
      requires Valid()
      modifies this`hashBlock
      ensures BaseKept() && Contents() == old(Contents())
      ensures hashBlock == hash
    {
      hashBlock := hash;
    }

    /** `ModifyCoins`: hand out a working copy and mark the entry DIRTY. */
    method ModifyCoins(id: Hash) returns (coins: Coins)
      requires Valid() && !hasModifier
      modifies Repr
      ensures BaseKept() && hasModifier && modified == id && hashBlock == old(hashBlock)
      ensures Contents() == old(Contents())
      ensures coins.IsClean() && (id in Contents() <==> !coins.IsPruned()) && (id in Contents() ==> coins == Contents()[id])
    {
      if id !in cacheCoins {
        var found;
        found, coins := base.GetCoins(id);
        if !found {
          coins := NO_COINS;
        }
        Fill(id, coins);
      }
      StartModifier(id);
      coins := cacheCoins[id].coins;
      ObservedEntry(cacheCoins, base.Contents(), id);
    }

    method StartModifier(id: Hash)
      requires Valid() && !hasModifier && id in cacheCoins
      modifies this`cacheCoins, this`hasModifier, this`modified
      ensures BaseKept() && hasModifier && modified == id
      ensures Contents() == old(Contents()) && cacheCoins.Keys == old(cacheCoins.Keys)
    {
      hide CacheOk, Observe, NotFresh;
      MarkDirty(cacheCoins, base.Contents(), id);
      SetCache(cacheCoins[id := cacheCoins[id].(isDirty := true)]);
      hasModifier := true;
      modified := id;
      assert base.Valid();
    }

    /** The destructor of `CCoinsModifier`, given the working copy as its user left it. */
    method EndModifier(coins: Coins)
      requires Valid() && hasModifier
      modifies this`cacheCoins, this`hasModifier
      ensures BaseKept() && !hasModifier
      ensures Contents() == Put(old(Contents()), modified, coins.Cleanup())
    {
      hasModifier := false;
      assert base.Valid();
      StoreModified(cacheCoins, base.Contents(), modified, coins.Cleanup());
      SetCache(Stored(cacheCoins, modified, coins.Cleanup()));
    }

    /** `BatchWrite`: take over the entries of the cache above. */
    method BatchWrite(mapCoins: CoinsMap, hash: Hash)
      requires Valid() && !hasModifier
      requires CacheOk(mapCoins, Contents()) && NotFresh(mapCoins) <= cacheCoins.Keys
      modifies this`cacheCoins, this`hashBlock
      ensures BaseKept() && Contents() == Written(mapCoins, old(Contents()))
      ensures hashBlock == hash
    {
      var merged := Merge(cacheCoins, mapCoins, base.Contents());
      SetCache(merged);
      hashBlock := hash;
      assert base.Valid();
    }

    /**
      `Flush`: afterwards the layer below stands for exactly what this layer
      stood for, and this layer still stands for the same.
     */
    method Flush()
      requires Valid() && !hasModifier && !base.HasModifier()
      modifies this`cacheCoins, base.Top()
      ensures Valid() && !hasModifier && !base.HasModifier()
      ensures base.Contents() == old(Contents()) && Contents() == old(Contents())
      ensures hashBlock != 0 ==> base.BestBlock() == hashBlock
      ensures hashBlock == 0 && base.Db? ==> base.BestBlock() == old(base.BestBlock())
      ensures hashBlock == 0 && base.Cached? ==> base.cache.hashBlock == 0
    {
      WrittenIsObserved(cacheCoins, base.Contents());
      base.BatchWrite(cacheCoins, hashBlock);
      cacheCoins := map[];
      ObserveNothing(base.Contents());
    }
  }
}
