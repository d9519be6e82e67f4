/**
  The block index of chain.h and chain.cpp: a tree of headers linked by `pprev`,
  with a skip pointer in every node, and the vector `CChain` that indexes one
  branch by height.
 */
module BlockTree {
  import opened Arithmetic
  import opened Options
  import SkipHeights

  /** A `CBlockIndex*`, told apart by address. */
  type Id = nat

  datatype Node = Node(prev: Option<Id>, skip: Option<Id>, height: nat, work: nat)

  type Tree = map<Id, Node>

  // ---------------------------------------------------------------------------
  // Trees and paths
  // ---------------------------------------------------------------------------

  /** Heights count from the root, and every block adds work. */
  ghost predicate NodeOk(t: Tree, b: Id)
    requires b in t
  {
    match t[b].prev
    case None => t[b].height == 0 && t[b].work > 0
    case Some(p) => p in t && t[b].height == t[p].height + 1 && t[b].work > t[p].work
  }

  ghost predicate IsRoot(t: Tree, b: Id) {
    b in t && t[b].prev.None?
  }

  /** A tree of headers with one root. */
  ghost predicate Wf(t: Tree) {
    && (forall b {:trigger NodeOk(t, b)} :: b in t ==> NodeOk(t, b))
    && (forall a, b {:trigger IsRoot(t, a), IsRoot(t, b)} :: IsRoot(t, a) && IsRoot(t, b) ==> a == b)
  }

  /** The branch from the root to `b`, so that the block at height `h` is at index `h`. */
  ghost function Path(t: Tree, b: Id): (p: seq<Id>)
    requires Wf(t) && b in t
    ensures |p| == t[b].height + 1 && p[|p| - 1] == b
    ensures forall i :: 0 <= i < |p| ==> p[i] in t && t[p[i]].height == i
    decreases t[b].height
  {
    assert NodeOk(t, b);
    if t[b].prev.None? then [b] else Path(t, t[b].prev.value) + [b]
  }

  /** Every block of a branch has the branch up to it as its own. */
  lemma {:induction false} PathPrefix(t: Tree, b: Id, h: nat)
    requires Wf(t) && b in t && h <= t[b].height
    ensures Path(t, Path(t, b)[h]) == Path(t, b)[..h + 1]
    decreases t[b].height
  {
    var p := Path(t, b);
    if h == t[b].height {
      assert p[..h + 1] == p;
    } else {
      assert NodeOk(t, b);
      var a := t[b].prev.value;
      PathPrefix(t, a, h);
      assert p == Path(t, a) + [b];
      assert p[..h + 1] == Path(t, a)[..h + 1];
    }
  }

  lemma PathPrev(t: Tree, b: Id)
    requires Wf(t) && b in t
    ensures t[b].prev.None? ==> t[b].height == 0
    ensures t[b].prev.Some? ==> t[b].height > 0 && t[b].prev.value in t
    ensures t[b].prev.Some? ==> Path(t, t[b].prev.value) == Path(t, b)[..t[b].height]
  {
    assert NodeOk(t, b);
    if t[b].prev.Some? {
      assert Path(t, b)[..t[b].height] == Path(t, t[b].prev.value);
    }
  }

  /** One step back along a branch. */
  lemma PathStep(t: Tree, b: Id, h: nat)
    requires Wf(t) && b in t && h <= t[b].height
    ensures t[Path(t, b)[h]].prev == if h == 0 then None else Some(Path(t, b)[h - 1])
  {
    PathPrefix(t, b, h);
    PathPrev(t, Path(t, b)[h]);
  }

  /** All branches start at the same root. */
  lemma PathRoot(t: Tree, a: Id, b: Id)
    requires Wf(t) && a in t && b in t
    ensures Path(t, a)[0] == Path(t, b)[0]
  {
    PathStep(t, a, 0);
    PathStep(t, b, 0);
    assert IsRoot(t, Path(t, a)[0]) && IsRoot(t, Path(t, b)[0]);
  }

  /** A block on two branches is at the same place, with the same blocks below it. */
  lemma SharedPrefix(t: Tree, a: Id, b: Id, i: nat, j: nat)
    requires Wf(t) && a in t && b in t && i <= t[a].height && j <= t[b].height
    requires Path(t, a)[i] == Path(t, b)[j]
    ensures i == j && Path(t, a)[..i + 1] == Path(t, b)[..i + 1]
  {
    PathPrefix(t, a, i);
    PathPrefix(t, b, j);
  }

  // ---------------------------------------------------------------------------
  // Skip pointers
  // ---------------------------------------------------------------------------

  ghost predicate SkipOk(t: Tree, b: Id)
    requires Wf(t) && b in t
  {
    t[b].prev.Some? ==> t[b].skip == Some(Path(t, b)[SkipHeights.GetSkipHeight(t[b].height)])
  }

  /** Every skip pointer leads to the ancestor at the skip height. */
  ghost predicate Skips(t: Tree) {
    Wf(t) && forall b {:trigger SkipOk(t, b)} :: b in t ==> SkipOk(t, b)
  }

  /** One jump back along a branch. */
  lemma PathSkip(t: Tree, b: Id, h: nat)
    requires Skips(t) && b in t && 0 < h <= t[b].height
    ensures t[Path(t, b)[h]].skip == Some(Path(t, b)[SkipHeights.GetSkipHeight(h)])
  {
    PathPrefix(t, b, h);
    PathPrev(t, Path(t, b)[h]);
    assert SkipOk(t, Path(t, b)[h]);
  }

  /** A count of steps from a height that grows with the square of its number of bits. */
  ghost predicate FewSteps(h: nat, steps: nat) {
    && (h <= Pow2(18) ==> steps <= 110)
    && forall k: nat :: h < Pow2(k) ==> 4 * steps <= k * k + 8 * k
  }

  lemma StepsBounded(h: nat, height: nat)
    requires height <= h
    ensures FewSteps(h, SkipHeights.Steps(h, height))
  {
    hide SkipHeights.Steps, Pow2;
    forall k: nat | h < Pow2(k)
      ensures 4 * SkipHeights.Steps(h, height) <= k * k + 8 * k
    {
      SkipHeights.StepsBound(h, height, k);
    }
    if h <= Pow2(18) {
      SkipHeights.DocumentedSteps(h, height);
    }
  }

  /**
    `GetAncestor` agrees with walking `pprev`, for every height, and refuses heights
    outside the branch; `steps` counts the pointers it follows.
   */
  method GetAncestor(t: Tree, b: Id, height: int) returns (r: Option<Id>, ghost steps: nat)
    requires Skips(t) && b in t
    ensures r == if 0 <= height <= t[b].height then Some(Path(t, b)[height]) else None
    ensures FewSteps(t[b].height, steps)
  {
    hide FewSteps;
    steps := 0;
    if height > t[b].height || height < 0 {
      StepsBounded(t[b].height, t[b].height);
      return None, 0;
    }
    var walk, h := b, t[b].height;
    while h > height
      invariant height <= h <= t[b].height
      invariant walk == Path(t, b)[h]
      invariant steps + SkipHeights.Steps(h, height) == SkipHeights.Steps(t[b].height, height)
    {
      PathStep(t, b, h);
      PathSkip(t, b, h);
      steps := steps + 1;
      var skip, skipPrev := SkipHeights.GetSkipHeight(h), SkipHeights.GetSkipHeight(h - 1);
      if skip == height || (skip > height && !(skipPrev < skip - 2 && skipPrev >= height)) {
        walk := t[walk].skip.value;
        h := skip;
      } else {
        walk := t[walk].prev.value;
        h := h - 1;
      }
    }
    r := Some(walk);
    StepsBounded(t[b].height, height);
  }

  lemma {:induction false} PathGrows(t: Tree, u: Tree, b: Id)
    requires Wf(t) && Wf(u) && b in t
    requires forall x :: x in t ==> x in u && u[x].prev == t[x].prev && u[x].height == t[x].height
    ensures Path(u, b) == Path(t, b)
    decreases t[b].height
  {
    PathPrev(t, b);
    if t[b].prev.Some? {
      PathGrows(t, u, t[b].prev.value);
    }
  }

  /** A node that may be added as a new leaf. */
  ghost predicate LeafOk(t: Tree, n: Node) {
    match n.prev
    case None => t == map[] && n.height == 0 && n.work > 0
    case Some(p) => p in t && n.height == t[p].height + 1 && n.work > t[p].work
  }

  lemma AddLeafWf(t: Tree, b: Id, n: Node)
    requires Wf(t) && b !in t && LeafOk(t, n)
    ensures Wf(t[b := n])
  {
    var u := t[b := n];
    forall x | x in u
      ensures NodeOk(u, x)
    {
      if x in t {
        assert NodeOk(t, x);
      }
    }
    forall x, y | IsRoot(u, x) && IsRoot(u, y)
      ensures x == y
    {
      if x in t && y in t {
        assert IsRoot(t, x) && IsRoot(t, y);
      }
    }
  }

  /** A new leaf leaves every branch as it was. */
  lemma AddLeaf(t: Tree, b: Id, n: Node)
    requires Wf(t) && b !in t && LeafOk(t, n)
    ensures Wf(t[b := n])
    ensures forall x :: x in t ==> Path(t[b := n], x) == Path(t, x)
    ensures Path(t[b := n], b) == (if n.prev.Some? then Path(t, n.prev.value) else []) + [b]
  {
    var u := t[b := n];
    AddLeafWf(t, b, n);
    forall x | x in t
      ensures Path(u, x) == Path(t, x)
    {
      PathGrows(t, u, x);
    }
  }

  lemma AddLeafSkips(t: Tree, b: Id, n: Node)
    requires Skips(t) && b !in t && LeafOk(t, n)
    requires n.prev.Some? ==> n.skip == Some(Path(t, n.prev.value)[SkipHeights.GetSkipHeight(n.height)])
    ensures Skips(t[b := n])
  {
    var u := t[b := n];
    AddLeaf(t, b, n);
    forall x | x in u
      ensures SkipOk(u, x)
    {
      if x in t {
        assert SkipOk(t, x);
      }
    }
  }

  /** The entry for a header whose parent is known: the parent's height plus one, its work plus the own, and `BuildSkip`. */
  method MakeNode(t: Tree, prev: Option<Id>, proof: nat) returns (n: Node)
    requires Skips(t) && proof > 0
    requires if prev.Some? then prev.value in t else t == map[]
    ensures LeafOk(t, n) && n.prev == prev && n.work == (if prev.Some? then t[prev.value].work else 0) + proof
    ensures prev.Some? ==> n.skip == Some(Path(t, prev.value)[SkipHeights.GetSkipHeight(n.height)])
  {
    hide FewSteps;
    n := Node(None, None, 0, proof);
    if prev.Some? {
      var p := prev.value;
      var h := t[p].height + 1;
      var skip, _ := GetAncestor(t, p, SkipHeights.GetSkipHeight(h));
      n := Node(prev, skip, h, t[p].work + proof);
    }
  }

  /**
    `AddToBlockIndex` for a header that is not known yet: link it to its parent,
    add its own work, and build its skip pointer with `BuildSkip`.
   */
  method AddToBlockIndex(t: Tree, b: Id, prev: Option<Id>, proof: nat) returns (u: Tree)
    requires Skips(t) && b !in t && proof > 0
    requires if prev.Some? then prev.value in t else t == map[]
    ensures Skips(u) && u.Keys == t.Keys + {b}
    ensures forall x :: x in t ==> u[x] == t[x] && Path(u, x) == Path(t, x)
    ensures u[b].prev == prev
    ensures Path(u, b) == (if prev.Some? then Path(t, prev.value) else []) + [b]
    ensures u[b].work == (if prev.Some? then t[prev.value].work else 0) + proof
  {
    hide LeafOk, NodeOk, SkipOk, Path, IsRoot;
    var n := MakeNode(t, prev, proof);
    AddLeaf(t, b, n);
    AddLeafSkips(t, b, n);
    u := t[b := n];
  }

  // ---------------------------------------------------------------------------
  // CChain
  // ---------------------------------------------------------------------------

  ghost function Somes(p: seq<Id>): (c: seq<Option<Id>>)
    ensures |c| == |p| && forall i :: 0 <= i < |p| ==> c[i] == Some(p[i])
  {
    seq(|p|, i requires 0 <= i < |p| => Some(p[i]))
  }

  /** The vector holds exactly the branch of its last entry. */
  ghost predicate IsChain(t: Tree, c: seq<Option<Id>>) {
    && Wf(t)
    && (c != [] ==> var tip := c[|c| - 1]; tip.Some? && tip.value in t && c == Somes(Path(t, tip.value)))
  }

  /** How far two sequences agree. */
  ghost function Common<T>(a: seq<T>, b: seq<T>): (k: nat)
    ensures k <= |a| && k <= |b| && a[..k] == b[..k]
    ensures k < |a| && k < |b| ==> a[k] != b[k]
  {
    if a == [] || b == [] || a[0] != b[0] then 0
    else
      var k := Common(a[1..], b[1..]);
      assert a[..k + 1] == [a[0]] + a[1..][..k] && b[..k + 1] == [b[0]] + b[1..][..k];
      k + 1
  }

  lemma CommonIs<T>(a: seq<T>, b: seq<T>, k: nat)
    requires k <= |a| && k <= |b| && a[..k] == b[..k]
    requires k < |a| && k < |b| ==> a[k] != b[k]
    ensures Common(a, b) == k
  {
  }

  class CChain {
    var vChain: seq<Option<Id>>

    constructor ()
      ensures vChain == []
    {
      vChain := [];
    }

    function Tip(): Option<Id>
      reads this
    {
      if |vChain| > 0 then vChain[|vChain| - 1] else None
    }

    function At(h: int): Option<Id>
      reads this
    {
      if h < 0 || h >= |vChain| then None else vChain[h]
    }

    predicate Contains(t: Tree, b: Id)
      requires b in t
      reads this
    {
      At(t[b].height) == Some(b)
    }

    /**
      `SetTip`: the vector becomes exactly the branch of the new tip, although
      the loop stops at the first entry that is already right.
     */
    method SetTip(t: Tree, tip: Option<Id>)
      requires IsChain(t, vChain) && (tip.Some? ==> tip.value in t)
      modifies this
      ensures IsChain(t, vChain) && Tip() == tip
      ensures vChain == if tip.Some? then Somes(Path(t, tip.value)) else []
    {
      if tip.None? {
        vChain := [];
        return;
      }
      var n := t[tip.value].height + 1;
      var resized := if n <= |vChain| then vChain[..n] else vChain + seq(n - |vChain|, _ => None);
      vChain := Refill(t, tip.value, vChain, resized);
    }

    /** The loop of `SetTip`: write the new branch from its top until an entry is already right. */
    static method Refill(t: Tree, tip: Id, ghost before: seq<Option<Id>>, resized: seq<Option<Id>>) returns (c: seq<Option<Id>>)
      requires IsChain(t, before) && tip in t && |resized| == t[tip].height + 1
      requires forall i :: 0 <= i < |resized| ==> resized[i] == if i < |before| then before[i] else None
      ensures c == Somes(Path(t, tip))
    {
      c := resized;
      ghost var path := Path(t, tip);
      var walk := Some(tip);
      ghost var h := |c|;
      while walk.Some? && c[t[walk.value].height] != walk
        invariant 0 <= h <= |c| == |path|
        invariant walk == if h == 0 then None else Some(path[h - 1])
        invariant forall i :: h <= i < |c| ==> c[i] == Some(path[i])
        invariant forall i :: 0 <= i < h ==> c[i] == resized[i]
        decreases h
      {
        c := c[t[walk.value].height := walk];
        PathStep(t, tip, h - 1);
        walk := t[walk.value].prev;
        h := h - 1;
      }
      if h > 0 {
        KeptPrefix(t, before, tip, h - 1);
        assert forall i :: 0 <= i < h ==> before[i] == before[..h][i] == Somes(path)[..h][i];
      }
    }

    /** `FindFork`: the last block the chain and a branch have in common. */
    method FindFork(t: Tree, b: Id) returns (r: Option<Id>)
      requires Skips(t) && IsChain(t, vChain) && b in t
      ensures
        var path := Path(t, b);
        var k := Common(Somes(path), vChain);
        r == if k == 0 then None else Some(path[k - 1])
    {
      hide FewSteps, Path, Common, Somes, SkipOk, IsChain;
      ghost var path := Path(t, b);
      var h := |vChain| - 1;
      r := Some(b);
      if t[b].height > h {
        var ancestor, _ := GetAncestor(t, b, h);
        r := ancestor;
      }
      ghost var top := if t[b].height > h then h else t[b].height;
      while r.Some? && !Contains(t, r.value)
        invariant -1 <= top <= t[b].height && top < |vChain|
        invariant r == if top < 0 then None else Some(path[top])
        invariant top + 1 < |path| && top + 1 < |vChain| ==> vChain[top + 1] != Some(path[top + 1])
        decreases top
      {
        PathStep(t, b, top);
        r := t[r.value].prev;
        top := top - 1;
      }
      if top >= 0 {
        KeptPrefix(t, vChain, b, top);
      }
      CommonIs(Somes(path), vChain, top + 1);
    }

    /** The ancestor at a height, by index when the chain has the block and by skip list otherwise. */
    method BackTo(t: Tree, ghost start: Id, b: Id, h: nat) returns (r: Option<Id>)
      requires Skips(t) && IsChain(t, vChain) && start in t && b in t
      requires t[b].height <= t[start].height && b == Path(t, start)[t[b].height] && h <= t[b].height
      ensures r == Some(Path(t, start)[h])
    {
      hide FewSteps;
      if Contains(t, b) {
        ChainAt(t, vChain, start, t[b].height, h);
        r := At(h);
      } else {
        PathPrefix(t, start, t[b].height);
        var ancestor, _ := GetAncestor(t, b, h);
        r := ancestor;
      }
    }

    /**
      `GetLocator`: blocks of one branch from `b` (or the tip) back to genesis,
      one by one at first and then in doubling steps.
     */
    method GetLocator(t: Tree, b: Option<Id>) returns (have: seq<Id>)
      requires Skips(t) && IsChain(t, vChain) && (b.Some? ==> b.value in t)
      ensures
        var start := if b.None? then Tip() else b;
        if start.None? then have == []
        else IsLocator(t, start.value, have)
    {
      hide Descending, Descent, StepAfter, Spaced;
      var step: nat := 1;
      have := [];
      var walk := b;
      if walk.None? {
        walk := Tip();
      }
      if walk.None? {
        return;
      }
      ghost var start := walk.value;
      LocatorStart(t, start);
      while walk.Some?
        invariant walk.Some? ==> walk.value in t && LocatorSoFar(t, start, have, walk.value, step)
        invariant walk.None? ==> IsLocator(t, start, have)
        decreases if walk.Some? then t[walk.value].height + 1 else 0
      {
        ghost var before, was := have, walk.value;
        var h := t[walk.value].height;
        have := have + [walk.value];
        if h == 0 {
          LocatorDone(t, start, before, was, step);
          break;
        }
        var next := if h - step > 0 then h - step else 0;
        LocatorNext(t, start, before, was, step, next);
        walk := BackTo(t, start, walk.value, next);
        if |have| > 10 {
          step := step * 2;
        }
      }
    }
  }

  // ---------------------------------------------------------------------------
  // Locators
  // ---------------------------------------------------------------------------

  /** Blocks of the branch of `b`, strictly going down from `b` itself. */
  ghost predicate Descending(t: Tree, b: Id, have: seq<Id>)
    requires Wf(t) && b in t
  {
    && (forall i :: 0 <= i < |have| ==> have[i] in t && t[have[i]].height <= t[b].height && have[i] == Path(t, b)[t[have[i]].height])
    && (forall i :: 0 < i < |have| ==> t[have[i]].height < t[have[i - 1]].height)
    && (have != [] ==> have[0] == b)
  }

  /** The height of entry `i + 1` below entry `i`: one lower for the first twelve entries, in doubling steps after them, and never below genesis. */
  ghost predicate SpacedAt(t: Tree, have: seq<Id>, i: nat) {
    && i + 1 < |have| && have[i] in t && have[i + 1] in t
    && var step := if i < 11 then 1 else Pow2(i - 10);
       t[have[i + 1]].height == if t[have[i]].height > step then t[have[i]].height - step else 0
  }

  ghost predicate Spaced(t: Tree, have: seq<Id>) {
    forall i :: 0 <= i < |have| - 1 ==> SpacedAt(t, have, i)
  }

  /** A complete locator ends at genesis, its entries are spaced as they should be, and it has at most 12 more than the height has bits. */
  ghost predicate IsLocator(t: Tree, b: Id, have: seq<Id>)
    requires Wf(t) && b in t
  {
    && have != [] && Descending(t, b, have) && Spaced(t, have)
    && t[have[|have| - 1]].height == 0
    && (|have| > 12 ==> Pow2(|have| - 12) < t[b].height)
  }

  /** The step taken after `n` entries. */
  function StepAfter(n: nat): nat {
    if n <= 10 then 1 else Pow2(n - 10)
  }

  /** A lower bound on how far down the branch the entry after `n` entries is. */
  function Descent(n: nat): nat {
    if n <= 11 then n else 9 + Pow2(n - 10)
  }

  ghost predicate LocatorSoFar(t: Tree, b: Id, have: seq<Id>, walk: Id, step: nat)
    requires Wf(t) && b in t && walk in t
  {
    && Descending(t, b, have) && Follows(t, b, have, walk) && Spaced(t, have + [walk])
    && step == StepAfter(|have|)
    && (t[walk].height == 0 || t[walk].height + Descent(|have|) == t[b].height)
    && (have != [] ==> t[have[|have| - 1]].height + Descent(|have| - 1) == t[b].height)
  }

  /** The block that may be added to a descending list. */
  ghost predicate Follows(t: Tree, b: Id, have: seq<Id>, walk: Id)
    requires Wf(t) && b in t && walk in t && Descending(t, b, have)
  {
    && t[walk].height <= t[b].height && walk == Path(t, b)[t[walk].height]
    && (if have == [] then walk == b else t[walk].height < t[have[|have| - 1]].height)
  }

  lemma DescendingExtend(t: Tree, b: Id, have: seq<Id>, walk: Id)
    requires Wf(t) && b in t && walk in t && Descending(t, b, have) && Follows(t, b, have, walk)
    ensures Descending(t, b, have + [walk])
  {
  }

  lemma LocatorStart(t: Tree, b: Id)
    requires Wf(t) && b in t
    ensures LocatorSoFar(t, b, [], b, 1)
  {
  }

  lemma LocatorDone(t: Tree, b: Id, have: seq<Id>, walk: Id, step: nat)
    requires Wf(t) && b in t && walk in t && LocatorSoFar(t, b, have, walk, step) && t[walk].height == 0
    ensures IsLocator(t, b, have + [walk])
  {
    DescendingExtend(t, b, have, walk);
  }

  lemma StepPositive(n: nat)
    ensures StepAfter(n) >= 1 && Descent(n + 1) == Descent(n) + StepAfter(n)
    ensures StepAfter(n + 1) == if n + 1 > 10 then StepAfter(n) * 2 else StepAfter(n)
  {
    if n == 10 {
      assert Pow2(1) == 2;
    } else if n == 11 {
      assert Pow2(2) == 2 * Pow2(1) == 4;
    }
  }

  lemma LocatorNext(t: Tree, b: Id, have: seq<Id>, walk: Id, step: nat, next: nat)
    requires Wf(t) && b in t && walk in t && LocatorSoFar(t, b, have, walk, step)
    requires t[walk].height > 0 && next == if t[walk].height - step > 0 then t[walk].height - step else 0
    ensures next <= t[b].height
    ensures LocatorSoFar(t, b, have + [walk], Path(t, b)[next], if |have| + 1 > 10 then step * 2 else step)
  {
    hide Pow2, Path;
    DescendingExtend(t, b, have, walk);
    StepPositive(|have|);
    SpacedNext(t, have + [walk], Path(t, b)[next]);
  }

  lemma SpacedNext(t: Tree, have: seq<Id>, next: Id)
    requires Spaced(t, have) && have != [] && have[|have| - 1] in t && next in t
    requires
      var h, step := t[have[|have| - 1]].height, StepAfter(|have| - 1);
      t[next].height == if h > step then h - step else 0
    ensures Spaced(t, have + [next])
  {
    hide Pow2;
    var longer := have + [next];
    forall i | 0 <= i < |longer| - 1
      ensures SpacedAt(t, longer, i)
    {
      if i < |have| - 1 {
        assert SpacedAt(t, have, i);
      }
    }
  }

  /** A chain that holds a block at its height holds the block's whole branch. */
  lemma KeptPrefix(t: Tree, c: seq<Option<Id>>, b: Id, h: nat)
    requires IsChain(t, c) && b in t && h <= t[b].height && h < |c|
    requires c[h] == Some(Path(t, b)[h])
    ensures c[..h + 1] == Somes(Path(t, b))[..h + 1]
  {
    var tip := c[|c| - 1].value;
    SharedPrefix(t, tip, b, h, h);
    assert Somes(Path(t, tip))[..h + 1] == Somes(Path(t, tip)[..h + 1]);
    assert Somes(Path(t, b))[..h + 1] == Somes(Path(t, b)[..h + 1]);
  }

  lemma ChainAt(t: Tree, c: seq<Option<Id>>, b: Id, h: nat, i: nat)
    requires IsChain(t, c) && b in t && h <= t[b].height && h < |c| && c[h] == Some(Path(t, b)[h]) && i <= h
    ensures c[i] == Some(Path(t, b)[i])
  {
    KeptPrefix(t, c, b, h);
    assert c[i] == c[..h + 1][i] == Somes(Path(t, b))[..h + 1][i];
  }

  /**
    `LastCommonAncestor`: both blocks are brought to the same height and then
    walked back together; they meet at the last block their branches share, at
    the latest at genesis.
   */
  method LastCommonAncestor(t: Tree, a: Id, b: Id) returns (r: Id)
    requires Skips(t) && a in t && b in t
    ensures Common(Path(t, a), Path(t, b)) > 0
    ensures r == Path(t, a)[Common(Path(t, a), Path(t, b)) - 1]
  {
    hide FewSteps;
    ghost var p, q := Path(t, a), Path(t, b);
    var x, y := Some(a), Some(b);
    if t[a].height > t[b].height {
      var ancestor, _ := GetAncestor(t, a, t[b].height);
      x := ancestor;
    } else if t[b].height > t[a].height {
      var ancestor, _ := GetAncestor(t, b, t[a].height);
      y := ancestor;
    }
    ghost var h := if t[a].height < t[b].height then t[a].height else t[b].height;
    PathRoot(t, a, b);
    while x != y && x.Some? && y.Some?
      invariant 0 <= h < |p| && h < |q|
      invariant x == Some(p[h]) && y == Some(q[h])
      invariant h + 1 < |p| && h + 1 < |q| ==> p[h + 1] != q[h + 1]
      decreases h
    {
      PathStep(t, a, h);
      PathStep(t, b, h);
      x, y := t[x.value].prev, t[y.value].prev;
      h := h - 1;
    }
    assert x == y;
    SharedPrefix(t, a, b, h, h);
    CommonIs(p, q, h + 1);
    r := x.value;
  }
}
