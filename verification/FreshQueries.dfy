/** Queries on caches that earlier queries left, against the same queries on empty caches.

    What is cached draws on cached values only, so a walk beside a cache goes through the uncached values
    just as the walk without it does.  Where a query on an empty cache leaves exact entries only, so it
    does on any cache with exact entries.  Hence all sequences of queries are answered exactly if and only
    if each query alone, on an empty cache, leaves exact entries only, and that is decided by its order of
    closing.  This holds of every flow.

    A predicate that matches on a datatype with one constructor is unfolded by the solver only where
    its parts are needed. */
module FreshQueries {
  import opened Collections
  import opened CacheWalk
  import opened WalkInvariant
  import opened MemoisedQuery
  import opened CacheOrder
  import opened ClosingOrder

  // ---------------------------------------------------------------- the list without cached values

  /** The entries whose values are not cached. */
  ghost function Uncached(stack: seq<Entry>, cached: set<Id>): (r: seq<Entry>)
    ensures forall e :: e in r <==> e in stack && e.0 !in cached
  {
    if stack == [] then [] else
    var n := |stack| - 1;
    assert stack == stack[..n] + [stack[n]];
    Uncached(stack[..n], cached) + if stack[n].0 in cached then [] else [stack[n]]
  }

  lemma UncachedPush(stack: seq<Entry>, e: Entry, cached: set<Id>)
    ensures Uncached(Push(stack, e), cached) ==
      if e.0 in cached then Uncached(stack, cached) else Push(Uncached(stack, cached), e)
  {
    if e !in stack { assert (stack + [e])[..|stack|] == stack; }
  }

  /** Pushing neighbours beside a cache: the cached ones are left out, the others pushed alike. */
  lemma {:induction false} UncachedPushAll(stack: seq<Entry>, c: Cache, d: Cache, next: seq<Id>, cached: set<Id>)
    requires AgreeOutside(c, d, cached)
    ensures Uncached(PushAll(stack, c, next), cached) == PushAll(Uncached(stack, cached), d, next)
    decreases |next|
  {
    if next != [] {
      var n := |next| - 1;
      UncachedPushAll(stack, c, d, next[..n], cached);
      UncachedPush(PushAll(stack, c, next[..n]), (next[n], false), cached);
    }
  }

  /** The keys of d are the cached values and, outside them, those of c. */
  ghost predicate AgreeOutside(c: Cache, d: Cache, cached: set<Id>) {
    && (forall v :: v !in cached ==> (v in c <==> v in d))
    && (forall v :: v in cached ==> v in d)
  }

  lemma {:induction false} NothingToPush(stack: seq<Entry>, c: Cache, next: seq<Id>, cached: set<Id>)
    requires forall u :: u in next ==> u in cached
    ensures Uncached(PushAll(stack, c, next), cached) == Uncached(stack, cached)
    decreases |next|
  {
    if next != [] {
      var n := |next| - 1;
      NothingToPush(stack, c, next[..n], cached);
      UncachedPush(PushAll(stack, c, next[..n]), (next[n], false), cached);
    }
  }

  // ---------------------------------------------------------------- two walks side by side

  /** The walk at t, which began on the cache c0, is where the walk at s, which began on an empty one, is
      when the values of c0 are left out; its entries hold no less. */
  ghost predicate Beside(f: Flow, c0: Cache, s: State, t: State) {
    match s
    case State(c, visited, stack) =>
      && Runs(f, s) && Runs(f, t)
      && t.stack == Uncached(stack, c0.Keys)
      && (forall e: Entry :: e.0 !in c0 ==> (e in visited <==> e in t.visited))
      && AgreeOutside(c, t.cache, c0.Keys)
      && NoLess(c, c0, t.cache)
  }

  ghost predicate NoLess(c: Cache, c0: Cache, d: Cache) {
    && (forall v :: v in c0 ==> v in d && d[v] == c0[v])
    && (forall v :: v in c && v in d ==> c[v] <= d[v])
  }

  /** What the cache of earlier queries is like. */
  ghost predicate Settled(f: Flow, c0: Cache) {
    match f
    case Flow(_, _) => WellFormed(f) && Sound(f, c0) && AllComplete(f, c0) && Saturated(f, c0)
  }

  /** A cached value has what its neighbours have. */
  lemma GatheredWithin(f: Flow, c0: Cache, c: Cache, d: Cache, v: Id)
    requires Settled(f, c0) && NoLess(c, c0, d) && v in c0 && v in f.next
    ensures Gathered(c, f.own[v], f.next[v]) <= c0[v]
  {
    forall s | s in Gathered(c, f.own[v], f.next[v])
      ensures s in c0[v]
    {
      ReachesSelf(f, v, {});
      if s !in f.own[v] {
        var u :| u in f.next[v] && u in c && s in c[u];
        assert u in c0 && s in c0[u] && Exact(f, u, s);
        var w :| Reaches(f, u, w) && w in f.own && s in f.own[w];
        ThenReaches(f, v, u, w, {});
      } else {
        assert Reaches(f, v, v) && Exact(f, v, s);
      }
      assert Complete(f, c0, v);
    }
  }

  lemma GatheredMore(f: Flow, c0: Cache, c: Cache, d: Cache, v: Id)
    requires WellFormed(f) && v in f.next && NoLess(c, c0, d) && AgreeOutside(c, d, c0.Keys)
    ensures Gathered(c, f.own[v], f.next[v]) <= Gathered(d, f.own[v], f.next[v])
  {}

  lemma CachedTurnStack(f: Flow, c0: Cache, s: State)
    requires Runs(f, s) && Saturated(f, c0) && s.stack != [] && s.stack[|s.stack| - 1].0 in c0
    ensures Uncached(Turn(f, s).stack, c0.Keys) == Uncached(s.stack, c0.Keys)
  {
    var top, rest := s.stack[|s.stack| - 1], s.stack[..|s.stack| - 1];
    if top !in s.visited && !top.1 {
      var pushed := if top.0 in s.cache then rest else Push(rest, (top.0, true));
      UncachedPush(rest, (top.0, true), c0.Keys);
      NothingToPush(pushed, s.cache, f.next[top.0], c0.Keys);
    }
  }

  lemma CachedTurnCache(f: Flow, c0: Cache, s: State, d: Cache)
    requires Runs(f, s) && Settled(f, c0) && s.stack != [] && s.stack[|s.stack| - 1].0 in c0
    requires AgreeOutside(s.cache, d, c0.Keys) && NoLess(s.cache, c0, d)
    ensures AgreeOutside(Turn(f, s).cache, d, c0.Keys) && NoLess(Turn(f, s).cache, c0, d)
  {
    GatheredWithin(f, c0, s.cache, d, s.stack[|s.stack| - 1].0);
  }

  /** A turn for a cached value is one that the walk beside the cache does not take. */
  lemma CachedTurn(f: Flow, c0: Cache, s: State, t: State)
    requires Settled(f, c0) && Beside(f, c0, s, t) && s.stack != [] && s.stack[|s.stack| - 1].0 in c0
    ensures Beside(f, c0, Turn(f, s), t)
  {
    BesideParts(f, c0, s, t);
    TurnRuns(f, s);
    CachedTurnStack(f, c0, s);
    CachedTurnCache(f, c0, s, t.cache);
  }

  lemma SharedTurnStack(f: Flow, c0: Cache, s: State, t: State)
    requires Runs(f, s) && Runs(f, t) && s.stack != [] && s.stack[|s.stack| - 1].0 !in c0
    requires t.stack == Uncached(s.stack, c0.Keys) && AgreeOutside(s.cache, t.cache, c0.Keys)
    requires s.stack[|s.stack| - 1] in s.visited <==> s.stack[|s.stack| - 1] in t.visited
    ensures t.stack != [] && Turn(f, t).stack == Uncached(Turn(f, s).stack, c0.Keys)
  {
    var top, rest := s.stack[|s.stack| - 1], s.stack[..|s.stack| - 1];
    TopShared(s.stack, t.stack, c0.Keys);
    if top !in s.visited && !top.1 {
      var pushed := if top.0 in s.cache then rest else Push(rest, (top.0, true));
      UncachedPush(rest, (top.0, true), c0.Keys);
      UncachedPushAll(pushed, s.cache, t.cache, f.next[top.0], c0.Keys);
    }
  }

  lemma SharedTurnCache(f: Flow, c0: Cache, s: State, t: State)
    requires Runs(f, s) && Runs(f, t) && s.stack != [] && s.stack[|s.stack| - 1].0 !in c0
    requires t.stack != [] && t.stack[|t.stack| - 1] == s.stack[|s.stack| - 1]
    requires AgreeOutside(s.cache, t.cache, c0.Keys) && NoLess(s.cache, c0, t.cache)
    requires s.stack[|s.stack| - 1] in s.visited <==> s.stack[|s.stack| - 1] in t.visited
    ensures AgreeOutside(Turn(f, s).cache, Turn(f, t).cache, c0.Keys)
    ensures NoLess(Turn(f, s).cache, c0, Turn(f, t).cache)
  {
    GatheredMore(f, c0, s.cache, t.cache, s.stack[|s.stack| - 1].0);
  }

  /** Every other turn both walks take. */
  lemma SharedTurn(f: Flow, c0: Cache, s: State, t: State)
    requires Beside(f, c0, s, t) && s.stack != [] && s.stack[|s.stack| - 1].0 !in c0
    ensures t.stack != [] && Beside(f, c0, Turn(f, s), Turn(f, t))
  {
    BesideParts(f, c0, s, t);
    TopShared(s.stack, t.stack, c0.Keys);
    TurnRuns(f, s);
    TurnRuns(f, t);
    SharedTurnStack(f, c0, s, t);
    SharedTurnCache(f, c0, s, t);
  }

  lemma TopShared(stack: seq<Entry>, other: seq<Entry>, cached: set<Id>)
    requires stack != [] && stack[|stack| - 1].0 !in cached && other == Uncached(stack, cached)
    ensures other != [] && other[|other| - 1] == stack[|stack| - 1]
    ensures other[..|other| - 1] == Uncached(stack[..|stack| - 1], cached)
  {}

  /** In the end the walk beside the cache has entries for the same values outside it, which hold no
      less. */
  lemma {:induction false} BesideRuns(f: Flow, c0: Cache, s: State, t: State)
    requires Settled(f, c0) && Beside(f, c0, s, t)
    ensures Runs(f, s) && Runs(f, t)
    ensures AgreeOutside(Run(f, s), Run(f, t), c0.Keys) && NoLess(Run(f, s), c0, Run(f, t))
    decreases |States(f) - s.visited|, |s.stack|
  {
    BesideParts(f, c0, s, t);
    if s.stack != [] {
      TurnShrinks(f, s, Turn(f, s));
      if s.stack[|s.stack| - 1].0 in c0 {
        CachedTurn(f, c0, s, t);
        BesideRuns(f, c0, Turn(f, s), t);
      } else {
        SharedTurn(f, c0, s, t);
        TurnShrinks(f, t, Turn(f, t));
        BesideRuns(f, c0, Turn(f, s), Turn(f, t));
      }
    }
  }

  lemma BesideParts(f: Flow, c0: Cache, s: State, t: State)
    requires Beside(f, c0, s, t)
    ensures Runs(f, s) && Runs(f, t) && t.stack == Uncached(s.stack, c0.Keys)
    ensures AgreeOutside(s.cache, t.cache, c0.Keys) && NoLess(s.cache, c0, t.cache)
  {}

  // ---------------------------------------------------------------- one query

  /** The query for v on an empty cache leaves exact entries only. */
  ghost predicate LeavesExact(f: Flow, v: Id)
    requires WellFormed(f) && v in f.next
  {
    match f
    case Flow(_, _) => AllComplete(f, Query(f, map[], v))
  }

  /** If the query leaves exact entries only on an empty cache, it does on every settled one. */
  lemma FreshDecides(f: Flow, c0: Cache, root: Id)
    requires Settled(f, c0) && root in f.next && LeavesExact(f, root)
    ensures Settled(f, Query(f, c0, root))
  {
    QueryAnswered(f, c0, root);
    QuerySaturates(f, c0, root);
    ExtendsKeepsSound(f, c0, root, Query(f, c0, root));
    if root !in c0 { FreshIsNoMore(f, c0, root); }
  }

  lemma FreshIsNoMore(f: Flow, c0: Cache, root: Id)
    requires Settled(f, c0) && root in f.next && root !in c0 && LeavesExact(f, root)
    ensures AllComplete(f, Query(f, c0, root))
  {
    var s, t := State(map[], {}, [(root, false)]), State(c0, {}, [(root, false)]);
    assert Uncached(s.stack, c0.Keys) == t.stack by { assert s.stack[..0] == []; }
    assert Beside(f, c0, s, t);
    BesideRuns(f, c0, s, t);
    var c, d := Query(f, map[], root), Query(f, c0, root);
    QueryAnswered(f, c0, root);
    forall v, x | v in d && Exact(f, v, x)
      ensures x in d[v]
    {
      if v in c0 {
        assert Complete(f, c0, v);
      } else {
        assert v in c && Complete(f, c, v) && c[v] <= d[v];
      }
    }
  }

  // ---------------------------------------------------------------- sequences of queries

  /** A sequence of queries each of which alone leaves exact entries only. */
  lemma {:induction false} StaysSettled(f: Flow, roots: seq<Id>, cs: seq<Cache>, j: nat)
    requires WellFormed(f) && History(f, roots, cs) && j < |cs| && cs[0] == map[]
    requires forall i :: 0 <= i < j ==> roots[i] in f.next && LeavesExact(f, roots[i])
    ensures Settled(f, cs[j])
    decreases j
  {
    if j > 0 {
      StaysSettled(f, roots, cs, j - 1);
      assert Asks(f, cs[j - 1], roots[j - 1], cs[j]);
      FreshDecides(f, cs[j - 1], roots[j - 1]);
    }
  }

  /** A partial entry after a sequence of queries is due to a query that leaves one on an empty cache. */
  lemma PartialIsFresh(f: Flow, roots: seq<Id>, cs: seq<Cache>, j: nat) returns (i: nat)
    requires WellFormed(f) && History(f, roots, cs) && j < |cs| && cs[0] == map[] && !AllComplete(f, cs[j])
    ensures i < j && roots[i] in f.next && !LeavesExact(f, roots[i])
  {
    forall k | 0 <= k < j
      ensures roots[k] in f.next
    {
      assert Asks(f, cs[k], roots[k], cs[k + 1]);
    }
    if forall k :: 0 <= k < j ==> LeavesExact(f, roots[k]) {
      StaysSettled(f, roots, cs, j);
      assert false;
    }
    i :| 0 <= i < j && !LeavesExact(f, roots[i]);
  }

  /** Whether every query of every sequence, started on an empty cache, is answered exactly. */
  ghost predicate AnswersExactly(f: Flow)
    requires WellFormed(f)
  {
    match f
    case Flow(_, _) =>
      forall roots, cs, i :: History(f, roots, cs) && cs[0] == map[] && 0 <= i < |roots| ==>
        ExactFor(f, roots[i], cs[i + 1])
  }

  ghost predicate ExactFor(f: Flow, root: Id, c: Cache) {
    root in c && forall s :: s in c[root] <==> Exact(f, root, s)
  }

  /** A partial entry is what a second query for its key returns. */
  lemma ExactAnswersComplete(f: Flow, v: Id)
    requires WellFormed(f) && AnswersExactly(f) && v in f.next
    ensures LeavesExact(f, v)
  {
    var c := Query(f, map[], v);
    forall u | u in c
      ensures Complete(f, c, u)
    {
      AsksAgain(f, v, u);
      assert ExactFor(f, [v, u][1], [map[], c, c][2]);
    }
  }

  lemma AsksAgain(f: Flow, v: Id, u: Id)
    requires WellFormed(f) && v in f.next && u in Query(f, map[], v)
    ensures var c := Query(f, map[], v); History(f, [v, u], [map[], c, c])
  {
    var c := Query(f, map[], v);
    QueryAnswered(f, map[], v);
    assert u in f.next && Query(f, c, u) == c;
    var roots, cs := [v, u], [map[], c, c];
    forall i | 0 <= i < |roots|
      ensures Asks(f, cs[i], roots[i], cs[i + 1])
    {}
  }

  /** All sequences of queries are answered exactly if and only if each query alone leaves exact entries
      only. */
  lemma AnswersExactlyIffFresh(f: Flow)
    requires WellFormed(f)
    ensures AnswersExactly(f) <==> forall v :: v in f.next ==> LeavesExact(f, v)
  {
    if AnswersExactly(f) {
      forall v | v in f.next
        ensures LeavesExact(f, v)
      {
        ExactAnswersComplete(f, v);
      }
    }
    if forall v :: v in f.next ==> LeavesExact(f, v) {
      forall roots, cs, i | History(f, roots, cs) && cs[0] == map[] && 0 <= i < |roots|
        ensures ExactFor(f, roots[i], cs[i + 1])
      {
        FreshSequence(f, roots, cs, i);
      }
    }
  }

  lemma FreshSequence(f: Flow, roots: seq<Id>, cs: seq<Cache>, i: nat)
    requires WellFormed(f) && History(f, roots, cs) && i < |roots| && cs[0] == map[]
    requires forall v :: v in f.next ==> LeavesExact(f, v)
    ensures ExactFor(f, roots[i], cs[i + 1])
  {
    forall k | 0 <= k <= i
      ensures roots[k] in f.next
    {
      assert Asks(f, cs[k], roots[k], cs[k + 1]);
    }
    StaysSettled(f, roots, cs, i);
    assert Asks(f, cs[i], roots[i], cs[i + 1]);
    QueryAnswered(f, cs[i], roots[i]);
    AnsweredExactly(f, cs[i], roots[i], cs[i + 1]);
  }

  /** That is decided by the order in which each query alone closes values, which follows from the
      edges. */
  lemma AnswersExactlyIffHandsOn(f: Flow)
    requires WellFormed(f)
    ensures AnswersExactly(f) <==> forall v :: v in f.next ==> OrderHandsOn(f, map[], v)
  {
    AnswersExactlyIffFresh(f);
    forall v | v in f.next
      ensures LeavesExact(f, v) <==> OrderHandsOn(f, map[], v)
    {
      FreshCompleteIff(f, v);
    }
  }

  lemma FreshCompleteIff(f: Flow, v: Id)
    requires WellFormed(f) && v in f.next
    ensures LeavesExact(f, v) <==> OrderHandsOn(f, map[], v)
  {
    QueryCompleteIff(f, map[], v);
  }
}
