/** When a query leaves exact entries for every value it met, not only for the one it was asked about.

    A query keeps all entries exact when the uncached values that it can reach are clean: no two of them
    reach each other, and no neighbour of a value is reached from one listed after it.  Then later
    queries are exact as well.  That is sufficient, not necessary.  Two values on a cycle leave a partial
    entry if each contributes something that no other value does.  ClosingOrder and FreshQueries have the
    exact conditions, for every flow. */
module CacheOrder {
  import opened Collections
  import opened CacheWalk
  import opened MemoisedQuery

  // ---------------------------------------------------------------- closed after its neighbours

  /** A value that was closed after its neighbours has everything they have, and so on. */
  lemma {:induction false} EntryHasAll(f: Flow, c0: Cache, c: Cache, closed: map<Id, nat>, p: seq<Id>, s: Id)
    requires WellFormed(f) && Accounts(f, c0, c, closed) && NeighboursFirst(f, c0, closed)
    requires AllComplete(f, c0) && forall u :: u in c0 ==> u in c && c[u] == c0[u]
    requires IsPath(f, p) && p[0] in closed && s in f.own[p[|p| - 1]]
    ensures s in c[p[0]]
    decreases |p|
  {
    var v := p[0];
    if |p| == 1 {
      assert Entered(f, c0, c, closed, v, s);
    } else {
      var u, rest := p[1], p[1..];
      assert IsPath(f, rest);
      if u == v {
        EntryHasAll(f, c0, c, closed, rest, s);
      } else {
        assert Before(c0, closed, u, v);
        if u in c0 {
          assert Connects(f, rest, u, p[|p| - 1]);
          assert Reaches(f, u, p[|p| - 1]) && Exact(f, u, s);
        } else {
          EntryHasAll(f, c0, c, closed, rest, s);
        }
        assert Entered(f, c0, c, closed, v, s);
      }
    }
  }

  lemma OrderedIsComplete(f: Flow, c0: Cache, root: Id, c: Cache, closed: map<Id, nat>)
    requires WellFormed(f) && Extends(f, c0, root, c) && ClosedBy(f, c0, root, c, closed)
    requires AllComplete(f, c0) && NeighboursFirst(f, c0, closed)
    ensures AllComplete(f, c)
  {
    forall v, s | v in c && Exact(f, v, s)
      ensures s in c[v]
    {
      if v in c0 {
        assert Complete(f, c0, v);
      } else {
        var w :| Reaches(f, v, w) && w in f.own && s in f.own[w];
        var p :| Connects(f, p, v, w);
        EntryHasAll(f, c0, c, closed, p, s);
      }
    }
  }

  /** A query over a clean part of the graph leaves exact entries only, if it found such. */
  lemma CleanQueryIsComplete(f: Flow, c0: Cache, root: Id)
    requires WellFormed(f) && root in f.next && AllComplete(f, c0)
    requires root !in c0 ==> Clean(f, c0.Keys, root)
    ensures AllComplete(f, Query(f, c0, root))
  {
    if root !in c0 {
      QueryAnswered(f, c0, root);
      var c := Query(f, c0, root);
      var closed :| ClosedBy(f, c0, root, c, closed);
      OrderedIsComplete(f, c0, root, c, closed);
    }
  }

  // ---------------------------------------------------------------- contributions of their own

  /** s comes from v alone. */
  ghost predicate IsMark(f: Flow, v: Id, s: Id) {
    v in f.own && s in f.own[v] && forall w :: w in f.own && s in f.own[w] ==> w == v
  }

  ghost predicate HasMark(f: Flow, v: Id) {
    exists s :: IsMark(f, v, s)
  }

  /** Nothing that a cached value draws on is missing. */
  ghost predicate Saturated(f: Flow, c: Cache) {
    forall v, u :: v in c && v in f.next && u in f.next[v] ==> u in c
  }

  lemma QuerySaturates(f: Flow, c0: Cache, root: Id)
    requires WellFormed(f) && root in f.next && Saturated(f, c0)
    ensures Saturated(f, Query(f, c0, root))
  {
    QueryAnswered(f, c0, root);
    var c := Query(f, c0, root);
    forall v, u | v in c && v in f.next && u in f.next[v]
      ensures u in c
    {
      if v !in c0 && u !in c0 {
        ReachesThen(f, root, v, u, c0.Keys);
      }
    }
  }

  lemma {:induction false} CachedTogether(f: Flow, c0: Cache, p: seq<Id>)
    requires WellFormed(f) && Saturated(f, c0) && IsPath(f, p) && p[0] in c0
    ensures p[|p| - 1] in c0
    decreases |p|
  {
    if |p| > 1 {
      assert IsPath(f, p[1..]);
      CachedTogether(f, c0, p[1..]);
    }
  }

  /** The mark of u is in an entry only when u was closed before it, or is its key. */
  lemma {:induction false} MarkEntered(f: Flow, c0: Cache, c: Cache, closed: map<Id, nat>, v: Id, u: Id, s: Id)
    requires WellFormed(f) && Accounts(f, c0, c, closed) && Sound(f, c0) && Saturated(f, c0)
    requires forall x :: x in c0 ==> x in c && c[x] == c0[x]
    requires v in closed && IsMark(f, u, s) && u !in c0 && s in c[v]
    ensures u == v || Before(c0, closed, u, v)
    decreases closed[v]
  {
    assert Entered(f, c0, c, closed, v, s);
    if s !in f.own[v] {
      var x :| x in f.next[v] && x in c && Before(c0, closed, x, v) && s in c[x];
      if x in c0 {
        assert Exact(f, x, s);
        var w :| Reaches(f, x, w) && w in f.own && s in f.own[w];
        var p :| Connects(f, p, x, w);
        CachedTogether(f, c0, p);
      } else {
        MarkEntered(f, c0, c, closed, x, u, s);
      }
    }
  }

  /** So in exact entries everything that v reaches, and that contributes something of its own, was closed
      before v. */
  lemma MarkedBefore(f: Flow, c0: Cache, c: Cache, closed: map<Id, nat>, v: Id, u: Id)
    requires WellFormed(f) && Accounts(f, c0, c, closed) && Sound(f, c0) && Saturated(f, c0) && AllComplete(f, c)
    requires forall x :: x in c0 ==> x in c && c[x] == c0[x]
    requires v in closed && v in c && u != v && u !in c0 && HasMark(f, u) && Reaches(f, v, u)
    ensures Before(c0, closed, u, v)
  {
    var s :| IsMark(f, u, s);
    assert Exact(f, v, s) && Complete(f, c, v);
    MarkEntered(f, c0, c, closed, v, u, s);
  }

  lemma UncachedReach(f: Flow, cached: set<Id>, a: Id, b: Id)
    requires ReachesUncached(f, cached, a, b)
    ensures Reaches(f, a, b) && b !in cached
  {
    var p :| Connects(f, p, a, b) && Avoids(p, cached);
    assert p[|p| - 1] !in cached;
  }

  /** A cycle leaves a partial entry if two values on it each contribute something of their own. */
  lemma CycleIsPartial(f: Flow, c0: Cache, root: Id, a: Id, b: Id)
    requires WellFormed(f) && root in f.next && root !in c0 && a != b
    requires HasMark(f, a) && HasMark(f, b) && Sound(f, c0) && Saturated(f, c0)
    requires ReachesUncached(f, c0.Keys, root, a)
    requires ReachesUncached(f, c0.Keys, a, b) && ReachesUncached(f, c0.Keys, b, a)
    ensures !AllComplete(f, Query(f, c0, root))
  {
    QueryAnswered(f, c0, root);
    var c := Query(f, c0, root);
    var closed :| ClosedBy(f, c0, root, c, closed);
    ReachesTrans(f, root, a, b, c0.Keys);
    UncachedReach(f, c0.Keys, a, b);
    UncachedReach(f, c0.Keys, b, a);
    if AllComplete(f, c) {
      MarkedBefore(f, c0, c, closed, a, b);
      MarkedBefore(f, c0, c, closed, b, a);
    }
  }

  // ---------------------------------------------------------------- a sequence of queries

  /** The caches before and after each of a sequence of queries. */
  ghost predicate History(f: Flow, roots: seq<Id>, cs: seq<Cache>)
    requires WellFormed(f)
  {
    && |cs| == |roots| + 1
    && forall i :: 0 <= i < |roots| ==> Asks(f, cs[i], roots[i], cs[i + 1])
  }

  ghost predicate Asks(f: Flow, c0: Cache, root: Id, c: Cache)
    requires WellFormed(f)
  {
    root in f.next && c == Query(f, c0, root)
  }

  /** Over any sequence of queries, cyclic or not, an entry is written once and never changes. */
  lemma {:induction false} WrittenOnce(f: Flow, roots: seq<Id>, cs: seq<Cache>, i: nat, j: nat)
    requires WellFormed(f) && History(f, roots, cs) && i <= j < |cs|
    ensures forall v :: v in cs[i] ==> v in cs[j] && cs[j][v] == cs[i][v]
    decreases j
  {
    if i < j {
      assert Asks(f, cs[j - 1], roots[j - 1], cs[j]);
      QueryAnswered(f, cs[j - 1], roots[j - 1]);
      WrittenOnce(f, roots, cs, i, j - 1);
    }
  }

  /** Over any sequence of queries every entry holds only contributions of values that its key
      reaches. */
  lemma {:induction false} AlwaysSound(f: Flow, roots: seq<Id>, cs: seq<Cache>, j: nat)
    requires WellFormed(f) && History(f, roots, cs) && j < |cs| && Sound(f, cs[0])
    ensures Sound(f, cs[j])
  {
    if j > 0 {
      AlwaysSound(f, roots, cs, j - 1);
      assert Asks(f, cs[j - 1], roots[j - 1], cs[j]);
      QueryAnswered(f, cs[j - 1], roots[j - 1]);
      ExtendsKeepsSound(f, cs[j - 1], roots[j - 1], cs[j]);
    }
  }

  /** Over any sequence of queries from an empty cache nothing is missing that a cached value draws on. */
  lemma {:induction false} AlwaysSaturated(f: Flow, roots: seq<Id>, cs: seq<Cache>, j: nat)
    requires WellFormed(f) && History(f, roots, cs) && j < |cs| && cs[0] == map[]
    ensures Saturated(f, cs[j])
  {
    if j > 0 {
      AlwaysSaturated(f, roots, cs, j - 1);
      assert Asks(f, cs[j - 1], roots[j - 1], cs[j]);
      QuerySaturates(f, cs[j - 1], roots[j - 1]);
    }
  }

  /** So a query that meets such a cycle leaves a partial entry, whatever was asked before. */
  lemma CycleIsAlwaysPartial(f: Flow, roots: seq<Id>, cs: seq<Cache>, i: nat, a: Id, b: Id)
    requires WellFormed(f) && History(f, roots, cs) && i < |roots| && cs[0] == map[]
    requires roots[i] !in cs[i] && a != b && HasMark(f, a) && HasMark(f, b)
    requires ReachesUncached(f, cs[i].Keys, roots[i], a)
    requires ReachesUncached(f, cs[i].Keys, a, b) && ReachesUncached(f, cs[i].Keys, b, a)
    ensures !AllComplete(f, cs[i + 1])
  {
    AlwaysSound(f, roots, cs, i);
    AlwaysSaturated(f, roots, cs, i);
    assert Asks(f, cs[i], roots[i], cs[i + 1]);
    CycleIsPartial(f, cs[i], roots[i], a, b);
  }

  /** Queries over clean parts of the graph keep every entry exact. */
  lemma {:induction false} StaysExact(f: Flow, roots: seq<Id>, cs: seq<Cache>, j: nat)
    requires WellFormed(f) && History(f, roots, cs) && j < |cs| && AllComplete(f, cs[0])
    requires forall i :: 0 <= i < j && roots[i] !in cs[i] ==> Clean(f, cs[i].Keys, roots[i])
    ensures AllComplete(f, cs[j])
    decreases j
  {
    if j > 0 {
      StaysExact(f, roots, cs, j - 1);
      assert Asks(f, cs[j - 1], roots[j - 1], cs[j]);
      CleanQueryIsComplete(f, cs[j - 1], roots[j - 1]);
    }
  }

  /** So each of them is answered exactly. */
  lemma AlwaysExact(f: Flow, roots: seq<Id>, cs: seq<Cache>, i: nat)
    requires WellFormed(f) && History(f, roots, cs) && i < |roots| && Sound(f, cs[0]) && AllComplete(f, cs[0])
    requires forall k :: 0 <= k <= i && roots[k] !in cs[k] ==> Clean(f, cs[k].Keys, roots[k])
    ensures roots[i] in cs[i + 1] && forall s :: s in cs[i + 1][roots[i]] <==> Exact(f, roots[i], s)
  {
    AlwaysSound(f, roots, cs, i);
    StaysExact(f, roots, cs, i);
    assert Asks(f, cs[i], roots[i], cs[i + 1]);
    QueryAnswered(f, cs[i], roots[i]);
    AnsweredExactly(f, cs[i], roots[i], cs[i + 1]);
  }

  /** A part of the graph that is clean stays so, whatever is cached. */
  lemma CleanStays(f: Flow, cached: set<Id>, root: Id)
    requires Clean(f, {}, root)
    ensures Clean(f, cached, root)
  {
    forall a, b | ReachesUncached(f, cached, a, b)
      ensures ReachesUncached(f, {}, a, b)
    {
      var p :| Connects(f, p, a, b) && Avoids(p, cached);
      assert Avoids(p, {});
    }
    forall a, u, x | ReachesUncached(f, cached, root, a) && a in f.next && u != x && x != a && Precedes(f.next[a], u, x)
      ensures !ReachesUncached(f, cached, x, u)
    {
      assert ReachesUncached(f, {}, root, a);
      assert !ReachesUncached(f, {}, x, u);
    }
  }

  ghost predicate CleanEverywhere(f: Flow) {
    forall v :: v in f.next ==> Clean(f, {}, v)
  }

  /** So on a graph that is clean everywhere every sequence of queries is answered exactly. */
  lemma CleanGraphIsExact(f: Flow, roots: seq<Id>, cs: seq<Cache>, i: nat)
    requires WellFormed(f) && History(f, roots, cs) && cs[0] == map[] && i < |roots|
    requires CleanEverywhere(f)
    ensures roots[i] in cs[i + 1] && forall s :: s in cs[i + 1][roots[i]] <==> Exact(f, roots[i], s)
  {
    forall k | 0 <= k <= i
      ensures Clean(f, cs[k].Keys, roots[k])
    {
      assert Asks(f, cs[k], roots[k], cs[k + 1]);
      CleanStays(f, cs[k].Keys, roots[k]);
    }
    AlwaysExact(f, roots, cs, i);
  }
}
