/** What an unclean graph does.

    A neighbour that contributes something of its own, as an allocation does, and that is reached from one
    listed after it leaves a partial entry.  Where every value contributes something of its own, or for all
    choices of what values contribute, the sequences of queries are all answered exactly if and only if
    the whole graph is clean.  A graph whose values contribute less may be unclean and answered exactly
    nevertheless; FreshQueries has the exact condition.

    A predicate that matches on a datatype with one constructor is unfolded by the solver only where
    its parts are needed. */
module CleanGraphs {
  import opened Collections
  import opened CacheWalk
  import opened WalkInvariant
  import opened MemoisedQuery
  import opened CacheOrder
  import opened ClosingOrder
  import opened FreshQueries

  // ---------------------------------------------------------------- the order of the root's neighbours

  /** x still waits above position k, to be opened or to be closed, among the entries that the root pushed. */
  ghost predicate StillAbove(w: Walk, k: nat, x: Id) {
    exists m :: AboveAt(w, k, m, x)
  }

  ghost predicate OpenAt(w: Walk, k: nat, u: Id) {
    k < |w.stack| && NearestBelow(w.stack, 0, k) && w.stack[k] == (u, false)
  }

  /** The root lists u before x: x is closed first. */
  ghost predicate RootOrder(w: Walk, u: Id, x: Id) {
    match w
    case Walk(_, _, stack, rank, _, closed) =>
      && (u in closed ==> x in closed && closed[x] < closed[u])
      && (u in rank ==> x in closed)
      && (u !in rank ==> exists k :: OpenAt(w, k, u) && (x in closed || StillAbove(w, k, x)))
  }

  /** Only the top of the list changes. */
  ghost predicate SameBelow(w: Walk, w': Walk) {
    && w.stack != [] && |w.stack| - 1 <= |w'.stack|
    && forall k :: 0 <= k < |w.stack| - 1 ==> w'.stack[k] == w.stack[k]
  }

  lemma OpenStays(w: Walk, w': Walk, k: nat, u: Id)
    requires OpenAt(w, k, u) && SameBelow(w, w') && k < |w.stack| - 1
    ensures OpenAt(w', k, u)
  {}

  ghost predicate AboveAt(w: Walk, k: nat, m: nat, x: Id) {
    k < m < |w.stack| && NearestBelow(w.stack, 0, m) && w.stack[m].0 == x && (w.stack[m].1 || x !in w.rank)
  }

  lemma AboveStays(w: Walk, w': Walk, k: nat, m: nat, x: Id)
    requires AboveAt(w, k, m, x) && SameBelow(w, w') && m < |w.stack| - 1
    requires x in w'.rank ==> x in w.rank || w.stack[m].1
    ensures StillAbove(w', k, x)
  {
    assert NearestBelow(w'.stack, 0, m);
    assert AboveAt(w', k, m, x);
  }

  /** What a turn leaves below the top, as far as it matters here. */
  lemma TurnBelow(f: Flow, w: Walk, w': Walk)
    requires Runs(f, StateOf(w)) && w.stack != [] && StateOf(w') == Turn(f, StateOf(w))
    requires var top := w.stack[|w.stack| - 1];
      top !in w.visited && !top.1 ==> top.0 !in w.cache && (top.0, true) !in w.stack[..|w.stack| - 1]
    ensures SameBelow(w, w')
    ensures var n := |w.stack| - 1; var top := w.stack[n];
      if top !in w.visited && !top.1 then |w'.stack| > n && w'.stack[n] == (top.0, true) else |w'.stack| == n
  {
    var n := |w.stack| - 1;
    var top := w.stack[n];
    if top !in w.visited && !top.1 {
      var waiting := w.stack[..n] + [(top.0, true)];
      PushAllFits(waiting, w.cache, f.next[top.0]);
      forall k | 0 <= k <= n
        ensures w'.stack[k] == waiting[k]
      {}
    }
  }

  lemma OrderSkipped(f: Flow, w: Walk, w': Walk, u: Id, x: Id)
    requires RootOrder(w, u, x) && w.stack != [] && SameBelow(w, w') && Numbers(w, w')
    requires var top := w.stack[|w.stack| - 1]; top in w.visited && !top.1 && top.0 in w.rank
    ensures RootOrder(w', u, x)
  {
    if u !in w.rank {
      var k :| OpenAt(w, k, u) && (x in w.closed || StillAbove(w, k, x));
      OpenStays(w, w', k, u);
      if x !in w.closed {
        var m :| AboveAt(w, k, m, x);
        AboveStays(w, w', k, m, x);
      }
    }
  }

  lemma OrderClosed(f: Flow, w: Walk, w': Walk, u: Id, x: Id)
    requires RootOrder(w, u, x) && w.stack != [] && SameBelow(w, w') && Numbers(w, w')
    requires var top := w.stack[|w.stack| - 1]; top !in w.visited && top.1 && top.0 in w.rank && top.0 !in w.closed
    requires forall v :: v in w.closed ==> w.closed[v] < |w.closed|
    ensures RootOrder(w', u, x)
  {
    if u !in w.rank {
      var k :| OpenAt(w, k, u) && (x in w.closed || StillAbove(w, k, x));
      OpenStays(w, w', k, u);
      if x !in w.closed && x != w.stack[|w.stack| - 1].0 {
        var m :| AboveAt(w, k, m, x);
        AboveStays(w, w', k, m, x);
      }
    }
  }

  lemma OrderOpened(f: Flow, w: Walk, w': Walk, u: Id, x: Id)
    requires RootOrder(w, u, x) && w.stack != [] && SameBelow(w, w') && Numbers(w, w') && Distinct(w.stack)
    requires var n := |w.stack| - 1; var top := w.stack[n];
      top !in w.visited && !top.1 && top.0 !in w.rank && |w'.stack| > n && w'.stack[n] == (top.0, true)
    ensures RootOrder(w', u, x)
  {
    var n := |w.stack| - 1;
    var y := w.stack[n].0;
    assert w.stack[n] == (y, false);
    if u !in w.rank {
      var k :| OpenAt(w, k, u) && (x in w.closed || StillAbove(w, k, x));
      if y == u {
        assert k == n;
      } else {
        OpenStays(w, w', k, u);
        if x !in w.closed {
          var m :| AboveAt(w, k, m, x);
          if m == n {
            assert AboveAt(w', k, n, x);
          } else {
            AboveStays(w, w', k, m, x);
          }
        }
      }
    }
  }

  lemma OrderTurned(f: Flow, c0: Cache, root: Id, w: Walk, w': Walk, u: Id, x: Id)
    requires Inv(f, c0, root, w) && w.stack != [] && Runs(f, StateOf(w)) && StateOf(w') == Turn(f, StateOf(w))
    requires Numbers(w, w') && RootOrder(w, u, x)
    ensures RootOrder(w', u, x)
  {
    var top := w.stack[|w.stack| - 1];
    assert top == (top.0, top.1);
    InvShape(f, c0, root, w);
    InvNumbers(f, c0, root, w);
    if top !in w.visited && !top.1 {
      NotWaiting(f, c0, w);
      TurnBelow(f, w, w');
      OrderOpened(f, w, w', u, x);
    } else {
      TurnBelow(f, w, w');
      if top in w.visited {
        SkippedShape(f, c0, w);
        OrderSkipped(f, w, w', u, x);
      } else {
        OrderClosed(f, w, w', u, x);
      }
    }
  }

  lemma InvNumbers(f: Flow, c0: Cache, root: Id, w: Walk)
    requires Inv(f, c0, root, w)
    ensures forall v :: v in w.closed <==> v in w.rank && v in w.cache
    ensures forall v :: v in w.closed ==> w.closed[v] < |w.closed|
    ensures forall v :: (v, false) in w.visited <==> v in w.rank
    ensures forall k :: 0 <= k < |w.stack| && w.stack[k].1 ==> w.stack[k].0 in w.rank && w.stack[k].0 !in w.cache
  {}

  lemma RootOrderTurned(f: Flow, c0: Cache, root: Id, w: Walk, u: Id, x: Id) returns (w': Walk)
    requires Inv(f, c0, root, w) && w.stack != [] && RootOrder(w, u, x)
    ensures Runs(f, StateOf(w)) && StateOf(w') == Turn(f, StateOf(w)) && Inv(f, c0, root, w') && RootOrder(w', u, x)
  {
    w' := Turned(f, c0, root, w);
    OrderTurned(f, c0, root, w, w', u, x);
  }

  /** The walk closes x before u. */
  lemma {:induction false} RootOrderKept(f: Flow, c0: Cache, root: Id, w: Walk, u: Id, x: Id)
    returns (closed: map<Id, nat>)
    requires Inv(f, c0, root, w) && RootOrder(w, u, x)
    ensures Runs(f, StateOf(w)) && ClosedBy(f, c0, root, Run(f, StateOf(w)), closed)
    ensures u in closed ==> x in closed && closed[x] < closed[u]
    decreases |States(f) - w.visited|, |w.stack|
  {
    InvRuns(f, c0, root, w);
    if w.stack == [] {
      ConcludedOrder(f, c0, root, w);
      closed := w.closed;
    } else {
      var w' := RootOrderTurned(f, c0, root, w, u, x);
      TurnShrinks(f, StateOf(w), StateOf(w'));
      closed := RootOrderKept(f, c0, root, w', u, x);
    }
  }

  lemma RootPushes(c0: Cache, root: Id, next: seq<Id>, u: Id, x: Id) returns (k: nat, m: nat)
    requires Precedes(next, u, x) && u != x && u !in c0 && x !in c0 && x in next
    ensures var r := PushAll([(root, true)], c0, next);
      && 0 < k < m < |r| && r[0] == (root, true) && r[k] == (u, false) && r[m] == (x, false)
      && forall i :: 0 < i < |r| ==> !r[i].1
  {
    var below: seq<Entry> := [(root, true)];
    PushAllFits(below, c0, next);
    var r := PushAll(below, c0, next);
    assert r[0] == (root, true);
    k :| 0 <= k < |r| && r[k] == (u, false);
    m :| 0 <= m < |r| && r[m] == (x, false);
  }

  /** After the first turn both wait above the root, u below x. */
  lemma RootOrderStarts(f: Flow, c0: Cache, root: Id, w: Walk, w': Walk, u: Id, x: Id)
    requires WellFormed(f) && root in f.next && root !in c0 && w == Beginning(c0, root)
    requires Runs(f, StateOf(w)) && StateOf(w') == Turn(f, StateOf(w)) && Numbers(w, w')
    requires Precedes(f.next[root], u, x) && u != x && u != root && x != root && u !in c0 && x !in c0
    ensures RootOrder(w', u, x)
  {
    assert w.stack[..0] + [(root, true)] == [(root, true)];
    var k, m := RootPushes(c0, root, f.next[root], u, x);
    assert OpenAt(w', k, u) && AboveAt(w', k, m, x);
  }

  /** A query for a value with a neighbour u that is reached from one listed later leaves a partial entry
      if u contributes something of its own, as an allocation does. */
  lemma LaterReachesEarlier(f: Flow, c0: Cache, root: Id, u: Id, x: Id)
    requires WellFormed(f) && root in f.next && root !in c0
    requires HasMark(f, u) && Sound(f, c0) && Saturated(f, c0)
    requires Precedes(f.next[root], u, x) && u != x && u != root && x != root && u !in c0 && x !in c0
    requires Reaches(f, x, u)
    ensures !AllComplete(f, Query(f, c0, root))
  {
    var w := Beginning(c0, root);
    Started(f, c0, root);
    var w' := Turned(f, c0, root, w);
    RootOrderStarts(f, c0, root, w, w', u, x);
    var closed := RootOrderKept(f, c0, root, w', u, x);
    TurnRuns(f, StateOf(w));
    QueryAnswered(f, c0, root);
    var c := Query(f, c0, root);
    ReachesSelf(f, root, c0.Keys);
    ReachesThen(f, root, root, u, c0.Keys);
    ReachesThen(f, root, root, x, c0.Keys);
    assert ClosedBy(f, c0, root, c, closed);
    if AllComplete(f, c) { MarkedBefore(f, c0, c, closed, x, u); }
  }

  /** So it does whatever was asked before. */
  lemma LaterAlwaysReachesEarlier(f: Flow, roots: seq<Id>, cs: seq<Cache>, i: nat, u: Id, x: Id)
    requires WellFormed(f) && History(f, roots, cs) && i < |roots| && cs[0] == map[]
    requires roots[i] in f.next && roots[i] !in cs[i] && HasMark(f, u)
    requires Precedes(f.next[roots[i]], u, x) && u != x && u != roots[i] && x != roots[i]
    requires u !in cs[i] && x !in cs[i] && Reaches(f, x, u)
    ensures !AllComplete(f, cs[i + 1])
  {
    AlwaysSound(f, roots, cs, i);
    AlwaysSaturated(f, roots, cs, i);
    assert Asks(f, cs[i], roots[i], cs[i + 1]);
    LaterReachesEarlier(f, cs[i], roots[i], u, x);
  }

  // ---------------------------------------------------------------- flows in which every value contributes

  /** Every value contributes something of its own.  Few walks of the program are like that: a phi has
      no allocation of its own. */
  ghost predicate Marked(f: Flow) {
    forall v :: v in f.own ==> HasMark(f, v)
  }

  /** Where every value contributes something of its own, every query on an empty cache leaves exact
      entries if and only if the graph is clean everywhere. */
  lemma FreshQueriesExactIffClean(f: Flow)
    requires WellFormed(f) && Marked(f)
    ensures (forall v :: v in f.next ==> LeavesExact(f, v)) <==> CleanEverywhere(f)
  {
    if CleanEverywhere(f) {
      forall v | v in f.next
        ensures LeavesExact(f, v)
      {
        FreshIsComplete(f, v);
      }
    }
    if forall v :: v in f.next ==> LeavesExact(f, v) {
      forall v | v in f.next
        ensures Clean(f, {}, v)
      {
        FreshIsClean(f, v);
      }
    }
  }

  lemma FreshIsComplete(f: Flow, v: Id)
    requires WellFormed(f) && v in f.next && Clean(f, {}, v)
    ensures AllComplete(f, Query(f, map[], v))
  {
    var c0: Cache := map[];
    assert c0.Keys == {};
    CleanQueryIsComplete(f, c0, v);
  }

  lemma FreshIsClean(f: Flow, v: Id)
    requires WellFormed(f) && Marked(f) && v in f.next
    requires forall r :: r in f.next ==> LeavesExact(f, r)
    ensures Clean(f, {}, v)
  {
    var c0: Cache := map[];
    forall a, b | a != b && ReachesUncached(f, {}, v, a) && ReachesUncached(f, {}, a, b)
      ensures !ReachesUncached(f, {}, b, a)
    {
      if ReachesUncached(f, {}, b, a) { CycleIsPartial(f, c0, v, a, b); }
    }
    forall a, u, x | ReachesUncached(f, {}, v, a) && a in f.next && u != x && x != a && Precedes(f.next[a], u, x)
      ensures !ReachesUncached(f, {}, x, u)
    {
      if ReachesUncached(f, {}, x, u) {
        if u == a {
          ReachesSelf(f, a, {});
          ReachesThen(f, a, a, x, {});
          CycleIsPartial(f, c0, a, a, x);
        } else {
          UncachedReach(f, {}, x, u);
          LaterReachesEarlier(f, c0, a, u, x);
        }
      }
    }
  }

  /** Where every value contributes something of its own, all sequences of queries are answered exactly if
      and only if the graph is clean everywhere. */
  lemma AnswersExactlyIffClean(f: Flow)
    requires WellFormed(f) && Marked(f)
    ensures AnswersExactly(f) <==> CleanEverywhere(f)
  {
    AnswersExactlyIffFresh(f);
    FreshQueriesExactIffClean(f);
  }

  lemma CleanIsExact(f: Flow)
    requires WellFormed(f) && CleanEverywhere(f)
    ensures AnswersExactly(f)
  {
    forall roots, cs, i | History(f, roots, cs) && cs[0] == map[] && 0 <= i < |roots|
      ensures ExactFor(f, roots[i], cs[i + 1])
    {
      CleanGraphIsExact(f, roots, cs, i);
    }
  }

  lemma CleanBySame(f: Flow, g: Flow)
    requires SameEdges(f, g) && CleanEverywhere(f)
    ensures CleanEverywhere(g)
  {
    forall a, b | ReachesUncached(g, {}, a, b)
      ensures ReachesUncached(f, {}, a, b)
    {
      var p :| Connects(g, p, a, b) && Avoids(p, {});
      assert Connects(f, p, a, b);
    }
    forall v | v in g.next
      ensures Clean(g, {}, v)
    {
      assert Clean(f, {}, v);
    }
  }

  /** On a graph all queries are answered exactly, whatever its values contribute, if and only if it is
      clean everywhere. */
  lemma AnswersExactlyWhateverIffClean(f: Flow)
    requires WellFormed(f)
    ensures (forall g :: SameEdges(f, g) ==> AnswersExactly(g)) <==> CleanEverywhere(f)
  {
    if CleanEverywhere(f) {
      forall g | SameEdges(f, g)
        ensures AnswersExactly(g)
      {
        CleanBySame(f, g);
        CleanIsExact(g);
      }
    }
    if forall g :: SameEdges(f, g) ==> AnswersExactly(g) {
      var g := EachItself(f);
      AnswersExactlyIffClean(g);
      CleanBySame(g, f);
    }
  }

  /** Every value contributes itself. */
  ghost function EachItself(f: Flow): (g: Flow)
    requires WellFormed(f)
    ensures SameEdges(f, g) && Marked(g)
  {
    var g := Flow(map v | v in f.own :: {v}, f.next);
    assert forall v :: v in g.own ==> IsMark(g, v, v);
    g
  }
}
