/** The order in which a walk closes values, and what it decides.

    The order follows from the edges and the cached keys alone, not from what values contribute.  All
    entries that a query leaves are exact if and only if every contribution that a value reaches is its
    own or was reached by a neighbour that closed before it.  This holds of every flow. */
module ClosingOrder {
  import opened Collections
  import opened CacheWalk
  import opened WalkInvariant
  import opened MemoisedQuery

  // ---------------------------------------------------------------- the order

  /** The values that a walk closes from a state on, one after the other. */
  ghost function Closings(f: Flow, s: State): seq<Id>
    requires Runs(f, s)
    decreases States(f) - s.visited, |s.stack|
  {
    if s.stack == [] then [] else
    TurnRuns(f, s);
    ClosedNow(s) + Closings(f, Turn(f, s))
  }

  /** The value that the next turn closes, if it closes one. */
  ghost function ClosedNow(s: State): seq<Id>
    requires s.stack != []
  {
    var top := s.stack[|s.stack| - 1];
    if top !in s.visited && top.1 then [top.0] else []
  }

  /** The values that a query closes. */
  ghost function Order(f: Flow, c0: Cache, root: Id): seq<Id>
    requires WellFormed(f) && root in f.next
  {
    if root in c0 then [] else Closings(f, State(c0, {}, [(root, false)]))
  }

  ghost function Positions(order: seq<Id>): map<Id, nat> {
    map v | v in order :: FirstIndex(order, v)
  }

  /** The numbers after some more values were closed. */
  ghost predicate Continues(before: map<Id, nat>, order: seq<Id>, after: map<Id, nat>) {
    && (forall v :: v in after <==> v in before || v in order)
    && (forall v :: v in before ==> after[v] == before[v])
    && (forall v :: v in order && v !in before ==> after[v] == |before| + FirstIndex(order, v))
  }

  lemma ContinuesClosing(before: map<Id, nat>, v: Id, order: seq<Id>, after: map<Id, nat>)
    requires v !in before && Continues(before[v := |before|], order, after)
    ensures Continues(before, [v] + order, after)
  {
    assert before[v := |before|].Keys == before.Keys + {v};
    assert |before[v := |before|]| == |before| + 1;
    forall x | x in [v] + order && x !in before
      ensures after[x] == |before| + FirstIndex([v] + order, x)
    {
      if x == v {
        FirstIndexAt([v] + order, 0);
      } else {
        assert ([v] + order)[1..] == order;
      }
    }
  }

  lemma {:induction false} ClosingsNumber(f: Flow, c0: Cache, root: Id, w: Walk) returns (closed: map<Id, nat>)
    requires Inv(f, c0, root, w)
    ensures Runs(f, StateOf(w)) && ClosedBy(f, c0, root, Run(f, StateOf(w)), closed)
    ensures Continues(w.closed, Closings(f, StateOf(w)), closed)
    decreases |States(f) - w.visited|, |w.stack|
  {
    InvRuns(f, c0, root, w);
    if w.stack == [] {
      ConcludedOrder(f, c0, root, w);
      closed := w.closed;
    } else {
      var w' := Turned(f, c0, root, w);
      TurnShrinks(f, StateOf(w), StateOf(w'));
      closed := ClosingsNumber(f, c0, root, w');
      var top := w.stack[|w.stack| - 1];
      if top !in w.visited && top.1 { NotClosedYet(f, c0, root, w, top.0); }
      NumberedTurn(w, w', Closings(f, StateOf(w')), closed);
    }
  }

  lemma NumberedTurn(w: Walk, w': Walk, order: seq<Id>, closed: map<Id, nat>)
    requires w.stack != [] && Numbers(w, w') && Continues(w'.closed, order, closed)
    requires var top := w.stack[|w.stack| - 1]; top !in w.visited && top.1 ==> top.0 !in w.closed
    ensures Continues(w.closed, ClosedNow(StateOf(w)) + order, closed)
  {
    var top := w.stack[|w.stack| - 1];
    if top !in w.visited && top.1 {
      ContinuesClosing(w.closed, top.0, order, closed);
    } else {
      assert ClosedNow(StateOf(w)) + order == order;
    }
  }

  lemma OnlyPositions(order: seq<Id>, closed: map<Id, nat>)
    requires Continues(map[], order, closed)
    ensures closed == Positions(order)
  {}

  lemma NotClosedYet(f: Flow, c0: Cache, root: Id, w: Walk, v: Id)
    requires Inv(f, c0, root, w) && v !in w.cache
    ensures v !in w.closed
  {}

  /** A query closes its values in its order. */
  lemma OrderCloses(f: Flow, c0: Cache, root: Id)
    requires WellFormed(f) && root in f.next && root !in c0
    ensures ClosedBy(f, c0, root, Query(f, c0, root), Positions(Order(f, c0, root)))
  {
    Started(f, c0, root);
    var closed := ClosingsNumber(f, c0, root, Beginning(c0, root));
    OnlyPositions(Order(f, c0, root), closed);
  }

  // ---------------------------------------------------------------- what the order depends on

  /** The same edges, with other contributions. */
  ghost predicate SameEdges(f: Flow, g: Flow) {
    WellFormed(f) && WellFormed(g) && f.next == g.next
  }

  ghost predicate SameShape(s: State, t: State) {
    s.cache.Keys == t.cache.Keys && s.visited == t.visited && s.stack == t.stack
  }

  lemma {:induction false} PushAllByKeys(stack: seq<Entry>, c: Cache, d: Cache, next: seq<Id>)
    requires c.Keys == d.Keys
    ensures PushAll(stack, c, next) == PushAll(stack, d, next)
    decreases |next|
  {
    if next != [] {
      PushAllByKeys(stack, c, d, next[..|next| - 1]);
      assert next[|next| - 1] in c.Keys <==> next[|next| - 1] in d.Keys;
    }
  }

  lemma TurnByEdges(f: Flow, g: Flow, s: State, t: State)
    requires SameEdges(f, g) && SameShape(s, t) && Runs(f, s) && s.stack != []
    ensures Runs(g, t) && SameShape(Turn(f, s), Turn(g, t))
  {
    var top, rest := s.stack[|s.stack| - 1], s.stack[..|s.stack| - 1];
    if top !in s.visited {
      if top.1 {
        KeysMore(s.cache, t.cache, top.0,
                 Gathered(s.cache, f.own[top.0], f.next[top.0]), Gathered(t.cache, g.own[top.0], g.next[top.0]));
      } else {
        SameKeys(s.cache, t.cache, top.0);
        var pushed := if top.0 in s.cache then rest else Push(rest, (top.0, true));
        PushAllByKeys(pushed, s.cache, t.cache, f.next[top.0]);
      }
    }
  }

  lemma SameKeys(c: Cache, d: Cache, v: Id)
    requires c.Keys == d.Keys
    ensures v in c <==> v in d
  {
    assert v in c.Keys <==> v in d.Keys;
  }

  lemma KeysMore(c: Cache, d: Cache, v: Id, x: set<Id>, y: set<Id>)
    requires c.Keys == d.Keys
    ensures c[v := x].Keys == d[v := y].Keys
  {}

  lemma {:induction false} ClosingsByEdges(f: Flow, g: Flow, s: State, t: State)
    requires SameEdges(f, g) && SameShape(s, t) && Runs(f, s)
    ensures Runs(g, t) && Closings(f, s) == Closings(g, t)
    decreases |States(f) - s.visited|, |s.stack|
  {
    if s.stack != [] {
      TurnByEdges(f, g, s, t);
      TurnShrinks(f, s, Turn(f, s));
      ClosingsByEdges(f, g, Turn(f, s), Turn(g, t));
    }
  }

  /** The order depends on the edges and on which values are cached, on nothing else. */
  lemma OrderByEdges(f: Flow, g: Flow, c0: Cache, d0: Cache, root: Id)
    requires SameEdges(f, g) && root in f.next && c0.Keys == d0.Keys
    ensures Order(f, c0, root) == Order(g, d0, root)
  {
    assert root in c0.Keys <==> root in d0.Keys;
    if root !in c0 {
      ClosingsByEdges(f, g, State(c0, {}, [(root, false)]), State(d0, {}, [(root, false)]));
    }
  }

  // ---------------------------------------------------------------- what the order decides

  /** v contributes s itself, or a neighbour that was there before it reaches s. */
  ghost predicate HandedOn(f: Flow, c0: Cache, closed: map<Id, nat>, v: Id, s: Id)
    requires WellFormed(f) && v in f.next && v in closed
  {
    s in f.own[v] || exists u :: u in f.next[v] && Before(c0, closed, u, v) && Exact(f, u, s)
  }

  /** Every value was handed on all that it reaches. */
  ghost predicate HandsOn(f: Flow, c0: Cache, closed: map<Id, nat>)
    requires WellFormed(f)
  {
    forall v, s {:trigger HandedOn(f, c0, closed, v, s)} ::
      v in closed && v in f.next && Exact(f, v, s) ==> HandedOn(f, c0, closed, v, s)
  }

  lemma {:induction false} HandedIsEntered(f: Flow, c0: Cache, c: Cache, closed: map<Id, nat>, v: Id, s: Id)
    requires WellFormed(f) && Accounts(f, c0, c, closed) && HandsOn(f, c0, closed) && AllComplete(f, c0)
    requires forall x :: x in c0 ==> x in c && c[x] == c0[x]
    requires v in closed && Exact(f, v, s)
    ensures s in c[v]
    decreases closed[v]
  {
    assert HandedOn(f, c0, closed, v, s);
    if s !in f.own[v] {
      var u :| u in f.next[v] && Before(c0, closed, u, v) && Exact(f, u, s);
      if u in c0 {
        assert Complete(f, c0, u);
      } else {
        HandedIsEntered(f, c0, c, closed, u, s);
      }
    }
    assert Entered(f, c0, c, closed, v, s);
  }

  lemma EnteredIsHanded(f: Flow, c0: Cache, c: Cache, closed: map<Id, nat>, v: Id, s: Id)
    requires WellFormed(f) && Accounts(f, c0, c, closed) && Sound(f, c)
    requires v in closed && v in c && s in c[v]
    ensures HandedOn(f, c0, closed, v, s)
  {
    assert Entered(f, c0, c, closed, v, s);
  }

  /** From exact entries a query leaves exact entries only, if and only if every value that it closed was
      handed on all that it reaches. */
  lemma CompleteIffHandsOn(f: Flow, c0: Cache, root: Id, closed: map<Id, nat>)
    requires WellFormed(f) && root in f.next && ClosedBy(f, c0, root, Query(f, c0, root), closed)
    requires Sound(f, c0) && AllComplete(f, c0)
    ensures AllComplete(f, Query(f, c0, root)) <==> HandsOn(f, c0, closed)
  {
    QueryAnswered(f, c0, root);
    var c := Query(f, c0, root);
    ExtendsKeepsSound(f, c0, root, c);
    if HandsOn(f, c0, closed) {
      forall v, s | v in c && Exact(f, v, s)
        ensures s in c[v]
      {
        if v in c0 {
          assert Complete(f, c0, v);
        } else {
          HandedIsEntered(f, c0, c, closed, v, s);
        }
      }
    }
    if AllComplete(f, c) {
      forall v, s | v in closed && v in f.next && Exact(f, v, s)
        ensures HandedOn(f, c0, closed, v, s)
      {
        assert Complete(f, c, v);
        EnteredIsHanded(f, c0, c, closed, v, s);
      }
    }
  }

  /** The condition in terms of the query's order, which a caller can find from the edges. */
  ghost predicate OrderHandsOn(f: Flow, c0: Cache, root: Id)
    requires WellFormed(f) && root in f.next
  {
    HandsOn(f, c0, Positions(Order(f, c0, root)))
  }

  lemma QueryCompleteIff(f: Flow, c0: Cache, root: Id)
    requires WellFormed(f) && root in f.next && root !in c0 && Sound(f, c0) && AllComplete(f, c0)
    ensures AllComplete(f, Query(f, c0, root)) <==> OrderHandsOn(f, c0, root)
  {
    OrderCloses(f, c0, root);
    CompleteIffHandsOn(f, c0, root, Positions(Order(f, c0, root)));
  }
}
