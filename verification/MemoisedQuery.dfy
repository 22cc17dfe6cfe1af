/** A query as a whole: a turn of its loop keeps the invariant, and the end of the loop leaves the answer.

    A predicate that matches on a datatype with one constructor is unfolded by the solver only where
    its parts are needed. */
module MemoisedQuery {
  import opened Collections
  import opened CacheWalk
  import opened WalkInvariant

  // ---------------------------------------------------------------- one iteration

  /** What a turn does to the numbers of opening and closing. */
  ghost predicate Numbers(w: Walk, w': Walk)
    requires w.stack != []
  {
    var top := w.stack[|w.stack| - 1];
    if top in w.visited then w'.rank == w.rank && w'.closed == w.closed
    else if top.1 then w'.rank == w.rank && w'.closed == w.closed[top.0 := |w.closed|]
    else w'.rank == w.rank[top.0 := |w.rank|] && w'.closed == w.closed
  }

  /** One turn of the loop keeps the invariant. */
  lemma Turned(f: Flow, c0: Cache, root: Id, w: Walk) returns (w': Walk)
    requires Inv(f, c0, root, w) && w.stack != []
    ensures Runs(f, StateOf(w)) && StateOf(w') == Turn(f, StateOf(w)) && Inv(f, c0, root, w') && Numbers(w, w')
    ensures var top := w.stack[|w.stack| - 1];
      top !in w.visited ==>
        if top.1 then top.0 !in w.cache && top.0 in w'.cache && w'.cache == w.cache[top.0 := w'.cache[top.0]]
        else w'.cache == w.cache
  {
    var top := w.stack[|w.stack| - 1];
    InvRuns(f, c0, root, w);
    if top in w.visited {
      w' := Popped(w);
      Skipped(f, c0, root, w);
    } else if top.1 {
      w' := TurnedClosing(f, c0, root, w, top.0);
    } else {
      w' := TurnedOpening(f, c0, root, w, top.0);
    }
  }

  lemma InvRuns(f: Flow, c0: Cache, root: Id, w: Walk)
    requires Inv(f, c0, root, w)
    ensures Runs(f, StateOf(w))
  {}

  lemma TurnedClosing(f: Flow, c0: Cache, root: Id, w: Walk, v: Id) returns (w': Walk)
    requires Inv(f, c0, root, w) && Runs(f, StateOf(w))
    requires w.stack != [] && w.stack[|w.stack| - 1] == (v, true) && (v, true) !in w.visited
    ensures StateOf(w') == Turn(f, StateOf(w)) && Inv(f, c0, root, w')
    ensures v !in w.cache && v in w'.cache && w'.cache == w.cache[v := w'.cache[v]] && Numbers(w, w')
  {
    var t := Turn(f, StateOf(w));
    w' := Walk(t.cache, t.visited, t.stack, w.rank, w.parent, w.closed[v := |w.closed|]);
    Closed(f, c0, root, w, v, w');
  }

  lemma TurnedOpening(f: Flow, c0: Cache, root: Id, w: Walk, v: Id) returns (w': Walk)
    requires Inv(f, c0, root, w) && Runs(f, StateOf(w))
    requires w.stack != [] && w.stack[|w.stack| - 1] == (v, false) && (v, false) !in w.visited
    ensures StateOf(w') == Turn(f, StateOf(w)) && Inv(f, c0, root, w') && w'.cache == w.cache && Numbers(w, w')
  {
    var t := Turn(f, StateOf(w));
    var p := HasParent(f, c0, root, w);
    w' := Walk(t.cache, t.visited, t.stack, w.rank[v := |w.rank|], w.parent[v := p], w.closed);
    InvShape(f, c0, root, w);
    NotWaiting(f, c0, w);
    TurnOpens(f, w, v, p, w');
    Opened(f, c0, root, w, v, p, w');
  }

  lemma TurnOpens(f: Flow, w: Walk, v: Id, p: Id, w': Walk)
    requires Runs(f, StateOf(w)) && Distinct(w.stack)
    requires w.stack != [] && w.stack[|w.stack| - 1] == (v, false) && (v, false) !in w.visited
    requires v !in w.cache && (v, true) !in w.stack[..|w.stack| - 1]
    requires StateOf(w') == Turn(f, StateOf(w)) && w'.closed == w.closed
    requires w'.rank == w.rank[v := |w.rank|] && w'.parent == w.parent[v := p]
    ensures Opens(f, w, v, p, w')
  {
    var waiting := w.stack[..|w.stack| - 1] + [(v, true)];
    PushAllFits(waiting, w.cache, f.next[v]);
    PushAllDistinct(waiting, w.cache, f.next[v]);
  }

  lemma InvShape(f: Flow, c0: Cache, root: Id, w: Walk)
    requires Inv(f, c0, root, w)
    ensures Shape(f, c0, w) && Distinct(w.stack)
  {}

  /** A value about to be opened does not wait to be closed. */
  lemma NotWaiting(f: Flow, c0: Cache, w: Walk)
    requires Shape(f, c0, w) && w.stack != [] && !w.stack[|w.stack| - 1].1 && w.stack[|w.stack| - 1] !in w.visited
    ensures (w.stack[|w.stack| - 1].0, true) !in w.stack[..|w.stack| - 1]
    ensures w.stack[|w.stack| - 1].0 !in w.cache
  {
    var v := w.stack[|w.stack| - 1].0;
    assert w.stack[|w.stack| - 1] == (v, false) && v !in w.rank;
  }

  // ---------------------------------------------------------------- the end of a walk

  /** When the worklist is empty every opened value is closed and its answer is in the root's. */
  lemma {:induction false} RootHasAll(f: Flow, c0: Cache, root: Id, w: Walk, v: Id)
    requires Inv(f, c0, root, w) && w.stack == [] && v in w.rank
    ensures root in w.cache && v in w.cache && w.cache[v] <= w.cache[root]
    decreases w.rank[v]
  {
    if v != root {
      assert Child(f, w, v);
      RootHasAll(f, c0, root, w, w.parent[v]);
    }
  }

  /** Every value the query can reach through uncached values was opened. */
  lemma {:induction false} AllOpened(f: Flow, c0: Cache, root: Id, w: Walk, p: seq<Id>)
    requires Closure(f, c0, w) && w.stack == [] && root in w.rank
    requires IsPath(f, p) && Avoids(p, c0.Keys) && p[0] == root
    ensures p[|p| - 1] in w.rank
    decreases |p|
  {
    if |p| > 1 {
      var q := p[..|p| - 1];
      AllOpened(f, c0, root, w, q);
      assert q[|q| - 1] == p[|p| - 2];
    }
  }

  /** At the end of a walk every value that it reaches is cached, the root's entry is exactly the answer
      to the query, and every entry added is justified. */
  lemma Finished(f: Flow, c0: Cache, root: Id, w: Walk)
    requires Inv(f, c0, root, w) && w.stack == []
    ensures root in w.cache && forall v :: ReachesUncached(f, c0.Keys, root, v) ==> v in w.cache
    ensures forall s :: s in w.cache[root] <==> Answer(f, c0, root, s)
    ensures Extends(f, c0, root, w.cache)
  {
    assert root in w.rank;
    forall v | ReachesUncached(f, c0.Keys, root, v)
      ensures v in w.cache
    {
      var p :| Connects(f, p, root, v) && Avoids(p, c0.Keys);
      AllOpened(f, c0, root, w, p);
      RootHasAll(f, c0, root, w, v);
    }
    forall s | Answer(f, c0, root, s)
      ensures s in w.cache[root]
    {
      var b :| ReachesUncached(f, c0.Keys, root, b) && b in f.next && Supplies(f, c0, b, s);
      var p :| Connects(f, p, root, b) && Avoids(p, c0.Keys);
      AllOpened(f, c0, root, w, p);
      RootHasAll(f, c0, root, w, b);
    }
  }

  lemma Concluded(f: Flow, c0: Cache, root: Id, w: Walk)
    requires Inv(f, c0, root, w) && w.stack == []
    ensures Answered(f, c0, root, w.cache) && ClosedBy(f, c0, root, w.cache, w.closed)
    ensures Sound(f, c0) ==> Sound(f, w.cache)
  {
    Finished(f, c0, root, w);
    ConcludedOrder(f, c0, root, w);
    if Sound(f, c0) {
      ExtendsKeepsSound(f, c0, root, w.cache);
    }
  }

  lemma ConcludedOrder(f: Flow, c0: Cache, root: Id, w: Walk)
    requires Inv(f, c0, root, w)
    ensures ClosedBy(f, c0, root, w.cache, w.closed)
  {}

  lemma AlreadyAnswered(f: Flow, c0: Cache, root: Id)
    requires WellFormed(f) && root in c0
    ensures Answered(f, c0, root, c0)
  {
    assert ClosedBy(f, c0, root, c0, map[]);
  }

  // ---------------------------------------------------------------- the whole query

  lemma {:induction false} RunAnswered(f: Flow, c0: Cache, root: Id, w: Walk)
    requires Inv(f, c0, root, w)
    ensures Runs(f, StateOf(w)) && Answered(f, c0, root, Run(f, StateOf(w)))
    decreases |States(f) - w.visited|, |w.stack|
  {
    InvRuns(f, c0, root, w);
    if w.stack == [] {
      Concluded(f, c0, root, w);
    } else {
      var w' := Turned(f, c0, root, w);
      TurnShrinks(f, StateOf(w), StateOf(w'));
      RunAnswered(f, c0, root, w');
    }
  }

  /** Whatever the cache held, a query leaves the answer to it. */
  lemma QueryAnswered(f: Flow, c0: Cache, root: Id)
    requires WellFormed(f) && root in f.next
    ensures Answered(f, c0, root, Query(f, c0, root))
  {
    if root in c0 {
      AlreadyAnswered(f, c0, root);
    } else {
      Started(f, c0, root);
      RunAnswered(f, c0, root, Beginning(c0, root));
    }
  }

  // ---------------------------------------------------------------- the loop of a query

  /** A loop that asks for root on the cache c0 has come to the state s. */
  ghost predicate Walking(f: Flow, c0: Cache, root: Id, w: Walk, s: State) {
    match s
    case State(_, _, _) =>
      && Inv(f, c0, root, w) && StateOf(w) == s
      && Runs(f, s) && Run(f, s) == Query(f, c0, root)
  }

  lemma Starts(f: Flow, c0: Cache, root: Id) returns (w: Walk)
    requires WellFormed(f) && root in f.next && root !in c0
    ensures Walking(f, c0, root, w, State(c0, {}, [(root, false)]))
  {
    w := Beginning(c0, root);
    Started(f, c0, root);
  }

  lemma TopIsValue(f: Flow, c0: Cache, root: Id, w: Walk, s: State)
    requires Walking(f, c0, root, w, s) && s.stack != []
    ensures s.stack[|s.stack| - 1].0 in f.next && s.stack[|s.stack| - 1].0 in f.own
  {}

  lemma GoesOnWalking(f: Flow, c0: Cache, root: Id, w: Walk, s: State) returns (w': Walk)
    requires Walking(f, c0, root, w, s) && s.stack != []
    ensures Runs(f, s) && Walking(f, c0, root, w', Turn(f, s))
    ensures var top, t := s.stack[|s.stack| - 1], Turn(f, s);
      if top in s.visited then t.cache == s.cache && t.visited == s.visited && |t.stack| < |s.stack|
      else States(f) - t.visited < States(f) - s.visited
           && if top.1 then top.0 !in s.cache && top.0 in t.cache && t.cache == s.cache[top.0 := t.cache[top.0]]
              else t.cache == s.cache
  {
    w' := Turned(f, c0, root, w);
    TurnRuns(f, s);
  }

  lemma StillSound(f: Flow, c0: Cache, root: Id, w: Walk, s: State)
    requires Walking(f, c0, root, w, s) && Sound(f, c0)
    ensures Sound(f, s.cache)
  {
    StaysSound(f, c0, root, w);
  }

  /** When the list is empty the cache is that of the whole query, and the answer is in it. */
  lemma Walked(f: Flow, c0: Cache, root: Id, w: Walk, s: State)
    requires Walking(f, c0, root, w, s) && s.stack == []
    ensures WellFormed(f) && root in f.next && s.cache == Query(f, c0, root) && Answered(f, c0, root, s.cache)
    ensures Sound(f, c0) ==> Sound(f, s.cache)
  {
    Concluded(f, c0, root, w);
  }

  /** One iteration of a walk: pop an entry and, unless it was processed before, open or close its
      value.  own and next are the contribution and the neighbours of that value. */
  method TakeTurn(ghost f: Flow, c: Cache, visited: set<Entry>, stack: seq<Entry>, own: set<Id>, next: seq<Id>)
    returns (c': Cache, visited': set<Entry>, stack': seq<Entry>)
    requires Runs(f, State(c, visited, stack)) && stack != []
    requires var v := stack[|stack| - 1].0; v in f.own && v in f.next && own == f.own[v] && next == f.next[v]
    ensures State(c', visited', stack') == Turn(f, State(c, visited, stack))
  {
    c', visited' := c, visited;
    var top := stack[|stack| - 1];
    stack' := stack[..|stack| - 1];
    if top in visited { return; }
    var cur, canUpdate := top.0, top.1;
    visited' := visited + {top};
    if canUpdate {
      var sources := Gather(c, own, next);
      c' := c[cur := sources];
    } else {
      if cur !in c {
        stack' := Push(stack', (cur, true));
      }
      stack' := PushUncached(stack', c, next);
    }
  }

  /** It keeps the loop's invariant, and marks an entry or shortens the list. */
  method Step(ghost f: Flow, ghost c0: Cache, ghost root: Id, ghost w: Walk,
              c: Cache, visited: set<Entry>, stack: seq<Entry>, own: set<Id>, next: seq<Id>)
    returns (c': Cache, visited': set<Entry>, stack': seq<Entry>, ghost w': Walk)
    requires Walking(f, c0, root, w, State(c, visited, stack)) && stack != []
    requires var v := stack[|stack| - 1].0; v in f.own && v in f.next && own == f.own[v] && next == f.next[v]
    ensures Walking(f, c0, root, w', State(c', visited', stack'))
    ensures var top := stack[|stack| - 1];
      if top in visited then c' == c && visited' == visited && |stack'| < |stack|
      else States(f) - visited' < States(f) - visited
           && if top.1 then top.0 !in c && top.0 in c' && c' == c[top.0 := c'[top.0]] else c' == c
  {
    w' := GoesOnWalking(f, c0, root, w, State(c, visited, stack));
    c', visited', stack' := TakeTurn(f, c, visited, stack, own, next);
  }
}
