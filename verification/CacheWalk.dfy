/** The two-phase memoising walk that type inference runs three times over.

    A walk follows the edges of a finite, possibly cyclic graph.  Every value is put on a LIFO
    worklist twice: once to be opened (its uncached neighbours are pushed above it) and once, below
    them, to be closed (its own contribution and its neighbours' cached answers are united and
    cached).  The value that was asked about is closed last, and its entry is complete.  Another value
    may be closed before some of its neighbours are, and then its entry is partial: a neighbour may be
    waiting below it on a cycle, or its entry may have been on the list already, further down, so that
    it was not pushed again.  CacheOrder tells when that cannot happen.

    This module states what such a walk computes, WalkInvariant holds what every turn of it keeps, and
    MemoisedQuery draws the conclusions and has the step of the loops.  Some predicates match on a datatype
    with one constructor: the solver then unfolds them only where their parts are needed. */
module CacheWalk {
  import opened Collections

  type Id = nat
  type Cache = map<Id, set<Id>>
  type Entry = (Id, bool)

  /** What each value contributes itself, and which values it draws on. */
  datatype Flow = Flow(own: map<Id, set<Id>>, next: map<Id, seq<Id>>)

  ghost predicate WellFormed(f: Flow) {
    && f.own.Keys == f.next.Keys
    && forall v, u :: v in f.next && u in f.next[v] ==> u in f.next
  }

  // ---------------------------------------------------------------- what a query should answer

  ghost predicate IsPath(f: Flow, p: seq<Id>) {
    && 0 < |p|
    && (forall i :: 0 <= i < |p| ==> p[i] in f.next)
    && (forall i :: 0 < i < |p| ==> p[i] in f.next[p[i - 1]])
  }

  ghost predicate Connects(f: Flow, p: seq<Id>, a: Id, b: Id) {
    IsPath(f, p) && p[0] == a && p[|p| - 1] == b
  }

  ghost predicate Reaches(f: Flow, a: Id, b: Id) {
    exists p :: Connects(f, p, a, b)
  }

  /** s is contributed by some value reachable from v. */
  ghost predicate Exact(f: Flow, v: Id, s: Id) {
    exists w :: Reaches(f, v, w) && w in f.own && s in f.own[w]
  }

  ghost predicate Avoids(p: seq<Id>, cached: set<Id>) {
    forall i :: 0 <= i < |p| ==> p[i] !in cached
  }

  ghost predicate ReachesUncached(f: Flow, cached: set<Id>, a: Id, b: Id) {
    exists p :: Connects(f, p, a, b) && Avoids(p, cached)
  }

  /** s is contributed by b itself or by the cached entry of a neighbour of b. */
  ghost predicate Supplies(f: Flow, c: Cache, b: Id, s: Id)
    requires WellFormed(f) && b in f.next
  {
    s in f.own[b] || exists u :: u in f.next[b] && u in c && s in c[u]
  }

  /** The answer to a query for an uncached v when the cache is c, whatever c holds: the walk goes
      through the uncached values only and trusts the cached entries on its rim. */
  ghost predicate Answer(f: Flow, c: Cache, v: Id, s: Id)
    requires WellFormed(f)
  {
    exists b :: ReachesUncached(f, c.Keys, v, b) && b in f.next && Supplies(f, c, b, s)
  }

  ghost predicate Sound(f: Flow, c: Cache) {
    match f
    case Flow(_, _) => forall v, s :: v in c && s in c[v] ==> Exact(f, v, s)
  }

  ghost predicate Complete(f: Flow, c: Cache, v: Id)
    requires v in c
  {
    forall s :: Exact(f, v, s) ==> s in c[v]
  }

  ghost predicate AllComplete(f: Flow, c: Cache) {
    forall u :: u in c ==> Complete(f, c, u)
  }

  /** The cached values on the rim of the walk from v. */
  ghost predicate Rim(f: Flow, c: Cache, v: Id, u: Id)
  {
    u in c && exists b :: ReachesUncached(f, c.Keys, v, b) && b in f.next && u in f.next[b]
  }

  // ---------------------------------------------------------------- path algebra

  lemma ExactHasSource(f: Flow, v: Id, s: Id) returns (w: Id)
    requires Exact(f, v, s)
    ensures w in f.own && s in f.own[w]
  {
    w :| Reaches(f, v, w) && w in f.own && s in f.own[w];
  }

  /** A contribution that v reaches is its own or reached by a neighbour. */
  lemma ExactIff(f: Flow, v: Id, s: Id)
    requires WellFormed(f) && v in f.next
    ensures Exact(f, v, s) <==> s in f.own[v] || exists u :: u in f.next[v] && Exact(f, u, s)
  {
    if Exact(f, v, s) && s !in f.own[v] {
      var w :| Reaches(f, v, w) && w in f.own && s in f.own[w];
      var p :| Connects(f, p, v, w);
      assert p[1] in f.next[p[0]] && Connects(f, p[1..], p[1], w);
      assert Reaches(f, p[1], w) && Exact(f, p[1], s);
    }
    if u :| u in f.next[v] && Exact(f, u, s) {
      var w :| Reaches(f, u, w) && w in f.own && s in f.own[w];
      ThenReaches(f, v, u, w, {});
    }
    ReachesSelf(f, v, {});
  }

  lemma ReachesSelf(f: Flow, a: Id, cached: set<Id>)
    requires a in f.next
    ensures Reaches(f, a, a)
    ensures a !in cached ==> ReachesUncached(f, cached, a, a)
  {
    assert Connects(f, [a], a, a);
    assert a !in cached ==> Avoids([a], cached);
  }

  lemma ReachesThen(f: Flow, a: Id, b: Id, u: Id, cached: set<Id>)
    requires WellFormed(f) && b in f.next && u in f.next[b]
    ensures Reaches(f, a, b) ==> Reaches(f, a, u)
    ensures ReachesUncached(f, cached, a, b) && u !in cached ==> ReachesUncached(f, cached, a, u)
  {
    if Reaches(f, a, b) {
      var p :| Connects(f, p, a, b);
      assert Connects(f, p + [u], a, u);
    }
    if ReachesUncached(f, cached, a, b) && u !in cached {
      var p :| Connects(f, p, a, b) && Avoids(p, cached);
      assert Connects(f, p + [u], a, u) && Avoids(p + [u], cached);
    }
  }

  lemma ThenReaches(f: Flow, a: Id, u: Id, b: Id, cached: set<Id>)
    requires WellFormed(f) && a in f.next && u in f.next[a]
    ensures Reaches(f, u, b) ==> Reaches(f, a, b)
    ensures ReachesUncached(f, cached, u, b) && a !in cached ==> ReachesUncached(f, cached, a, b)
  {
    if Reaches(f, u, b) {
      var p :| Connects(f, p, u, b);
      assert Connects(f, [a] + p, a, b);
    }
    if ReachesUncached(f, cached, u, b) && a !in cached {
      var p :| Connects(f, p, u, b) && Avoids(p, cached);
      assert Connects(f, [a] + p, a, b) && Avoids([a] + p, cached);
    }
  }

  lemma ReachesTrans(f: Flow, a: Id, b: Id, c: Id, cached: set<Id>)
    ensures Reaches(f, a, b) && Reaches(f, b, c) ==> Reaches(f, a, c)
    ensures ReachesUncached(f, cached, a, b) && ReachesUncached(f, cached, b, c)
            ==> ReachesUncached(f, cached, a, c)
  {
    if Reaches(f, a, b) && Reaches(f, b, c) {
      var p :| Connects(f, p, a, b);
      var q :| Connects(f, q, b, c);
      Joined(f, p, q, a, b, c);
      assert Connects(f, p + q[1..], a, c);
    }
    if ReachesUncached(f, cached, a, b) && ReachesUncached(f, cached, b, c) {
      var p :| Connects(f, p, a, b) && Avoids(p, cached);
      var q :| Connects(f, q, b, c) && Avoids(q, cached);
      Joined(f, p, q, a, b, c);
      assert Connects(f, p + q[1..], a, c) && Avoids(p + q[1..], cached);
    }
  }

  lemma Joined(f: Flow, p: seq<Id>, q: seq<Id>, a: Id, b: Id, c: Id)
    requires Connects(f, p, a, b) && Connects(f, q, b, c)
    ensures Connects(f, p + q[1..], a, c)
  {
    var r := p + q[1..];
    forall i | 0 < i < |r|
      ensures r[i] in f.next[r[i - 1]]
    {
      if i >= |p| {
        assert r[i] == q[i - |p| + 1] && r[i - 1] == q[i - |p|];
      }
    }
  }

  // ---------------------------------------------------------------- exactness of an answer

  /** An answer contains only contributions of reachable values if the cached entries do. */
  lemma AnswerIsSound(f: Flow, c: Cache, v: Id, s: Id)
    requires WellFormed(f) && v in f.next
    requires Sound(f, c) && Answer(f, c, v, s)
    ensures Exact(f, v, s)
  {
    var b :| ReachesUncached(f, c.Keys, v, b) && b in f.next && Supplies(f, c, b, s);
    assert Reaches(f, v, b);
    if s !in f.own[b] {
      var u :| u in f.next[b] && u in c && s in c[u];
      assert Exact(f, u, s);
      var w :| Reaches(f, u, w) && w in f.own && s in f.own[w];
      ThenReaches(f, b, u, w, {});
      ReachesTrans(f, v, b, w, {});
    }
  }

  /** An answer misses nothing if the cached entries it meets miss nothing. */
  lemma AnswerIsComplete(f: Flow, c: Cache, v: Id, s: Id)
    requires WellFormed(f) && v in f.next && v !in c
    requires forall u :: Rim(f, c, v, u) ==> Complete(f, c, u)
    requires Exact(f, v, s)
    ensures Answer(f, c, v, s)
  {
    var w :| Reaches(f, v, w) && w in f.own && s in f.own[w];
    ReachesSelf(f, v, c.Keys);
    var p :| Connects(f, p, v, w);
    CompleteAlong(f, c, v, p, s);
  }

  /** Follow the path to a contribution: either it stays among uncached values, or the first cached
      value on it is on the rim and has the contribution in its entry. */
  lemma {:induction false} CompleteAlong(f: Flow, c: Cache, v: Id, p: seq<Id>, s: Id)
    requires WellFormed(f) && v in f.next
    requires forall u :: Rim(f, c, v, u) ==> Complete(f, c, u)
    requires IsPath(f, p) && ReachesUncached(f, c.Keys, v, p[0]) && s in f.own[p[|p| - 1]]
    ensures Answer(f, c, v, s)
    decreases |p|
  {
    var b := p[0];
    if |p| == 1 {
      assert Supplies(f, c, b, s);
    } else {
      var u := p[1];
      assert Connects(f, p[1..], u, p[|p| - 1]);
      if u in c {
        assert Rim(f, c, v, u);
        assert Reaches(f, u, p[|p| - 1]);
        assert Exact(f, u, s);
        assert Supplies(f, c, b, s);
      } else {
        ReachesThen(f, v, b, u, c.Keys);
        CompleteAlong(f, c, v, p[1..], s);
      }
    }
  }

  /** On a cache whose entries are all exact the answer for any uncached value is exact. */
  lemma AnswerIsExact(f: Flow, c: Cache, v: Id)
    requires WellFormed(f) && v in f.next && v !in c
    requires Sound(f, c) && AllComplete(f, c)
    ensures forall s :: Answer(f, c, v, s) <==> Exact(f, v, s)
  {
    forall s
      ensures Answer(f, c, v, s) <==> Exact(f, v, s)
    {
      if Answer(f, c, v, s) { AnswerIsSound(f, c, v, s); }
      if Exact(f, v, s) { AnswerIsComplete(f, c, v, s); }
    }
  }

  // ---------------------------------------------------------------- the worklist

  /** FILOWorkList.push: a value already on the list is not pushed again. */
  function Push(stack: seq<Entry>, e: Entry): (r: seq<Entry>)
    ensures stack <= r && e in r
  {
    if e in stack then stack else stack + [e]
  }

  /** The list after the uncached neighbours were pushed in order. */
  function PushAll(stack: seq<Entry>, c: Cache, next: seq<Id>): seq<Entry> {
    if next == [] then stack else
    var r := PushAll(stack, c, next[..|next| - 1]);
    if next[|next| - 1] in c then r else Push(r, (next[|next| - 1], false))
  }

  /** Only uncached neighbours are pushed, in the order of their first mention, and none is missed. */
  ghost predicate PushedAll(stack: seq<Entry>, c: Cache, next: seq<Id>, r: seq<Entry>) {
    && stack <= r
    && (forall i :: |stack| <= i < |r| ==> !r[i].1 && r[i].0 in next && r[i].0 !in c)
    && (forall u :: u in next && u !in c ==> (u, false) in r)
    && forall i, j :: |stack| <= i < j < |r| ==> Precedes(next, r[i].0, r[j].0)
  }

  lemma {:induction false} PushAllFits(stack: seq<Entry>, c: Cache, next: seq<Id>)
    ensures PushedAll(stack, c, next, PushAll(stack, c, next))
    decreases |next|
  {
    if next != [] {
      var n := |next| - 1;
      var r, r' := PushAll(stack, c, next[..n]), PushAll(stack, c, next);
      PushAllFits(stack, c, next[..n]);
      forall u | u in next && u !in c
        ensures (u, false) in r'
      {
        assert u in next[..n] || u == next[n];
      }
      forall i, j | |stack| <= i < j < |r'|
        ensures Precedes(next, r'[i].0, r'[j].0)
      {
        PrefixFirst(next, n, r'[i].0);
        if j < |r| {
          PrefixFirst(next, n, r'[j].0);
        } else {
          FirstIndexAt(next, n);
        }
      }
    }
  }

  lemma {:induction false} PushAllDistinct(stack: seq<Entry>, c: Cache, next: seq<Id>)
    requires Distinct(stack)
    ensures Distinct(PushAll(stack, c, next))
    decreases |next|
  {
    if next != [] { PushAllDistinct(stack, c, next[..|next| - 1]); }
  }

  lemma {:induction false} PrefixFirst(next: seq<Id>, n: nat, x: Id)
    requires n <= |next| && x in next[..n]
    ensures x in next && FirstIndex(next, x) == FirstIndex(next[..n], x)
  {
    var k := FirstIndex(next[..n], x);
    assert next[k] == x && next[..k] == next[..n][..k];
    FirstIndexAt(next, k);
  }

  /** Opening a value pushes its uncached neighbours. */
  method PushUncached(stack: seq<Entry>, c: Cache, next: seq<Id>) returns (r: seq<Entry>)
    ensures r == PushAll(stack, c, next)
  {
    r := stack;
    for i := 0 to |next|
      invariant r == PushAll(stack, c, next[..i])
    {
      assert next[..i + 1][..i] == next[..i];
      if next[i] !in c {
        r := Push(r, (next[i], false));
      }
    }
    assert next[..|next|] == next;
  }

  /** What a value's own contribution and its neighbours' cached answers make together. */
  function Gathered(c: Cache, own: set<Id>, next: seq<Id>): (r: set<Id>)
    ensures forall s :: s in r <==> s in own || exists u :: u in next && u in c && s in c[u]
  {
    own + set u, s | u in next && u in c && s in c[u] :: s
  }

  /** Closing a value unites its own contribution with its neighbours' cached answers. */
  method Gather(c: Cache, own: set<Id>, next: seq<Id>) returns (r: set<Id>)
    ensures r == Gathered(c, own, next)
  {
    r := own;
    for i := 0 to |next|
      invariant forall s :: s in r <==> s in own || exists u :: u in next[..i] && u in c && s in c[u]
    {
      assert next[..i + 1] == next[..i] + [next[i]];
      if next[i] in c {
        r := r + c[next[i]];
      }
    }
    assert next[..|next|] == next;
  }

  // ---------------------------------------------------------------- the walk as a function

  datatype State = State(cache: Cache, visited: set<Entry>, stack: seq<Entry>)

  /** The states a walk can process: at most two for each value. */
  ghost function States(f: Flow): set<Entry> {
    set v <- f.next.Keys, b <- {true, false} :: (v, b)
  }

  ghost predicate Runs(f: Flow, s: State) {
    WellFormed(f) && forall k :: 0 <= k < |s.stack| ==> s.stack[k].0 in f.next
  }

  /** One turn of the loop: an entry is popped and, unless it was processed before, its value is
      opened or closed. */
  ghost function Turn(f: Flow, s: State): (t: State)
    requires Runs(f, s) && s.stack != []
  {
    var top, rest := s.stack[|s.stack| - 1], s.stack[..|s.stack| - 1];
    if top in s.visited then State(s.cache, s.visited, rest)
    else if top.1 then
      State(s.cache[top.0 := Gathered(s.cache, f.own[top.0], f.next[top.0])], s.visited + {top}, rest)
    else
      var pushed := if top.0 in s.cache then rest else Push(rest, (top.0, true));
      State(s.cache, s.visited + {top}, PushAll(pushed, s.cache, f.next[top.0]))
  }

  lemma TurnRuns(f: Flow, s: State)
    requires Runs(f, s) && s.stack != []
    ensures Runs(f, Turn(f, s))
    ensures var t := Turn(f, s); var top := s.stack[|s.stack| - 1];
      if top in s.visited then t.visited == s.visited && |t.stack| < |s.stack|
      else States(f) - t.visited < States(f) - s.visited
  {
    var top, rest, t := s.stack[|s.stack| - 1], s.stack[..|s.stack| - 1], Turn(f, s);
    assert top == (top.0, top.1);
    if top !in s.visited {
      assert top in States(f) - s.visited;
      if !top.1 {
        var pushed := if top.0 in s.cache then rest else Push(rest, (top.0, true));
        PushAllFits(pushed, s.cache, f.next[top.0]);
        assert pushed <= t.stack;
      }
    }
  }

  /** The cache that a walk ends with. */
  ghost function Run(f: Flow, s: State): Cache
    requires Runs(f, s)
    decreases States(f) - s.visited, |s.stack|
  {
    if s.stack == [] then s.cache else
    TurnRuns(f, s);
    Run(f, Turn(f, s))
  }

  /** Each turn marks one more entry or shortens the list. */
  lemma TurnShrinks(f: Flow, s: State, t: State)
    requires Runs(f, s) && s.stack != [] && t == Turn(f, s)
    ensures Runs(f, t) && Run(f, s) == Run(f, t)
    ensures |States(f) - t.visited| < |States(f) - s.visited| || (t.visited == s.visited && |t.stack| < |s.stack|)
  {
    TurnRuns(f, s);
    var top := s.stack[|s.stack| - 1];
    assert top == (top.0, top.1);
    if top !in s.visited { OneLess(States(f), s.visited, top); }
  }

  /** The cache after a query: a cached answer is used as it is. */
  ghost function Query(f: Flow, c0: Cache, root: Id): Cache
    requires WellFormed(f) && root in f.next
  {
    if root in c0 then c0 else Run(f, State(c0, {}, [(root, false)]))
  }

  // ---------------------------------------------------------------- what a query leaves

  /** u was cached, or closed, by the time v was closed. */
  ghost predicate Before(c0: Cache, closed: map<Id, nat>, u: Id, v: Id)
    requires v in closed
  {
    u in c0 || (u in closed && closed[u] < closed[v])
  }

  /** What the entry of v holds: its own contribution and the entries of the neighbours that were
      there by the time it was closed. */
  ghost predicate Entered(f: Flow, c0: Cache, c: Cache, closed: map<Id, nat>, v: Id, s: Id)
    requires WellFormed(f) && v in f.next && v in closed
  {
    s in f.own[v] || exists u :: u in f.next[v] && u in c && Before(c0, closed, u, v) && s in c[u]
  }

  /** Every new entry is accounted for by the order of closing. */
  ghost predicate Accounts(f: Flow, c0: Cache, c: Cache, closed: map<Id, nat>)
    requires WellFormed(f)
  {
    forall v :: v in closed ==>
      v in f.next && v in c && v !in c0
      && forall s {:trigger Entered(f, c0, c, closed, v, s)} :: s in c[v] <==> Entered(f, c0, c, closed, v, s)
  }

  /** Each value is closed after its neighbours, other than itself. */
  ghost predicate NeighboursFirst(f: Flow, c0: Cache, closed: map<Id, nat>) {
    forall v, u :: v in closed && v in f.next && u in f.next[v] && u != v ==> Before(c0, closed, u, v)
  }

  /** What a caller can check before a query: among the uncached values that it can reach, no two
      reach each other, and no neighbour of a value is reached from another one, listed after it.  A
      value may be its own neighbour. */
  ghost predicate Clean(f: Flow, cached: set<Id>, root: Id) {
    match f
    case Flow(_, next) =>
      && (forall a, b :: a != b && ReachesUncached(f, cached, root, a) && ReachesUncached(f, cached, a, b) ==>
            !ReachesUncached(f, cached, b, a))
      && (forall a, u, x :: ReachesUncached(f, cached, root, a) && a in next && u != x && x != a
                            && Precedes(next[a], u, x) ==>
            !ReachesUncached(f, cached, x, u))
  }

  /** What one query does to a cache, whatever the cache held: nothing already cached changes, new
      entries are for values the query reached, and none of them is unsound if the old ones were not. */
  ghost predicate Extends(f: Flow, c0: Cache, root: Id, c: Cache)
    requires WellFormed(f)
  {
    && (forall v :: v in c0 ==> v in c && c[v] == c0[v])
    && (forall v :: v in c && v !in c0 ==> v in f.next && ReachesUncached(f, c0.Keys, root, v))
    && (forall v, s :: v in c && v !in c0 && s in c[v] ==> Answer(f, c0, v, s))
  }

  lemma ExtendsKeepsSound(f: Flow, c0: Cache, root: Id, c: Cache)
    requires WellFormed(f) && Extends(f, c0, root, c) && Sound(f, c0)
    ensures Sound(f, c)
  {
    forall v, s | v in c && s in c[v]
      ensures Exact(f, v, s)
    {
      if v !in c0 {
        AnswerIsSound(f, c0, v, s);
      }
    }
  }

  /** The new entries, closed in this order; on a clean part of the graph each after its neighbours. */
  ghost predicate ClosedBy(f: Flow, c0: Cache, root: Id, c: Cache, closed: map<Id, nat>)
    requires WellFormed(f)
  {
    match f
    case Flow(_, _) =>
      && (forall v :: v in c <==> v in c0 || v in closed)
      && Accounts(f, c0, c, closed)
      && (Clean(f, c0.Keys, root) ==> NeighboursFirst(f, c0, closed))
  }

  /** What a query leaves: the answer to it, and entries for exactly the values that it reached. */
  ghost predicate Answered(f: Flow, c0: Cache, root: Id, c: Cache)
    requires WellFormed(f)
  {
    match f
    case Flow(_, _) =>
      && Extends(f, c0, root, c)
      && root in c
      && (root in c0 ==> c == c0)
      && (root !in c0 ==> forall v :: ReachesUncached(f, c0.Keys, root, v) ==> v in c)
      && (root !in c0 ==> forall s :: s in c[root] <==> Answer(f, c0, root, s))
      && exists closed :: ClosedBy(f, c0, root, c, closed)
  }

  /** On a cache whose entries are all exact the query is answered exactly. */
  lemma AnsweredExactly(f: Flow, c0: Cache, root: Id, c: Cache)
    requires WellFormed(f) && root in f.next && Answered(f, c0, root, c) && Sound(f, c0) && AllComplete(f, c0)
    ensures forall s :: s in c[root] <==> Exact(f, root, s)
  {
    if root !in c0 {
      AnswerIsExact(f, c0, root);
    } else {
      assert Complete(f, c0, root);
    }
  }
}
