/** What every turn of a walk keeps: the spanning tree of the values opened so far, the order in which
    they close, and what their entries hold.

    A predicate that matches on a datatype with one constructor is unfolded by the solver only where
    its parts are needed. */
module WalkInvariant {
  import opened Collections
  import opened CacheWalk

  // ---------------------------------------------------------------- the invariant of a walk

  /** The state of a walk.  rank numbers the opened values in the order of opening, and parent[v] is
      the value whose opening pushed the entry that opened v: together they are the spanning tree of
      the walk.  closed numbers the closed values in the order of closing.  None of the three is stored
      by the program. */
  datatype Walk = Walk(cache: Cache, visited: set<Entry>, stack: seq<Entry>,
                       rank: map<Id, nat>, parent: map<Id, Id>, closed: map<Id, nat>)

  function StateOf(w: Walk): State {
    State(w.cache, w.visited, w.stack)
  }

  ghost predicate Shape(f: Flow, c0: Cache, w: Walk) {
    TablesFit(f, c0, w) && StackFits(f, c0, w)
  }

  ghost predicate TablesFit(f: Flow, c0: Cache, w: Walk) {
    && (forall v :: v in w.rank ==> v in f.next && v !in c0 && w.rank[v] < |w.rank|)
    && (forall v :: (v, false) in w.visited <==> v in w.rank)
    && (forall v :: (v, true) in w.visited <==> v in w.rank && v in w.cache)
    && (forall v :: v in w.cache ==> v in c0 || v in w.rank)
    && (forall v :: v in c0 ==> v in w.cache && w.cache[v] == c0[v])
  }

  ghost predicate StackFits(f: Flow, c0: Cache, w: Walk) {
    && (forall k :: 0 <= k < |w.stack| ==> w.stack[k].0 in f.next && w.stack[k].0 !in c0)
    && (forall k :: 0 <= k < |w.stack| && w.stack[k].1 ==> w.stack[k].0 in w.rank && w.stack[k].0 !in w.cache)
    && (forall v :: v in w.rank && v !in w.cache ==> (v, true) in w.stack)
  }

  /** Values wait to be closed in the order in which they were opened. */
  ghost predicate ClosesInOrder(w: Walk) {
    forall a, b :: 0 <= a < b < |w.stack| && w.stack[a].1 && w.stack[b].1
      && w.stack[a].0 in w.rank && w.stack[b].0 in w.rank
      ==> w.rank[w.stack[a].0] < w.rank[w.stack[b].0]
  }

  /** The value at a is the nearest one below k that waits to be closed. */
  ghost predicate NearestBelow(stack: seq<Entry>, a: int, k: int) {
    0 <= a < k < |stack| && stack[a].1 && forall b :: a < b < k ==> !stack[b].1
  }

  /** The entry at k was pushed when the value at a was opened, after the entries between them. */
  ghost predicate InSegment(f: Flow, stack: seq<Entry>, a: int, k: int)
    requires NearestBelow(stack, a, k)
  {
    && stack[a].0 in f.next && stack[k].0 in f.next[stack[a].0]
    && forall j :: a < j < k ==> Precedes(f.next[stack[a].0], stack[j].0, stack[k].0)
  }

  /** Every entry was pushed by the nearest value waiting below it, in the order of its neighbours. */
  ghost predicate Segmented(f: Flow, stack: seq<Entry>) {
    forall a, k :: NearestBelow(stack, a, k) ==> InSegment(f, stack, a, k)
  }

  ghost predicate Segments(f: Flow, w: Walk) {
    && (w.rank != map[] && w.stack != [] ==> w.stack[0].1)
    && Segmented(f, w.stack)
    && Distinct(w.stack)
  }

  /** The spanning tree: once a parent is closed so are its children, and it has their answers. */
  ghost predicate Tree(f: Flow, root: Id, w: Walk) {
    && (w.rank != map[] ==> root in w.rank)
    && (forall v {:trigger Child(f, w, v)} :: v in w.rank && v != root ==> Child(f, w, v))
  }

  ghost predicate Child(f: Flow, w: Walk, v: Id)
    requires v in w.rank
  {
    && v in w.parent
    && w.parent[v] in w.rank && w.rank[w.parent[v]] < w.rank[v]
    && w.parent[v] in f.next && v in f.next[w.parent[v]]
    && (w.parent[v] in w.cache ==> v in w.cache && w.cache[v] <= w.cache[w.parent[v]])
  }

  /** No neighbour of an opened value is lost. */
  ghost predicate Closure(f: Flow, c0: Cache, w: Walk) {
    forall v, u :: v in w.rank && v in f.next && u in f.next[v] ==> u in c0 || u in w.rank || (u, false) in w.stack
  }

  /** A closed value has everything that it and the old entries next to it supply. */
  ghost predicate Filled(f: Flow, c0: Cache, w: Walk)
    requires WellFormed(f)
  {
    forall v, s :: v in w.rank && v in f.next && v in w.cache && Supplies(f, c0, v, s) ==> s in w.cache[v]
  }

  /** A closed value has nothing that a query for it would not return. */
  ghost predicate Justified(f: Flow, c0: Cache, root: Id, w: Walk)
    requires WellFormed(f)
  {
    && (forall v :: v in w.rank ==> ReachesUncached(f, c0.Keys, root, v))
    && (forall v, s :: v in w.rank && v in w.cache && s in w.cache[v] ==> Answer(f, c0, v, s))
  }

  ghost predicate Ledger(f: Flow, c0: Cache, root: Id, w: Walk)
    requires WellFormed(f)
  {
    match w
    case Walk(cache, _, _, rank, _, closed) =>
      && (forall v :: v in closed <==> v in rank && v in cache)
      && (forall v :: v in closed ==> closed[v] < |closed|)
      && Accounts(f, c0, cache, closed)
      && (Clean(f, c0.Keys, root) ==> NeighboursFirst(f, c0, closed))
  }

  ghost predicate Inv(f: Flow, c0: Cache, root: Id, w: Walk) {
    match w
    case Walk(_, _, stack, rank, _, _) =>
      && WellFormed(f)
      && root in f.next && root !in c0
      && Shape(f, c0, w)
      && ClosesInOrder(w)
      && Segments(f, w)
      && Tree(f, root, w)
      && Closure(f, c0, w)
      && Filled(f, c0, w)
      && Justified(f, c0, root, w)
      && Ledger(f, c0, root, w)
      && (rank == map[] ==> stack == [(root, false)])
  }

  /** The walk before its first turn. */
  ghost function Beginning(c0: Cache, root: Id): Walk {
    Walk(c0, {}, [(root, false)], map[], map[], map[])
  }

  lemma Started(f: Flow, c0: Cache, root: Id)
    requires WellFormed(f) && root in f.next && root !in c0
    ensures Inv(f, c0, root, Beginning(c0, root))
  {
    StartedShape(f, c0, root);
    StartedTables(f, c0, root);
    StartedLedger(f, c0, root);
  }

  lemma StartedShape(f: Flow, c0: Cache, root: Id)
    requires root in f.next && root !in c0
    ensures var w := Beginning(c0, root); Shape(f, c0, w) && ClosesInOrder(w) && Segments(f, w)
  {}

  lemma StartedTables(f: Flow, c0: Cache, root: Id)
    requires WellFormed(f)
    ensures var w := Beginning(c0, root);
      Tree(f, root, w) && Closure(f, c0, w) && Filled(f, c0, w) && Justified(f, c0, root, w)
  {}

  lemma StartedLedger(f: Flow, c0: Cache, root: Id)
    requires WellFormed(f)
    ensures Ledger(f, c0, root, Beginning(c0, root))
  {}

  ghost function Popped(w: Walk): Walk
    requires w.stack != []
  {
    w.(stack := w.stack[..|w.stack| - 1])
  }

  lemma PoppedSegments(f: Flow, w: Walk)
    requires Segments(f, w) && w.stack != []
    ensures Segments(f, Popped(w))
  {
    PrefixSegmented(f, w.stack, |w.stack| - 1);
  }

  lemma PrefixSegmented(f: Flow, stack: seq<Entry>, n: nat)
    requires Segmented(f, stack) && n <= |stack|
    ensures Segmented(f, stack[..n])
  {
    forall a, k | NearestBelow(stack[..n], a, k)
      ensures InSegment(f, stack[..n], a, k)
    {
      assert NearestBelow(stack, a, k);
      assert InSegment(f, stack, a, k);
    }
  }

  lemma StillThere(stack: seq<Entry>, e: Entry)
    requires stack != [] && e in stack && e != stack[|stack| - 1]
    ensures e in stack[..|stack| - 1]
  {
  }

  /** An entry on the list that was processed before waited to be opened. */
  lemma SeenIsOpen(f: Flow, c0: Cache, w: Walk, top: Entry)
    requires Shape(f, c0, w) && top in w.stack && top in w.visited
    ensures !top.1 && top.0 in w.rank
  {
    assert top == (top.0, top.1);
  }

  lemma SkippedStackFits(f: Flow, c0: Cache, w: Walk)
    requires StackFits(f, c0, w) && w.stack != [] && !w.stack[|w.stack| - 1].1
    ensures StackFits(f, c0, Popped(w))
  {
    forall v | v in w.rank && v !in w.cache
      ensures (v, true) in Popped(w).stack
    {
      StillThere(w.stack, (v, true));
    }
  }

  lemma SkippedShape(f: Flow, c0: Cache, w: Walk)
    requires Shape(f, c0, w) && w.stack != [] && w.stack[|w.stack| - 1] in w.visited
    ensures Shape(f, c0, Popped(w))
    ensures !w.stack[|w.stack| - 1].1 && w.stack[|w.stack| - 1].0 in w.rank
  {
    SeenIsOpen(f, c0, w, w.stack[|w.stack| - 1]);
    SkippedStackFits(f, c0, w);
  }

  lemma PoppedClosure(f: Flow, c0: Cache, w: Walk)
    requires Closure(f, c0, w) && w.stack != []
    requires var top := w.stack[|w.stack| - 1]; !top.1 ==> top.0 in w.rank
    ensures Closure(f, c0, Popped(w))
  {
    forall v, u | v in w.rank && v in f.next && u in f.next[v] && u !in c0 && u !in w.rank
      ensures (u, false) in Popped(w).stack
    {
      StillThere(w.stack, (u, false));
    }
  }

  lemma PoppedTables(f: Flow, c0: Cache, root: Id, w: Walk)
    requires WellFormed(f) && w.stack != [] && Tree(f, root, w)
    requires Filled(f, c0, w) && Justified(f, c0, root, w) && Ledger(f, c0, root, w)
    ensures Tree(f, root, Popped(w))
    ensures Filled(f, c0, Popped(w)) && Justified(f, c0, root, Popped(w)) && Ledger(f, c0, root, Popped(w))
  {
    forall v | v in w.rank && v != root
      ensures Child(f, Popped(w), v)
    {
      assert Child(f, w, v);
    }
  }

  /** Popping an entry that was processed before. */
  lemma Skipped(f: Flow, c0: Cache, root: Id, w: Walk)
    requires Inv(f, c0, root, w) && w.stack != [] && w.stack[|w.stack| - 1] in w.visited
    ensures Inv(f, c0, root, Popped(w))
  {
    SkippedShape(f, c0, w);
    PoppedSegments(f, w);
    PoppedClosure(f, c0, w);
    PoppedTables(f, c0, root, w);
  }

  /** The state after (v, false) was popped unseen: v is marked, and pushed to be closed under the
      entries pushed for its uncached neighbours. */
  ghost predicate Opens(f: Flow, w: Walk, v: Id, p: Id, w': Walk)
    requires w.stack != [] && v in f.next
  {
    var n := |w.stack| - 1;
    && w.stack[n] == (v, false) && (v, false) !in w.visited
    && w'.cache == w.cache
    && w'.visited == w.visited + {(v, false)}
    && w'.rank == w.rank[v := |w.rank|]
    && w'.parent == w.parent[v := p]
    && w.stack[..n] + [(v, true)] <= w'.stack
    && (forall k :: n < k < |w'.stack| ==> !w'.stack[k].1 && w'.stack[k].0 in f.next[v] && w'.stack[k].0 !in w.cache)
    && (forall u :: u in f.next[v] && u !in w.cache ==> (u, false) in w'.stack)
    && (forall i, j :: n < i < j < |w'.stack| ==> Precedes(f.next[v], w'.stack[i].0, w'.stack[j].0))
    && (Distinct(w.stack) ==> Distinct(w'.stack))
    && w'.closed == w.closed
  }

  /** The parent in the tree of the value that the top entry opens. */
  ghost predicate Parent(f: Flow, root: Id, w: Walk, p: Id)
    requires w.stack != []
  {
    var v := w.stack[|w.stack| - 1].0;
    if w.rank == map[] then v == root && p == root
    else (p, true) in w.stack[..|w.stack| - 1] && p in w.rank && p in f.next && v in f.next[p]
  }

  lemma HasParent(f: Flow, c0: Cache, root: Id, w: Walk) returns (p: Id)
    requires Inv(f, c0, root, w) && w.stack != []
    requires !w.stack[|w.stack| - 1].1 && w.stack[|w.stack| - 1] !in w.visited
    ensures Parent(f, root, w, p)
  {
    var n := |w.stack| - 1;
    if w.rank == map[] {
      p := root;
    } else {
      var a := Nearest(w.stack, n);
      assert InSegment(f, w.stack, a, n);
      p := w.stack[a].0;
      assert w.stack[..n][a] == (p, true);
    }
  }

  /** Above a value that waits there is a nearest one below every entry. */
  lemma Nearest(stack: seq<Entry>, k: nat) returns (a: nat)
    requires 0 < k < |stack| && stack[0].1
    ensures NearestBelow(stack, a, k)
  {
    a := k - 1;
    while !stack[a].1
      invariant a < k && forall b :: a < b < k ==> !stack[b].1
      decreases a
    {
      a := a - 1;
    }
  }

  /** Opening leaves the entries below the top where they were. */
  lemma OpenedStack(f: Flow, w: Walk, v: Id, p: Id, w': Walk)
    requires w.stack != [] && v in f.next && Opens(f, w, v, p, w')
    ensures var n := |w.stack| - 1;
      n < |w'.stack| && w'.stack[n] == (v, true) && forall k :: 0 <= k < n ==> w'.stack[k] == w.stack[k]
  {
    var n := |w.stack| - 1;
    forall k | 0 <= k <= n
      ensures w'.stack[k] == if k < n then w.stack[k] else (v, true)
    {
      assert w'.stack[k] == (w.stack[..n] + [(v, true)])[k];
    }
  }

  lemma OpenedKeeps(f: Flow, w: Walk, v: Id, p: Id, w': Walk, e: Entry)
    requires w.stack != [] && v in f.next && Opens(f, w, v, p, w') && e in w.stack && e != (v, false)
    ensures e in w'.stack
  {
    OpenedStack(f, w, v, p, w');
    var k :| 0 <= k < |w.stack| && w.stack[k] == e;
    assert w'.stack[k] == e;
  }

  lemma RankMore(f: Flow, c0: Cache, w: Walk, v: Id, rank: map<Id, nat>)
    requires TablesFit(f, c0, w) && v in f.next && v !in c0 && (v, false) !in w.visited
    requires rank == w.rank[v := |w.rank|]
    ensures v !in w.rank && v !in w.cache && |rank| == |w.rank| + 1
    ensures forall u :: u in rank ==> u in f.next && u !in c0 && rank[u] < |rank|
  {
    RankSize(w.rank, v);
  }

  lemma RankSize(rank: map<Id, nat>, v: Id)
    requires v !in rank
    ensures |rank[v := |rank|]| == |rank| + 1
  {
    assert rank[v := |rank|].Keys == rank.Keys + {v};
  }

  lemma OpenedRank(f: Flow, c0: Cache, w: Walk, v: Id, p: Id, w': Walk)
    requires WellFormed(f) && Shape(f, c0, w) && w.stack != [] && v in f.next && Opens(f, w, v, p, w')
    ensures v !in w.rank && v !in c0 && v !in w.cache
    ensures |w'.rank| == |w.rank| + 1
    ensures forall u :: u in w'.rank ==> u in f.next && u !in c0 && w'.rank[u] < |w'.rank|
  {
    assert w.stack[|w.stack| - 1].0 == v;
    RankMore(f, c0, w, v, w'.rank);
  }

  lemma OpenedShape(f: Flow, c0: Cache, w: Walk, v: Id, p: Id, w': Walk)
    requires WellFormed(f) && Shape(f, c0, w) && w.stack != [] && v in f.next && Opens(f, w, v, p, w')
    ensures Shape(f, c0, w')
  {
    OpenedTables(f, c0, w, v, p, w');
    OpenedStackFits(f, c0, w, v, p, w');
  }

  lemma OpenedTables(f: Flow, c0: Cache, w: Walk, v: Id, p: Id, w': Walk)
    requires WellFormed(f) && Shape(f, c0, w) && w.stack != [] && v in f.next && Opens(f, w, v, p, w')
    ensures TablesFit(f, c0, w')
  {
    OpenedRank(f, c0, w, v, p, w');
  }

  lemma OpenedStackFits(f: Flow, c0: Cache, w: Walk, v: Id, p: Id, w': Walk)
    requires WellFormed(f) && Shape(f, c0, w) && w.stack != [] && v in f.next && Opens(f, w, v, p, w')
    ensures StackFits(f, c0, w')
  {
    OpenedStack(f, w, v, p, w');
    OpenedRank(f, c0, w, v, p, w');
    forall u | u in w.rank && u !in w.cache
      ensures (u, true) in w'.stack
    {
      OpenedKeeps(f, w, v, p, w', (u, true));
    }
    EntriesFit(f, c0, w, v, w');
  }

  lemma EntriesFit(f: Flow, c0: Cache, w: Walk, v: Id, w': Walk)
    requires StackFits(f, c0, w) && w.stack != [] && v in f.next && v !in c0 && v !in w.cache
    requires (forall u :: u in f.next[v] ==> u in f.next) && (forall u :: u in c0 ==> u in w.cache)
    requires w'.cache == w.cache && w'.rank == w.rank[v := |w.rank|]
    requires var n := |w.stack| - 1;
      && n < |w'.stack| && w'.stack[n] == (v, true) && (forall k :: 0 <= k < n ==> w'.stack[k] == w.stack[k])
      && forall k :: n < k < |w'.stack| ==> !w'.stack[k].1 && w'.stack[k].0 in f.next[v] && w'.stack[k].0 !in w.cache
    requires forall u :: u in w.rank && u !in w.cache ==> (u, true) in w'.stack
    ensures StackFits(f, c0, w')
  {
    assert w'.stack[|w.stack| - 1] in w'.stack;
  }

  lemma OpenedOrder(f: Flow, c0: Cache, w: Walk, v: Id, p: Id, w': Walk)
    requires WellFormed(f) && Shape(f, c0, w) && ClosesInOrder(w)
    requires w.stack != [] && v in f.next && Opens(f, w, v, p, w')
    ensures ClosesInOrder(w')
  {
    OpenedStack(f, w, v, p, w');
    OpenedRank(f, c0, w, v, p, w');
    OrderMore(w, v, w');
  }

  lemma OrderMore(w: Walk, v: Id, w': Walk)
    requires ClosesInOrder(w) && w.stack != [] && v !in w.rank && w'.rank == w.rank[v := |w.rank|]
    requires forall u :: u in w.rank ==> w.rank[u] < |w.rank|
    requires forall k :: 0 <= k < |w.stack| && w.stack[k].1 ==> w.stack[k].0 in w.rank
    requires var n := |w.stack| - 1;
      && n < |w'.stack| && w'.stack[n] == (v, true) && (forall k :: 0 <= k < n ==> w'.stack[k] == w.stack[k])
      && forall k :: n < k < |w'.stack| ==> !w'.stack[k].1
    ensures ClosesInOrder(w')
  {}

  lemma OpenedSegments(f: Flow, w: Walk, v: Id, p: Id, w': Walk)
    requires Segments(f, w) && w.stack != [] && v in f.next && Opens(f, w, v, p, w')
    requires w.rank == map[] ==> |w.stack| == 1
    ensures Segments(f, w')
  {
    var n := |w.stack| - 1;
    OpenedStack(f, w, v, p, w');
    forall a, k | NearestBelow(w'.stack, a, k)
      ensures InSegment(f, w'.stack, a, k)
    {
      if k <= n {
        assert NearestBelow(w.stack, a, k);
        assert InSegment(f, w.stack, a, k);
      } else {
        assert a >= n;
        assert a == n;
      }
    }
  }

  lemma OpenedTree(f: Flow, c0: Cache, root: Id, w: Walk, v: Id, p: Id, w': Walk)
    requires WellFormed(f) && Shape(f, c0, w) && Tree(f, root, w)
    requires w.stack != [] && v in f.next && Opens(f, w, v, p, w') && Parent(f, root, w, p)
    ensures Tree(f, root, w')
  {
    OpenedRank(f, c0, w, v, p, w');
    if w.rank != map[] {
      var k :| 0 <= k < |w.stack| - 1 && w.stack[k] == (p, true);
      assert p !in w.cache;
    }
    TreeMore(f, root, w, v, p, w');
  }

  lemma TreeMore(f: Flow, root: Id, w: Walk, v: Id, p: Id, w': Walk)
    requires Tree(f, root, w) && v !in w.rank && v !in w.cache && w'.cache == w.cache
    requires w'.rank == w.rank[v := |w.rank|] && w'.parent == w.parent[v := p]
    requires forall u :: u in w.rank ==> w.rank[u] < |w.rank|
    requires if w.rank == map[] then v == root else p in w.rank && p in f.next && v in f.next[p] && p !in w.cache
    ensures Tree(f, root, w')
  {
    forall u | u in w'.rank && u != root
      ensures Child(f, w', u)
    {
      if u != v { assert Child(f, w, u); }
    }
  }

  lemma OpenedClosure(f: Flow, c0: Cache, w: Walk, v: Id, p: Id, w': Walk)
    requires WellFormed(f) && Shape(f, c0, w) && Closure(f, c0, w)
    requires w.stack != [] && v in f.next && Opens(f, w, v, p, w')
    ensures Closure(f, c0, w')
  {
    forall x, u | x in w'.rank && x in f.next && u in f.next[x] && u !in c0 && u !in w'.rank
      ensures (u, false) in w'.stack
    {
      if x != v {
        OpenedKeeps(f, w, v, p, w', (u, false));
      }
    }
  }

  /** Opening a value closes none. */
  lemma OpenedBooks(f: Flow, c0: Cache, root: Id, w: Walk, v: Id, w': Walk)
    requires WellFormed(f) && Filled(f, c0, w) && Justified(f, c0, root, w) && Ledger(f, c0, root, w)
    requires w'.cache == w.cache && w'.closed == w.closed && v !in w.cache && w'.rank == w.rank[v := |w.rank|]
    requires ReachesUncached(f, c0.Keys, root, v)
    ensures Filled(f, c0, w') && Justified(f, c0, root, w') && Ledger(f, c0, root, w')
  {}

  /** Opening a value. */
  lemma Opened(f: Flow, c0: Cache, root: Id, w: Walk, v: Id, p: Id, w': Walk)
    requires Inv(f, c0, root, w) && w.stack != [] && v in f.next && Opens(f, w, v, p, w') && Parent(f, root, w, p)
    ensures Inv(f, c0, root, w')
  {
    OpenedRank(f, c0, w, v, p, w');
    OpenedShape(f, c0, w, v, p, w');
    OpenedOrder(f, c0, w, v, p, w');
    OpenedSegments(f, w, v, p, w');
    OpenedTree(f, c0, root, w, v, p, w');
    OpenedClosure(f, c0, w, v, p, w');
    if w.rank == map[] {
      ReachesSelf(f, root, c0.Keys);
    } else {
      ReachesThen(f, root, p, v, c0.Keys);
    }
    OpenedBooks(f, c0, root, w, v, w');
    assert v in w'.rank;
  }

  /** The state after (v, true) was popped: v is closed with its own contribution and the cached
      answers of its neighbours. */
  ghost predicate Closes(f: Flow, w: Walk, v: Id, w': Walk)
    requires WellFormed(f) && w.stack != [] && v in f.next
  {
    && w.stack[|w.stack| - 1] == (v, true)
    && w'.stack == w.stack[..|w.stack| - 1]
    && w'.visited == w.visited + {(v, true)}
    && w'.rank == w.rank && w'.parent == w.parent && w'.closed == w.closed[v := |w.closed|]
    && v in w'.cache && w'.cache == w.cache[v := w'.cache[v]]
    && forall s :: s in w'.cache[v] <==> Supplies(f, w.cache, v, s)
  }

  lemma ClosedShape(f: Flow, c0: Cache, w: Walk, v: Id, w': Walk)
    requires WellFormed(f) && Shape(f, c0, w) && ClosesInOrder(w)
    requires w.stack != [] && v in f.next && Closes(f, w, v, w')
    ensures v in w.rank && v !in w.cache
    ensures Shape(f, c0, w') && ClosesInOrder(w')
  {
    ClosedTables(f, c0, w, v, w');
    ClosedStackFits(f, c0, w, v, w');
  }

  lemma ClosedTables(f: Flow, c0: Cache, w: Walk, v: Id, w': Walk)
    requires WellFormed(f) && Shape(f, c0, w) && w.stack != [] && v in f.next && Closes(f, w, v, w')
    ensures v in w.rank && v !in w.cache && TablesFit(f, c0, w')
  {}

  lemma ClosedStackFits(f: Flow, c0: Cache, w: Walk, v: Id, w': Walk)
    requires WellFormed(f) && StackFits(f, c0, w) && ClosesInOrder(w)
    requires w.stack != [] && v in f.next && Closes(f, w, v, w')
    ensures StackFits(f, c0, w') && ClosesInOrder(w')
  {
    forall u | u in w.rank && u !in w'.cache
      ensures (u, true) in w'.stack
    {
      StillThere(w.stack, (u, true));
    }
  }

  /** Everything opened after v is closed by the time v is. */
  lemma LaterAreClosed(f: Flow, c0: Cache, w: Walk, v: Id, u: Id)
    requires Shape(f, c0, w) && ClosesInOrder(w) && w.stack != [] && w.stack[|w.stack| - 1] == (v, true)
    requires v in w.rank && u in w.rank && w.rank[v] < w.rank[u]
    ensures u in w.cache
  {
    var n := |w.stack| - 1;
    assert forall a :: 0 <= a < n && w.stack[a].1 ==> w.rank[w.stack[a].0] < w.rank[w.stack[n].0];
    assert (u, true) !in w.stack;
  }

  lemma ClosedTree(f: Flow, c0: Cache, root: Id, w: Walk, v: Id, w': Walk)
    requires WellFormed(f) && Shape(f, c0, w) && ClosesInOrder(w) && Tree(f, root, w)
    requires w.stack != [] && v in f.next && Closes(f, w, v, w')
    requires v in w.rank && v !in w.cache
    ensures Tree(f, root, w')
  {
    forall u | u in w.rank && u != root
      ensures Child(f, w', u)
    {
      assert Child(f, w, u);
      if w.parent[u] == v {
        LaterAreClosed(f, c0, w, v, u);
        assert forall s :: s in w.cache[u] ==> Supplies(f, w.cache, v, s);
      }
    }
  }

  lemma ClosedFilled(f: Flow, c0: Cache, w: Walk, v: Id, w': Walk)
    requires WellFormed(f) && Shape(f, c0, w) && Filled(f, c0, w)
    requires w.stack != [] && v in f.next && Closes(f, w, v, w')
    ensures Filled(f, c0, w')
  {
    forall s | Supplies(f, c0, v, s)
      ensures Supplies(f, w.cache, v, s)
    {
    }
  }

  lemma ClosedJustified(f: Flow, c0: Cache, root: Id, w: Walk, v: Id, w': Walk)
    requires WellFormed(f) && Shape(f, c0, w) && Justified(f, c0, root, w)
    requires w.stack != [] && v in f.next && v in w.rank && Closes(f, w, v, w')
    ensures Justified(f, c0, root, w')
  {
    forall s | s in w'.cache[v]
      ensures Answer(f, c0, v, s)
    {
      ClosedIsJustified(f, c0, root, w, v, s);
    }
  }

  /** The entry of v is accounted for, and the others stay so. */
  lemma ClosedAccounts(f: Flow, c0: Cache, root: Id, w: Walk, v: Id, w': Walk)
    requires WellFormed(f) && Shape(f, c0, w) && Ledger(f, c0, root, w)
    requires w.stack != [] && v in f.next && v in w.rank && v !in w.cache && Closes(f, w, v, w')
    ensures Accounts(f, c0, w'.cache, w'.closed)
  {
    forall x | x in w'.closed
      ensures x in f.next && x in w'.cache && x !in c0
      ensures forall s :: s in w'.cache[x] <==> Entered(f, c0, w'.cache, w'.closed, x, s)
    {
      if x == v {
        AccountsNew(f, c0, root, w, v, w');
      } else {
        AccountsStay(f, c0, w, v, w', x);
      }
    }
  }

  lemma AccountsNew(f: Flow, c0: Cache, root: Id, w: Walk, v: Id, w': Walk)
    requires WellFormed(f) && TablesFit(f, c0, w) && Ledger(f, c0, root, w)
    requires w.stack != [] && v in f.next && v in w.rank && v !in w.cache && Closes(f, w, v, w')
    ensures forall s :: s in w'.cache[v] <==> Entered(f, c0, w'.cache, w'.closed, v, s)
  {
    forall u | u in f.next[v]
      ensures u in w.cache <==> Before(c0, w'.closed, u, v)
    {}
  }

  lemma AccountsStay(f: Flow, c0: Cache, w: Walk, v: Id, w': Walk, x: Id)
    requires WellFormed(f) && Accounts(f, c0, w.cache, w.closed) && x in w.closed && x != v
    requires forall u :: u in w.closed ==> w.closed[u] < |w.closed|
    requires v !in w.cache && v in w'.cache && w'.cache == w.cache[v := w'.cache[v]]
    requires w'.closed == w.closed[v := |w.closed|] && v !in w.closed && v !in c0
    ensures x in f.next && x in w'.cache && x !in c0
    ensures forall s :: s in w'.cache[x] <==> Entered(f, c0, w'.cache, w'.closed, x, s)
  {
    forall u
      ensures Before(c0, w'.closed, u, x) <==> Before(c0, w.closed, u, x)
    {}
    forall s
      ensures Entered(f, c0, w'.cache, w'.closed, x, s) <==> Entered(f, c0, w.cache, w.closed, x, s)
    {}
  }

  /** The waiting values form a path. */
  lemma {:induction false} WaitingPath(f: Flow, c0: Cache, stack: seq<Entry>, a: nat, b: nat)
    requires WellFormed(f) && Segmented(f, stack) && a <= b < |stack| && stack[0].1 && stack[a].1 && stack[b].1
    requires forall k :: 0 <= k < |stack| ==> stack[k].0 in f.next && stack[k].0 !in c0
    ensures ReachesUncached(f, c0.Keys, stack[a].0, stack[b].0)
    decreases b
  {
    if a == b {
      ReachesSelf(f, stack[a].0, c0.Keys);
    } else {
      var m := Nearest(stack, b);
      assert a <= m;
      WaitingPath(f, c0, stack, a, m);
      assert InSegment(f, stack, m, b);
      ReachesThen(f, stack[a].0, stack[m].0, stack[b].0, c0.Keys);
    }
  }

  /** The list when v is about to be closed. */
  ghost predicate AboutToClose(f: Flow, c0: Cache, root: Id, stack: seq<Entry>, v: Id) {
    && stack != [] && stack[0].1 && stack[|stack| - 1] == (v, true)
    && Segmented(f, stack)
    && (forall k :: 0 <= k < |stack| ==> stack[k].0 in f.next && stack[k].0 !in c0)
    && (forall i, k :: 0 <= i < k < |stack| && stack[i].1 && stack[k].1 ==> stack[i].0 != stack[k].0)
    && forall k :: 0 <= k < |stack| && stack[k].1 ==> ReachesUncached(f, c0.Keys, root, stack[k].0)
  }

  /** On a clean part of the graph no neighbour of v waits below it. */
  lemma NoneWaiting(f: Flow, c0: Cache, root: Id, stack: seq<Entry>, b: nat, v: Id)
    requires WellFormed(f) && Clean(f, c0.Keys, root) && AboutToClose(f, c0, root, stack, v)
    requires b < |stack| && stack[b].1
    ensures stack[b].0 in f.next[v] ==> stack[b].0 == v
  {
    var u := stack[b].0;
    if u in f.next[v] && u != v {
      WaitingPath(f, c0, stack, b, |stack| - 1);
      ReachesSelf(f, v, c0.Keys);
      ReachesThen(f, v, v, u, c0.Keys);
    }
  }

  /** Nor was one left further down on the list. */
  lemma NoneLeft(f: Flow, c0: Cache, root: Id, stack: seq<Entry>, k: nat, v: Id)
    requires WellFormed(f) && Clean(f, c0.Keys, root) && AboutToClose(f, c0, root, stack, v)
    requires k < |stack| && !stack[k].1 && forall i :: 0 <= i < |stack| && stack[i].1 ==> stack[i].0 != stack[k].0
    ensures stack[k].0 !in f.next[v]
  {
    var u := stack[k].0;
    if u in f.next[v] {
      var a := Nearest(stack, k);
      var m := NextWaiting(stack, a, k);
      assert InSegment(f, stack, a, m);
      var p, q := stack[a].0, stack[m].0;
      assert Precedes(f.next[p], u, q);
      WaitingPath(f, c0, stack, m, |stack| - 1);
      ReachesThen(f, q, v, u, c0.Keys);
    }
  }

  lemma NextWaiting(stack: seq<Entry>, a: nat, k: nat) returns (m: nat)
    requires NearestBelow(stack, a, k) && !stack[k].1 && stack[|stack| - 1].1
    ensures k < m < |stack| && stack[m].1 && NearestBelow(stack, a, m)
  {
    m := k + 1;
    while !stack[m].1
      invariant k < m < |stack| && forall b :: a < b < m ==> !stack[b].1
      decreases |stack| - m
    {
      m := m + 1;
    }
  }

  /** So all its neighbours, other than itself, are cached. */
  lemma NeighboursCached(f: Flow, c0: Cache, root: Id, w: Walk, v: Id)
    requires WellFormed(f) && Clean(f, c0.Keys, root) && AboutToClose(f, c0, root, w.stack, v) && v in w.rank
    requires (forall x :: x in w.rank && x !in w.cache ==> (x, true) in w.stack)
    requires forall x :: x in c0 ==> x in w.cache
    requires forall k :: 0 <= k < |w.stack| && w.stack[k].1 ==> w.stack[k].0 in w.rank
    requires Closure(f, c0, w)
    ensures forall u :: u in f.next[v] && u != v ==> u in w.cache
  {
    forall u | u in f.next[v] && u != v && u !in w.cache
      ensures false
    {
      if u in w.rank {
        var b :| 0 <= b < |w.stack| && w.stack[b] == (u, true);
        NoneWaiting(f, c0, root, w.stack, b, v);
      } else {
        var k :| 0 <= k < |w.stack| && w.stack[k] == (u, false);
        NoneLeft(f, c0, root, w.stack, k, v);
      }
    }
  }

  lemma ClosedLedger(f: Flow, c0: Cache, root: Id, w: Walk, v: Id, w': Walk)
    requires WellFormed(f) && Shape(f, c0, w) && ClosesInOrder(w) && Segments(f, w) && Closure(f, c0, w)
    requires Justified(f, c0, root, w) && Ledger(f, c0, root, w)
    requires w.stack != [] && v in f.next && Closes(f, w, v, w') && v in w.rank && v !in w.cache
    ensures Ledger(f, c0, root, w')
  {
    ClosedNumbers(f, c0, root, w, v, w');
    ClosedAccounts(f, c0, root, w, v, w');
    if Clean(f, c0.Keys, root) {
      ClosedInTurn(f, c0, root, w, v, w');
    }
  }

  lemma ClosedNumbers(f: Flow, c0: Cache, root: Id, w: Walk, v: Id, w': Walk)
    requires WellFormed(f) && Ledger(f, c0, root, w)
    requires w.stack != [] && v in f.next && Closes(f, w, v, w') && v in w.rank && v !in w.cache
    ensures forall u :: u in w'.closed <==> u in w'.rank && u in w'.cache
    ensures forall u :: u in w'.closed ==> w'.closed[u] < |w'.closed|
  {
    RankSize(w.closed, v);
  }

  lemma ClosedInTurn(f: Flow, c0: Cache, root: Id, w: Walk, v: Id, w': Walk)
    requires WellFormed(f) && Shape(f, c0, w) && ClosesInOrder(w) && Segments(f, w) && Closure(f, c0, w)
    requires Clean(f, c0.Keys, root)
    requires Justified(f, c0, root, w) && Ledger(f, c0, root, w)
    requires w.stack != [] && v in f.next && Closes(f, w, v, w') && v in w.rank && v !in w.cache
    ensures NeighboursFirst(f, c0, w'.closed)
  {
    WaitingReached(f, c0, root, w, v);
    NeighboursCached(f, c0, root, w, v);
    forall u | u in f.next[v] && u != v
      ensures u in c0 || u in w.closed
    {
      assert u in w.cache;
    }
    ClosedLater(f, c0, w, v, w');
  }

  lemma WaitingReached(f: Flow, c0: Cache, root: Id, w: Walk, v: Id)
    requires StackFits(f, c0, w) && ClosesInOrder(w) && Segments(f, w) && v in w.rank
    requires w.stack != [] && w.stack[|w.stack| - 1] == (v, true)
    requires forall x :: x in w.rank ==> ReachesUncached(f, c0.Keys, root, x)
    ensures AboutToClose(f, c0, root, w.stack, v)
  {}

  lemma ClosedLater(f: Flow, c0: Cache, w: Walk, v: Id, w': Walk)
    requires NeighboursFirst(f, c0, w.closed) && v in f.next && w'.closed == w.closed[v := |w.closed|] && v !in w.closed
    requires forall u :: u in w.closed ==> w.closed[u] < |w.closed|
    requires forall u :: u in f.next[v] && u != v ==> u in c0 || u in w.closed
    ensures NeighboursFirst(f, c0, w'.closed)
  {}

  /** Closing a value. */
  lemma Closed(f: Flow, c0: Cache, root: Id, w: Walk, v: Id, w': Walk)
    requires Inv(f, c0, root, w) && w.stack != [] && v in f.next && Closes(f, w, v, w')
    ensures Inv(f, c0, root, w')
    ensures v !in w.cache
  {
    ClosedShape(f, c0, w, v, w');
    PoppedSegments(f, w);
    PoppedClosure(f, c0, w);
    assert w'.stack == Popped(w).stack;
    ClosedTree(f, c0, root, w, v, w');
    ClosedFilled(f, c0, w, v, w');
    ClosedJustified(f, c0, root, w, v, w');
    ClosedLedger(f, c0, root, w, v, w');
  }

  lemma ClosedIsJustified(f: Flow, c0: Cache, root: Id, w: Walk, v: Id, s: Id)
    requires WellFormed(f) && Shape(f, c0, w) && Justified(f, c0, root, w)
    requires v in f.next && v in w.rank && Supplies(f, w.cache, v, s)
    ensures Answer(f, c0, v, s)
  {
    ReachesSelf(f, v, c0.Keys);
    if !Supplies(f, c0, v, s) {
      var u :| u in f.next[v] && u in w.cache && s in w.cache[u];
      assert u !in c0;
      assert Answer(f, c0, u, s);
      var b :| ReachesUncached(f, c0.Keys, u, b) && b in f.next && Supplies(f, c0, b, s);
      ThenReaches(f, v, u, b, c0.Keys);
    }
  }

  /** During a walk, too, the cache holds nothing that its keys do not reach. */
  lemma StaysSound(f: Flow, c0: Cache, root: Id, w: Walk)
    requires WellFormed(f) && Sound(f, c0) && Shape(f, c0, w) && Justified(f, c0, root, w)
    ensures Sound(f, w.cache)
  {
    forall v, s | v in w.cache && s in w.cache[v]
      ensures Exact(f, v, s)
    {
      if v !in c0 {
        AnswerIsSound(f, c0, v, s);
      }
    }
  }
}
