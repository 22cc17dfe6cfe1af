/**
 * `collectNeighborhood`: the value-flow nodes within a distance of the anchors, edges
 * counting in both directions.
 *
 * A predicate that matches on a datatype with one constructor is unfolded by the
 * solver only where its parts are needed.
 */
module Neighborhood {
  import opened Collections
  import opened Graphs

  datatype EdgeKind =
    | IntraDirectVF
    | IntraIndirectVF
    | CallDirVF
    | RetDirVF
    | CallIndVF
    | RetIndVF
    | ThreadMHPIndirectVF
    | OtherVF

  datatype Edge = Edge(src: nat, dst: nat, kind: EdgeKind)

  // The edges that leave and enter each node, each once.
  datatype Graph = Graph(outgoing: map<nat, seq<Edge>>, incoming: map<nat, seq<Edge>>)

  ghost predicate Valid(g: Graph) {
    match g
    case Graph(outgoing, incoming) =>
      && outgoing.Keys == incoming.Keys
      && (forall n <- outgoing :: Distinct(outgoing[n]) &&
            forall e <- outgoing[n] :: e.src == n && e.dst in incoming && e in incoming[e.dst])
      && (forall n <- incoming :: Distinct(incoming[n]) &&
            forall e <- incoming[n] :: e.dst == n && e.src in outgoing && e in outgoing[e.src])
  }

  // The nodes at the other ends of each node's edges.
  function Neighbours(g: Graph): (adj: Adjacency<nat>)
    requires Valid(g)
    ensures adj.Keys == g.outgoing.Keys
  {
    map n | n in g.outgoing :: (set e | e in g.outgoing[n] :: e.dst) + (set e | e in g.incoming[n] :: e.src)
  }

  ghost predicate Closed(adj: Adjacency<nat>) {
    forall n <- adj, m <- adj[n] :: m in adj
  }

  lemma NeighboursClosed(g: Graph)
    requires Valid(g)
    ensures Closed(Neighbours(g))
  {}

  // Whether at most `d` edges, in either direction, separate a node from some anchor.
  ghost predicate Near(adj: Adjacency<nat>, anchors: set<nat>, n: nat, d: nat)
    decreases d
  {
    n in anchors || (d > 0 && exists m :: Near(adj, anchors, m, d - 1) && Joined(adj, m, n))
  }

  lemma {:induction false} NearGrows(adj: Adjacency<nat>, anchors: set<nat>, n: nat, d: nat, e: nat)
    requires d <= e && Near(adj, anchors, n, d)
    ensures Near(adj, anchors, n, e)
    decreases e
  {
    if n !in anchors {
      var m :| Near(adj, anchors, m, d - 1) && Joined(adj, m, n);
      NearGrows(adj, anchors, m, d - 1, e - 1);
    }
  }

  datatype Item = Item(node: nat, level: nat)

  // A run: `levels` gives each selected node the level it was queued at, `done` holds the
  // nodes taken off the queue, the last one at level `at`; `busy` holds it while its edges
  // are being followed.
  datatype Search = Search(
    adj: Adjacency<nat>, anchors: set<nat>, depth: nat,
    levels: map<nat, nat>, done: set<nat>, work: seq<Item>, at: nat, busy: set<nat>)

  // The levels of the queue never fall and span one step at most.
  ghost predicate Ordered(work: seq<Item>, at: nat) {
    && (forall j, k :: 0 <= j < k < |work| ==> work[j].level <= work[k].level)
    && forall k :: 0 <= k < |work| ==> at <= work[k].level <= at + 1
  }

  // The queue holds selected nodes that are not done, each once, with their levels.
  ghost predicate ItemsFit(levels: map<nat, nat>, done: set<nat>, work: seq<Item>) {
    && (forall k :: 0 <= k < |work| ==>
          work[k].node in levels && levels[work[k].node] == work[k].level && work[k].node !in done)
    && forall j, k :: 0 <= j < k < |work| ==> work[j].node != work[k].node
  }

  // Every selected node is done or waits in the queue.
  ghost predicate AllMet(levels: map<nat, nat>, done: set<nat>, work: seq<Item>) {
    && done <= levels.Keys
    && forall n <- levels :: n in done || Item(n, levels[n]) in work
  }

  ghost predicate QueueFits(s: Search) {
    match s
    case Search(_, _, _, levels, done, work, at, busy) =>
      && Ordered(work, at)
      && ItemsFit(levels, done, work)
      && AllMet(levels, done, work)
      && busy <= done
      && forall n <- done :: n in levels && levels[n] <= at
  }

  ghost predicate LevelsFit(s: Search) {
    match s
    case Search(adj, anchors, depth, levels, _, _, _, _) =>
      && Closed(adj) && anchors <= adj.Keys
      && (forall a <- anchors :: a in levels && levels[a] == 0)
      && (forall n <- levels :: n in adj && levels[n] <= depth)
      && (forall n {:trigger Near(adj, anchors, n, levels[n])} | n in levels :: Near(adj, anchors, n, levels[n]))
  }

  // The neighbours of a node that is done are at most one level further.
  ghost predicate DoneFits(s: Search) {
    match s
    case Search(adj, _, depth, levels, done, _, _, busy) =>
      forall n, m :: n in done && n !in busy && n in levels && levels[n] < depth && Joined(adj, n, m) ==>
        m in levels && levels[m] <= levels[n] + 1
  }

  ghost predicate Inv(s: Search) {
    match s
    case Search(_, _, _, _, _, _, _, _) => QueueFits(s) && LevelsFit(s) && DoneFits(s)
  }

  // ---------------------------------------------------------------- taking the front node off the queue

  function Popped(s: Search): Search
    requires s.work != []
  {
    s.(done := s.done + {s.work[0].node}, work := s.work[1..], at := s.work[0].level, busy := {s.work[0].node})
  }

  lemma PoppedMet(s: Search)
    requires AllMet(s.levels, s.done, s.work) && s.work != [] && s.work[0].node in s.levels
    ensures var t := Popped(s); AllMet(t.levels, t.done, t.work)
  {
    var t := Popped(s);
    forall n <- t.levels | n !in t.done
      ensures Item(n, t.levels[n]) in t.work
    {
      var k :| 0 <= k < |s.work| && s.work[k] == Item(n, s.levels[n]);
      assert t.work[k - 1] == s.work[k];
    }
  }

  lemma PoppedQueue(s: Search)
    requires QueueFits(s) && s.work != []
    ensures QueueFits(Popped(s))
  {
    var t := Popped(s);
    assert s.work[0].node in s.levels;
    assert Ordered(t.work, t.at);
    assert ItemsFit(t.levels, t.done, t.work);
    PoppedMet(s);
  }

  lemma Pop(s: Search)
    requires Inv(s) && s.work != [] && s.busy == {}
    ensures Inv(Popped(s))
    ensures s.work[0].node in s.adj
    ensures s.work[0].node !in s.done
    ensures s.work[0].node in s.levels && s.levels[s.work[0].node] == s.work[0].level
  {
    PoppedQueue(s);
    assert s.work[0].node in s.levels;
  }

  // ---------------------------------------------------------------- queueing a neighbour

  function WithNext(s: Search, m: nat): Search {
    s.(levels := s.levels[m := s.at + 1], work := s.work + [Item(m, s.at + 1)])
  }

  lemma QueuedMet(s: Search, m: nat)
    requires AllMet(s.levels, s.done, s.work) && m !in s.levels
    ensures var t := WithNext(s, m); AllMet(t.levels, t.done, t.work)
  {
    var t := WithNext(s, m);
    forall n <- t.levels | n !in t.done
      ensures Item(n, t.levels[n]) in t.work
    {
      if n == m {
        assert t.work[|s.work|] == Item(n, t.levels[n]);
      } else {
        assert Item(n, s.levels[n]) in s.work;
      }
    }
  }

  lemma QueuedQueue(s: Search, m: nat)
    requires QueueFits(s) && m !in s.levels
    ensures QueueFits(WithNext(s, m))
  {
    var t := WithNext(s, m);
    assert Ordered(t.work, t.at);
    assert ItemsFit(t.levels, t.done, t.work);
    QueuedMet(s, m);
  }

  lemma QueuedLevels(s: Search, n: nat, m: nat)
    requires LevelsFit(s) && m !in s.levels
    requires n in s.levels && s.levels[n] == s.at < s.depth && Joined(s.adj, n, m)
    ensures LevelsFit(WithNext(s, m))
  {
    assert Near(s.adj, s.anchors, n, s.levels[n]);
    assert Near(s.adj, s.anchors, m, s.at + 1);
  }

  lemma QueuedDone(s: Search, m: nat)
    requires DoneFits(s) && m !in s.levels && m !in s.done
    ensures DoneFits(WithNext(s, m))
  {}

  lemma Queued(s: Search, n: nat, m: nat)
    requires Inv(s) && s.busy == {n} && m !in s.levels
    requires n in s.levels && s.levels[n] == s.at < s.depth && Joined(s.adj, n, m)
    ensures Inv(WithNext(s, m))
  {
    assert s.done <= s.levels.Keys;
    QueuedQueue(s, m);
    QueuedLevels(s, n, m);
    QueuedDone(s, m);
  }

  // ---------------------------------------------------------------- finishing a node

  lemma LevelsBelow(s: Search, n: nat)
    requires QueueFits(s) && n in s.levels
    ensures s.levels[n] <= s.at + 1
  {
    if n !in s.done {
      var k :| 0 <= k < |s.work| && s.work[k] == Item(n, s.levels[n]);
    }
  }

  // A node is finished once all its neighbours are selected, or when it lies at the limit.
  lemma Finished(s: Search, n: nat)
    requires Inv(s) && s.busy == {n} && n in s.levels && s.levels[n] == s.at
    requires s.at >= s.depth || forall m :: Joined(s.adj, n, m) ==> m in s.levels
    ensures Inv(s.(busy := {}))
  {
    forall m | Joined(s.adj, n, m) && s.at < s.depth
      ensures m in s.levels && s.levels[m] <= s.at + 1
    {
      LevelsBelow(s, m);
    }
    assert DoneFits(s.(busy := {}));
    assert QueueFits(s.(busy := {}));
  }

  // ---------------------------------------------------------------- what the search has found

  lemma {:induction false} AllSelected(s: Search, n: nat, d: nat)
    requires DoneFits(s) && s.busy == {} && (forall m <- s.levels :: m in s.done) && d <= s.depth
    requires forall a <- s.anchors :: a in s.levels && s.levels[a] == 0
    requires Near(s.adj, s.anchors, n, d)
    ensures n in s.levels && s.levels[n] <= d
    decreases d
  {
    if n !in s.anchors {
      var m :| Near(s.adj, s.anchors, m, d - 1) && Joined(s.adj, m, n);
      AllSelected(s, m, d - 1);
    }
  }

  lemma EverythingDone(s: Search)
    requires QueueFits(s) && s.work == []
    ensures forall n <- s.levels :: n in s.done
  {}

  lemma Selected(s: Search)
    requires Inv(s) && s.work == [] && s.busy == {}
    ensures forall n :: n in s.levels <==> Near(s.adj, s.anchors, n, s.depth)
    ensures s.levels.Keys <= s.adj.Keys
  {
    forall n
      ensures n in s.levels <==> Near(s.adj, s.anchors, n, s.depth)
    {
      if n in s.levels { NearGrows(s.adj, s.anchors, n, s.levels[n], s.depth); }
      if Near(s.adj, s.anchors, n, s.depth) {
        EverythingDone(s);
        AllSelected(s, n, s.depth);
      }
    }
  }

  // ---------------------------------------------------------------- the search as it runs

  // The state that belongs to the program variables while the edges of `node` are followed.
  ghost predicate Following(s: Search, node: nat, level: nat, depth: nat, selected: set<nat>, work: seq<Item>) {
    match s
    case Search(_, _, limit, levels, _, queue, at, busy) =>
      && Inv(s)
      && limit == depth && at == level && busy == {node}
      && node in levels && levels[node] == level
      && queue == work && levels.Keys == selected
  }

  // Two searches that differ in the nodes selected and queued only.
  predicate SameSearch(s: Search, t: Search) {
    t == s.(levels := t.levels, work := t.work)
  }

  // Offers one neighbour of the node whose edges are followed.
  method Offer(m: nat, node: nat, level: nat, depth: nat, selected: set<nat>, work: seq<Item>, ghost s: Search)
    returns (selected': set<nat>, work': seq<Item>, ghost t: Search)
    requires Following(s, node, level, depth, selected, work) && level < depth && Joined(s.adj, node, m)
    ensures Following(t, node, level, depth, selected', work') && SameSearch(s, t)
    ensures selected <= selected' && m in selected'
  {
    selected', work', t := selected, work, s;
    if m !in selected {
      Queued(s, node, m);
      selected' := selected + {m};
      work' := work + [Item(m, level + 1)];
      t := WithNext(s, m);
    }
  }

  // Offers the far ends of some edges of the node, in order.
  method OfferAll(ends: seq<nat>, node: nat, level: nat, depth: nat, selected: set<nat>, work: seq<Item>,
                  ghost s: Search)
    returns (selected': set<nat>, work': seq<Item>, ghost t: Search)
    requires Following(s, node, level, depth, selected, work) && level < depth
    requires forall m <- ends :: Joined(s.adj, node, m)
    ensures Following(t, node, level, depth, selected', work') && SameSearch(s, t)
    ensures selected <= selected' && forall m <- ends :: m in selected'
  {
    selected', work', t := selected, work, s;
    for i := 0 to |ends|
      invariant Following(t, node, level, depth, selected', work') && SameSearch(s, t)
      invariant selected <= selected' && forall k :: 0 <= k < i ==> ends[k] in selected'
    {
      selected', work', t := Offer(ends[i], node, level, depth, selected', work', t);
    }
  }

  function Targets(edges: seq<Edge>): (r: seq<nat>)
    ensures forall m :: m in r <==> exists e <- edges :: e.dst == m
  {
    if edges == [] then [] else [edges[0].dst] + Targets(edges[1..])
  }

  function Sources(edges: seq<Edge>): (r: seq<nat>)
    ensures forall m :: m in r <==> exists e <- edges :: e.src == m
  {
    if edges == [] then [] else [edges[0].src] + Sources(edges[1..])
  }

  lemma EndsAreNeighbours(g: Graph, n: nat)
    requires Valid(g) && n in g.outgoing
    ensures forall m :: Joined(Neighbours(g), n, m) <==> m in Targets(g.outgoing[n]) || m in Sources(g.incoming[n])
  {}

  // Follows the edges of a node: those that leave it, then those that enter it.
  method FollowEdges(g: Graph, node: nat, level: nat, depth: nat, selected: set<nat>, work: seq<Item>, ghost s: Search)
    returns (selected': set<nat>, work': seq<Item>, ghost t: Search)
    requires Following(s, node, level, depth, selected, work) && level < depth
    requires Valid(g) && s.adj == Neighbours(g) && node in g.outgoing
    ensures Following(t, node, level, depth, selected', work') && SameSearch(s, t)
    ensures forall m :: Joined(s.adj, node, m) ==> m in selected'
  {
    EndsAreNeighbours(g, node);
    selected', work', t := OfferAll(Targets(g.outgoing[node]), node, level, depth, selected, work, s);
    selected', work', t := OfferAll(Sources(g.incoming[node]), node, level, depth, selected', work', t);
  }

  // Takes the front node off the queue and follows its edges, unless it lies at the limit.
  method Follow(g: Graph, depth: nat, selected: set<nat>, work: seq<Item>, ghost s: Search)
    returns (selected': set<nat>, work': seq<Item>, ghost t: Search)
    requires Valid(g) && s.adj == Neighbours(g) && s.depth == depth
    requires Inv(s) && s.busy == {} && s.work == work != [] && selected == s.levels.Keys
    ensures Inv(t) && t.busy == {} && t.adj == s.adj && t.depth == depth && t.anchors == s.anchors
    ensures t.work == work' && selected' == t.levels.Keys
    ensures work[0].node in g.outgoing && work[0].node !in s.done && t.done == s.done + {work[0].node}
  {
    Pop(s);
    var node, level := work[0].node, work[0].level;
    selected', work' := selected, work[1..];
    t := Popped(s);
    if level < depth {
      selected', work', t := FollowEdges(g, node, level, depth, selected', work', t);
    }
    Finished(t, node);
    t := t.(busy := {});
  }

  // ---------------------------------------------------------------- the anchors

  ghost predicate AnchorsQueued(adj: Adjacency<nat>, depth: nat, met: seq<nat>, levels: map<nat, nat>,
                                work: seq<Item>) {
    && levels.Keys == Elements(met)
    && (forall n <- levels :: levels[n] == 0)
    && Inv(Search(adj, levels.Keys, depth, levels, {}, work, 0, {}))
  }

  lemma AnchorMet(levels: map<nat, nat>, work: seq<Item>, a: nat)
    requires AllMet(levels, {}, work) && a !in levels
    ensures AllMet(levels[a := 0], {}, work + [Item(a, 0)])
  {
    var more := work + [Item(a, 0)];
    assert more[|work|] == Item(a, 0);
    assert forall i <- work :: i in more;
  }

  lemma AnchorSearch(s: Search, a: nat)
    requires Inv(s) && s.done == {} && s.at == 0 && s.busy == {} && (forall n <- s.levels :: s.levels[n] == 0)
    requires s.anchors == s.levels.Keys && a !in s.levels && a in s.adj
    ensures var more := s.levels[a := 0];
      Inv(Search(s.adj, more.Keys, s.depth, more, {}, s.work + [Item(a, 0)], 0, {}))
  {
    var more := s.levels[a := 0];
    var t := Search(s.adj, more.Keys, s.depth, more, {}, s.work + [Item(a, 0)], 0, {});
    AnchorMet(s.levels, s.work, a);
    assert ItemsFit(t.levels, {}, t.work);
    assert Ordered(t.work, 0);
    AnchorLevels(s, a);
  }

  lemma AnchorLevels(s: Search, a: nat)
    requires LevelsFit(s) && (forall n <- s.levels :: s.levels[n] == 0) && a in s.adj
    ensures var more := s.levels[a := 0];
      LevelsFit(Search(s.adj, more.Keys, s.depth, more, {}, s.work + [Item(a, 0)], 0, {}))
  {}

  lemma AnchorQueued(adj: Adjacency<nat>, depth: nat, met: seq<nat>, levels: map<nat, nat>, work: seq<Item>, a: nat)
    requires AnchorsQueued(adj, depth, met, levels, work) && a in adj
    ensures a in levels ==> AnchorsQueued(adj, depth, met + [a], levels, work)
    ensures a !in levels ==> AnchorsQueued(adj, depth, met + [a], levels[a := 0], work + [Item(a, 0)])
  {
    assert Elements(met + [a]) == Elements(met) + {a};
    if a !in levels {
      AnchorSearch(Search(adj, levels.Keys, depth, levels, {}, work, 0, {}), a);
      assert levels[a := 0].Keys == levels.Keys + {a};
    }
  }

  // Queues the anchors; repeated ones count once.
  method Start(ghost adj: Adjacency<nat>, anchors: seq<nat>, depth: nat)
    returns (selected: set<nat>, work: seq<Item>, ghost s: Search)
    requires Closed(adj) && forall a <- anchors :: a in adj
    ensures Inv(s) && s.adj == adj && s.depth == depth && s.busy == {}
    ensures s.anchors == Elements(anchors) && s.work == work && s.levels.Keys == selected
  {
    selected, work := {}, [];
    ghost var levels: map<nat, nat> := map[];
    for i := 0 to |anchors|
      invariant selected == levels.Keys && AnchorsQueued(adj, depth, anchors[..i], levels, work)
    {
      var anchor := anchors[i];
      assert anchors[..i + 1] == anchors[..i] + [anchor];
      AnchorQueued(adj, depth, anchors[..i], levels, work, anchor);
      if anchor !in selected {
        levels := levels[anchor := 0];
        selected := selected + {anchor};
        work := work + [Item(anchor, 0)];
      }
    }
    assert anchors[..|anchors|] == anchors;
    s := Search(adj, levels.Keys, depth, levels, {}, work, 0, {});
  }

  method CollectNeighborhood(g: Graph, anchors: seq<nat>, depth: nat) returns (selected: set<nat>)
    requires Valid(g) && forall a <- anchors :: a in g.outgoing
    ensures selected <= g.outgoing.Keys
    ensures forall n :: n in selected <==> Near(Neighbours(g), Elements(anchors), n, depth)
  {
    ghost var adj := Neighbours(g);
    NeighboursClosed(g);
    var work: seq<Item>;
    ghost var s: Search;
    selected, work, s := Start(adj, anchors, depth);
    ghost var start := s.anchors;
    while work != []
      invariant s.adj == adj && s.anchors == start && s.depth == depth && s.work == work
      invariant selected == s.levels.Keys && s.busy == {} && Inv(s)
      decreases |adj.Keys - s.done|
    {
      ghost var before, node := s, work[0].node;
      selected, work, s := Follow(g, depth, selected, work, s);
      OneLess(adj.Keys, before.done, node);
    }
    Selected(s);
  }
}
