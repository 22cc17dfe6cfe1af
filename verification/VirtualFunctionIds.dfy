/**
 * `buildVirtualFunctionToIDMap`: classes are divided into connected groups, and the virtual
 * functions of a group get consecutive ids in the order of their demangled names.
 *
 * Classes and functions are numbers; a demangled name is the rank of the string.
 *
 * A predicate that matches on a datatype with one constructor is unfolded by the
 * solver only where its parts are needed.
 */
module VirtualFunctionIds {
  import opened Collections
  import opened Graphs

  datatype Graph = Graph(
    order: seq<nat>,
    outgoing: map<nat, set<nat>>,
    incoming: map<nat, set<nat>>,
    virtuals: map<nat, set<nat>>,
    name: map<nat, nat>)

  ghost predicate Valid(g: Graph) {
    match g
    case Graph(order, outgoing, incoming, virtuals, name) =>
      && outgoing.Keys == incoming.Keys && outgoing.Keys == virtuals.Keys
      && (forall n <- order :: n in outgoing)
      && (forall n <- outgoing :: n in order)
      && (forall a <- outgoing, b <- outgoing[a] :: b in incoming && a in incoming[b])
      && (forall b <- incoming, a <- incoming[b] :: a in outgoing && b in outgoing[a])
      && forall n <- virtuals, f <- virtuals[n] :: f in name
  }

  // The classes at the other ends of each class's edges.
  function Neighbours(g: Graph): (adj: Adjacency<nat>)
    requires Valid(g)
    ensures adj.Keys == g.outgoing.Keys
  {
    map n | n in g.outgoing :: g.outgoing[n] + g.incoming[n]
  }

  ghost predicate Symmetric(adj: Adjacency<nat>) {
    forall a, b :: a in adj && b in adj[a] ==> b in adj && a in adj[b]
  }

  lemma NeighboursSymmetric(g: Graph)
    requires Valid(g)
    ensures Symmetric(Neighbours(g))
  {}

  ghost predicate Closed(adj: Adjacency<nat>, s: set<nat>) {
    forall a, b :: a in s && a in adj && b in adj[a] ==> b in s
  }

  // No more than every closed set with `n` holds.
  ghost predicate Least(adj: Adjacency<nat>, n: nat, group: set<nat>) {
    forall t: set<nat> {:trigger Closed(adj, t)} :: n in t && Closed(adj, t) ==> group <= t
  }

  // The least set of classes with `n` that is closed under edges in both directions.
  ghost predicate IsGroup(adj: Adjacency<nat>, n: nat, group: set<nat>) {
    && n in group
    && Closed(adj, group)
    && Least(adj, n, group)
  }

  // What closed groups leave is closed.
  lemma RestIsClosed(adj: Adjacency<nat>, before: set<nat>)
    requires Symmetric(adj) && Closed(adj, before)
    ensures Closed(adj, adj.Keys - before)
  {}

  // A search for the group of `n`: `before` holds the classes of earlier groups, `seen` those
  // visited since.
  datatype Search = Search(adj: Adjacency<nat>, n: nat, before: set<nat>, seen: set<nat>, group: set<nat>,
                           stack: seq<nat>)

  ghost predicate Inv(s: Search) {
    match s
    case Search(adj, n, before, seen, group, stack) =>
      && Symmetric(adj) && Closed(adj, before) && n in adj && n !in before
      && (n in seen || n in stack)
      && seen <= group
      && (forall x <- group :: x in seen || x in stack)
      && (forall x <- stack :: x == n || x in group)
      && (forall x, y :: x in seen && x in adj && y in adj[x] ==> y in group)
      && Least(adj, n, group)
  }

  lemma FreshClasses(s: Search)
    requires Inv(s)
    ensures forall x <- s.stack :: x in s.adj && x !in s.before
    ensures forall x <- s.group :: x in s.adj && x !in s.before
  {
    RestIsClosed(s.adj, s.before);
    assert s.group <= s.adj.Keys - s.before;
  }

  // Takes `cur` off the stack; a class visited for the first time brings in its neighbours.
  function After(s: Search, rest: seq<nat>, cur: nat, next: seq<nat>): Search {
    if cur in s.seen then s.(group := s.group + {cur}, stack := rest)
    else s.(seen := s.seen + {cur}, group := s.group + {cur} + Elements(next), stack := rest + next)
  }

  lemma StillLeast(adj: Adjacency<nat>, n: nat, group: set<nat>, cur: nat, next: set<nat>)
    requires Least(adj, n, group) && (cur == n || cur in group) && cur in adj && next == adj[cur]
    ensures Least(adj, n, group + {cur} + next) && Least(adj, n, group + {cur})
  {
    forall t: set<nat> | n in t && Closed(adj, t)
      ensures group + {cur} + next <= t
    {
      assert group <= t;
    }
  }

  lemma Stepped(s: Search, rest: seq<nat>, cur: nat, next: seq<nat>)
    requires Inv(s) && s.stack == rest + [cur] && cur in s.adj && Elements(next) == s.adj[cur]
    ensures Inv(After(s, rest, cur, next))
  {
    assert cur in s.stack;
    assert forall x <- s.stack :: x in rest || x == cur;
    assert forall x <- rest :: x in s.stack;
    StillLeast(s.adj, s.n, s.group, cur, Elements(next));
    if cur in s.seen {
      assert s.group + {cur} == s.group;
    } else {
      SteppedIn(s, rest, cur, next);
    }
  }

  lemma SteppedIn(s: Search, rest: seq<nat>, cur: nat, next: seq<nat>)
    requires Inv(s) && (forall x <- s.stack :: x in rest || x == cur)
    requires (forall x <- rest :: x in s.stack) && cur in s.stack
    requires cur in s.adj && Elements(next) == s.adj[cur]
    requires Least(s.adj, s.n, s.group + {cur} + Elements(next)) && cur !in s.seen
    ensures Inv(After(s, rest, cur, next))
  {
    var a := After(s, rest, cur, next);
    assert forall x <- a.stack :: x in rest || x in next;
    assert forall x <- rest :: x in a.stack;
    assert forall x <- next :: x in a.stack;
  }

  lemma GroupFound(s: Search)
    requires Inv(s) && s.stack == []
    ensures IsGroup(s.adj, s.n, s.group) && s.seen == s.group
    ensures Closed(s.adj, s.before + s.group)
  {}

  // ---------------------------------------------------------------- ids

  // A group's functions in the order they are numbered, and the number of the first.
  datatype Run = Run(first: nat, order: seq<nat>)

  predicate Sorted(g: Graph, order: seq<nat>)
    requires forall f <- order :: f in g.name
  {
    && (forall i, j :: 0 <= i < j < |order| ==> order[i] != order[j])
    && forall i, j :: 0 <= i < j < |order| ==> g.name[order[i]] <= g.name[order[j]]
  }

  function Functions(g: Graph, group: set<nat>): set<nat>
    requires forall n <- group :: n in g.virtuals
  {
    set n, f | n in group && f in g.virtuals[n] :: f
  }

  // Whether no run from `t` on numbers the function.
  predicate NotFrom(runs: seq<Run>, t: nat, f: nat) {
    forall u :: t <= u < |runs| ==> f !in runs[u].order
  }

  // The ids are below the next one and distinct; a function that no later run numbers has
  // the id of its place in its run.
  ghost predicate IdsFit(g: Graph, runs: seq<Run>, ids: map<nat, nat>, next: nat) {
    match g
    case Graph(_, _, _, _, name) =>
      && (forall f <- ids :: ids[f] < next)
      && (forall e, f :: e in ids && f in ids && e != f ==> ids[e] != ids[f])
      && (forall t :: 0 <= t < |runs| ==> forall f <- runs[t].order :: f in name && f in ids)
      && (forall t :: 0 <= t < |runs| ==> Sorted(g, runs[t].order))
      && (forall f <- ids :: !NotFrom(runs, 0, f))
      && forall t, i :: 0 <= t < |runs| && 0 <= i < |runs[t].order| && NotFrom(runs, t + 1, runs[t].order[i]) ==>
        ids[runs[t].order[i]] == runs[t].first + i
  }

  // The map after a run has been numbered from `next` on.
  ghost predicate Numbered(ids: map<nat, nat>, next: nat, order: seq<nat>, after: map<nat, nat>) {
    && (forall f :: f in after <==> f in ids || f in order)
    && (forall f <- ids :: f !in order ==> after[f] == ids[f])
    && forall i :: 0 <= i < |order| ==> after[order[i]] == next + i
  }

  lemma NotFromMore(runs: seq<Run>, run: Run, t: nat, f: nat)
    requires t <= |runs|
    ensures NotFrom(runs + [run], t, f) <==> NotFrom(runs, t, f) && f !in run.order
  {
    assert (runs + [run])[|runs|] == run;
    assert forall u :: 0 <= u < |runs| ==> (runs + [run])[u] == runs[u];
  }

  lemma RunDistinct(g: Graph, runs: seq<Run>, ids: map<nat, nat>, next: nat, order: seq<nat>, after: map<nat, nat>)
    requires IdsFit(g, runs, ids, next) && Numbered(ids, next, order, after)
    requires (forall f <- order :: f in g.name) && Sorted(g, order)
    ensures forall f <- after :: after[f] < next + |order|
    ensures forall e, f :: e in after && f in after && e != f ==> after[e] != after[f]
  {
    forall f <- after
      ensures if f in order then next <= after[f] < next + |order| else f in ids && after[f] == ids[f] < next
    {
      if f in order {
        var i :| 0 <= i < |order| && order[i] == f;
      }
    }
    forall e, f | e in after && f in after && e != f
      ensures after[e] != after[f]
    {
      if e in order && f in order {
        var i :| 0 <= i < |order| && order[i] == e;
        var j :| 0 <= j < |order| && order[j] == f;
      }
    }
  }

  lemma RunPlaces(g: Graph, runs: seq<Run>, ids: map<nat, nat>, next: nat, order: seq<nat>, after: map<nat, nat>,
                  t: nat, i: nat)
    requires IdsFit(g, runs, ids, next) && Numbered(ids, next, order, after)
    requires var more := runs + [Run(next, order)];
      t < |more| && i < |more[t].order| && NotFrom(more, t + 1, more[t].order[i])
    ensures var more := runs + [Run(next, order)];
      more[t].order[i] in after && after[more[t].order[i]] == more[t].first + i
  {
    var run := Run(next, order);
    if t < |runs| {
      var f := runs[t].order[i];
      NotFromMore(runs, run, t + 1, f);
      assert f in runs[t].order;
    }
  }

  lemma RunAdded(g: Graph, runs: seq<Run>, ids: map<nat, nat>, next: nat, order: seq<nat>, after: map<nat, nat>)
    requires IdsFit(g, runs, ids, next) && Numbered(ids, next, order, after)
    requires (forall f <- order :: f in g.name) && Sorted(g, order)
    ensures IdsFit(g, runs + [Run(next, order)], after, next + |order|)
  {
    var run := Run(next, order);
    var more := runs + [run];
    RunDistinct(g, runs, ids, next, order, after);
    forall t, i | 0 <= t < |more| && 0 <= i < |more[t].order| && NotFrom(more, t + 1, more[t].order[i])
      ensures more[t].order[i] in after && after[more[t].order[i]] == more[t].first + i
    {
      RunPlaces(g, runs, ids, next, order, after, t, i);
    }
    forall f <- after
      ensures !NotFrom(more, 0, f)
    {
      NotFromMore(runs, run, 0, f);
    }
  }

  // Within a run, functions with one name that no later run numbers have ids without a gap.
  lemma Consecutive(g: Graph, runs: seq<Run>, ids: map<nat, nat>, next: nat, t: nat, e: nat, f: nat, c: nat)
    requires IdsFit(g, runs, ids, next) && t < |runs|
    requires e in runs[t].order && f in runs[t].order && g.name[e] == g.name[f]
    requires forall x <- runs[t].order :: g.name[x] == g.name[e] ==> NotFrom(runs, t + 1, x)
    requires ids[e] <= c <= ids[f]
    ensures exists x <- runs[t].order :: g.name[x] == g.name[e] && ids[x] == c
  {
    var order, first := runs[t].order, runs[t].first;
    assert Sorted(g, order);
    var i :| 0 <= i < |order| && order[i] == e;
    var j :| 0 <= j < |order| && order[j] == f;
    assert NotFrom(runs, t + 1, order[i]) && NotFrom(runs, t + 1, order[j]);
    var k := c - first;
    BetweenSame(g, order, i, k, j);
    var x := order[k];
    assert x in order && NotFrom(runs, t + 1, x);
    assert ids[x] == c;
  }

  lemma BetweenSame(g: Graph, order: seq<nat>, i: nat, k: nat, j: nat)
    requires (forall f <- order :: f in g.name) && Sorted(g, order)
    requires i <= k <= j < |order| && g.name[order[i]] == g.name[order[j]]
    ensures g.name[order[k]] == g.name[order[i]]
  {}

  lemma {:induction false} LeastName(g: Graph, fs: set<nat>) returns (f: nat)
    requires fs != {} && forall x <- fs :: x in g.name
    ensures f in fs && forall x <- fs :: g.name[f] <= g.name[x]
    decreases |fs|
  {
    f :| f in fs;
    var rest := fs - {f};
    if rest != {} {
      var l := LeastName(g, rest);
      assert forall x <- fs :: x == f || x in rest;
      if g.name[l] < g.name[f] { f := l; }
    } else {
      assert forall x <- fs :: x == f || x in rest;
    }
  }

  // The order in which a set of name-function pairs is iterated over.
  method InNameOrder(g: Graph, fs: set<nat>) returns (order: seq<nat>)
    requires forall f <- fs :: f in g.name
    ensures (forall f :: f in order <==> f in fs) && Sorted(g, order)
  {
    order := [];
    var left := fs;
    while left != {}
      invariant left <= fs && forall f :: f in order <==> f in fs && f !in left
      invariant Sorted(g, order) && forall i, f :: 0 <= i < |order| && f in left ==> g.name[order[i]] <= g.name[f]
      decreases |left|
    {
      ghost var least := LeastName(g, left);
      var f :| f in left && forall x <- left :: g.name[f] <= g.name[x];
      left := left - {f};
      order := order + [f];
    }
  }

  // The search that belongs to the program variables.
  ghost predicate Searching(adj: Adjacency<nat>, s: Search, stack: seq<nat>, group: set<nat>, visited: set<nat>) {
    match s
    case Search(h, _, before, seen, found, list) =>
      Inv(s) && h == adj && list == stack && found == group && visited == before + seen
  }

  lemma SearchedOn(adj: Adjacency<nat>, s: Search, stack: seq<nat>, group: set<nat>, visited: set<nat>,
                   rest: seq<nat>, cur: nat, next: seq<nat>)
    requires Searching(adj, s, stack, group, visited) && stack == rest + [cur]
    requires cur in adj && Elements(next) == adj[cur]
    ensures cur in visited <==> cur in s.seen
    ensures cur in visited ==> Searching(adj, After(s, rest, cur, next), rest, group + {cur}, visited)
    ensures cur !in visited ==>
      Searching(adj, After(s, rest, cur, next), rest + next, group + {cur} + Elements(next), visited + {cur})
  {
    FreshClasses(s);
    assert cur in stack;
    Stepped(s, rest, cur, next);
    assert s.before + (s.seen + {cur}) == visited + {cur};
  }

  lemma TopIsClass(adj: Adjacency<nat>, s: Search, stack: seq<nat>, group: set<nat>, visited: set<nat>)
    requires Searching(adj, s, stack, group, visited) && stack != []
    ensures stack[|stack| - 1] in adj
  {
    FreshClasses(s);
    assert stack[|stack| - 1] in stack;
  }

  // The groups are disjoint and hold exactly the classes visited.
  ghost predicate Partition(groups: seq<set<nat>>, visited: set<nat>) {
    && (forall t, u :: 0 <= t < u < |groups| ==> groups[t] !! groups[u])
    && (forall t :: 0 <= t < |groups| ==> groups[t] <= visited)
    && forall n <- visited :: InSome(groups, n)
  }

  predicate InSome(groups: seq<set<nat>>, n: nat) {
    exists t :: 0 <= t < |groups| && n in groups[t]
  }

  ghost predicate SomeGroup(adj: Adjacency<nat>, group: set<nat>) {
    exists n :: IsGroup(adj, n, group)
  }

  ghost predicate AreGroups(adj: Adjacency<nat>, groups: seq<set<nat>>) {
    forall t :: 0 <= t < |groups| ==> SomeGroup(adj, groups[t])
  }

  // Each run numbers the virtual functions of one group.
  ghost predicate RunsFit(g: Graph, groups: seq<set<nat>>, runs: seq<Run>) {
    && |groups| == |runs|
    && forall t :: 0 <= t < |groups| ==> groups[t] <= g.virtuals.Keys && RunOf(g, groups[t], runs[t])
  }

  predicate RunOf(g: Graph, group: set<nat>, run: Run)
    requires group <= g.virtuals.Keys
  {
    Elements(run.order) == Functions(g, group)
  }

  lemma PartitionMore(groups: seq<set<nat>>, visited: set<nat>, group: set<nat>)
    requires Partition(groups, visited) && group !! visited
    ensures Partition(groups + [group], visited + group)
  {
    var more := groups + [group];
    assert more[|groups|] == group;
    forall n <- visited + group
      ensures InSome(more, n)
    {
      if n in visited {
        var t :| 0 <= t < |groups| && n in groups[t];
        assert n in more[t];
      }
    }
  }

  lemma AreGroupsMore(adj: Adjacency<nat>, groups: seq<set<nat>>, n: nat, group: set<nat>)
    requires AreGroups(adj, groups) && IsGroup(adj, n, group)
    ensures AreGroups(adj, groups + [group])
  {
    assert SomeGroup(adj, group);
  }

  lemma SearchStarts(adj: Adjacency<nat>, n: nat, visited: set<nat>)
    requires Symmetric(adj) && n in adj && n !in visited && Closed(adj, visited)
    ensures Searching(adj, Search(adj, n, visited, {}, {}, [n]), [n], {}, visited)
  {
    assert visited + {} == visited;
    assert Least(adj, n, {});
  }

  lemma SearchEnds(adj: Adjacency<nat>, s: Search, group: set<nat>, visited: set<nat>)
    requires Searching(adj, s, [], group, visited)
    ensures IsGroup(adj, s.n, group) && visited == s.before + group && Closed(adj, visited)
    ensures group <= adj.Keys && group !! s.before
  {
    GroupFound(s);
    FreshClasses(s);
  }

  // What the builder keeps between groups; the classes visited so far are those of whole groups.
  datatype Progress = Progress(
    g: Graph, adj: Adjacency<nat>, visited: set<nat>, groups: seq<set<nat>>, runs: seq<Run>,
    ids: map<nat, nat>, next: nat)

  ghost predicate Kept(p: Progress) {
    match p
    case Progress(g, adj, visited, groups, runs, ids, next) =>
      && Closed(adj, visited) && visited <= adj.Keys
      && Partition(groups, visited) && AreGroups(adj, groups) && RunsFit(g, groups, runs)
      && IdsFit(g, runs, ids, next)
  }

  lemma RunsFitMore(g: Graph, groups: seq<set<nat>>, runs: seq<Run>, group: set<nat>, run: Run)
    requires RunsFit(g, groups, runs) && group <= g.virtuals.Keys && RunOf(g, group, run)
    ensures RunsFit(g, groups + [group], runs + [run])
  {}

  lemma KeptMore(p: Progress, q: Progress, n: nat, group: set<nat>, run: Run)
    requires Kept(p) && IsGroup(p.adj, n, group) && group !! p.visited
    requires group <= p.adj.Keys && group <= p.g.virtuals.Keys
    requires Closed(p.adj, q.visited) && q.visited == p.visited + group
    requires RunOf(p.g, group, run) && IdsFit(p.g, p.runs + [run], q.ids, q.next)
    requires q.g == p.g && q.adj == p.adj && q.groups == p.groups + [group] && q.runs == p.runs + [run]
    ensures Kept(q)
  {
    PartitionMore(p.groups, p.visited, group);
    AreGroupsMore(p.adj, p.groups, n, group);
    RunsFitMore(p.g, p.groups, p.runs, group, run);
  }

  lemma KeptAtStart(g: Graph, adj: Adjacency<nat>, next: nat)
    ensures Kept(Progress(g, adj, {}, [], [], map[], next))
  {
    assert IdsFit(g, [], map[], next);
  }

  lemma KeptParts(p: Progress)
    requires Kept(p)
    ensures Closed(p.adj, p.visited) && p.visited <= p.adj.Keys && IdsFit(p.g, p.runs, p.ids, p.next)
    ensures Partition(p.groups, p.visited) && AreGroups(p.adj, p.groups) && RunsFit(p.g, p.groups, p.runs)
  {}

  class Numbering {
    const g: Graph
    var virtualFunctionToIDMap: map<nat, nat>
    var vfID: nat

    constructor (g: Graph)
      ensures this.g == g && virtualFunctionToIDMap == map[] && vfID == 0
    {
      this.g := g;
      virtualFunctionToIDMap, vfID := map[], 0;
    }

    // One turn of the search: the class on top of the stack.
    method VisitClass(ghost adj: Adjacency<nat>, stack: seq<nat>, group: set<nat>, visited: set<nat>, ghost s: Search)
      returns (stack': seq<nat>, group': set<nat>, visited': set<nat>, ghost t: Search)
      requires Valid(g) && adj == Neighbours(g)
      requires Searching(adj, s, stack, group, visited) && stack != []
      ensures Searching(adj, t, stack', group', visited') && t.before == s.before && t.n == s.n
      ensures |adj.Keys - t.seen| < |adj.Keys - s.seen| || (t.seen == s.seen && |stack'| < |stack|)
    {
      TopIsClass(adj, s, stack, group, visited);
      var cur, rest := stack[|stack| - 1], stack[..|stack| - 1];
      var next := Listed(g.outgoing[cur]);
      var into := Listed(g.incoming[cur]);
      next := next + into;
      assert stack == rest + [cur] && Elements(next) == adj[cur];
      SearchedOn(adj, s, stack, group, visited, rest, cur, next);
      t := After(s, rest, cur, next);
      if cur in visited {
        stack', group', visited' := rest, group + {cur}, visited;
      } else {
        OneLess(adj.Keys, s.seen, cur);
        stack', group', visited' := rest + next, group + {cur} + Elements(next), visited + {cur};
      }
    }

    method FindGroup(ghost adj: Adjacency<nat>, n: nat, visited: set<nat>) returns (group: set<nat>, visited': set<nat>)
      requires Valid(g) && adj == Neighbours(g)
      requires n in adj && n !in visited && Closed(adj, visited)
      ensures IsGroup(adj, n, group) && visited' == visited + group && Closed(adj, visited')
      ensures group <= adj.Keys && group !! visited
    {
      NeighboursSymmetric(g);
      group, visited' := {}, visited;
      var stack := [n];
      ghost var s := Search(adj, n, visited, {}, {}, stack);
      SearchStarts(adj, n, visited);
      while stack != []
        invariant Searching(adj, s, stack, group, visited') && s.n == n && s.before == visited
        decreases |adj.Keys - s.seen|, |stack|
      {
        stack, group, visited', s := VisitClass(adj, stack, group, visited', s);
      }
      SearchEnds(adj, s, group, visited');
    }

    method NumberRun(order: seq<nat>)
      requires forall i, j :: 0 <= i < j < |order| ==> order[i] != order[j]
      modifies this
      ensures Numbered(old(virtualFunctionToIDMap), old(vfID), order, virtualFunctionToIDMap)
      ensures vfID == old(vfID) + |order|
    {
      for i := 0 to |order|
        invariant vfID == old(vfID) + i
        invariant Numbered(old(virtualFunctionToIDMap), old(vfID), order[..i], virtualFunctionToIDMap)
      {
        assert order[..i + 1] == order[..i] + [order[i]];
        virtualFunctionToIDMap := virtualFunctionToIDMap[order[i] := vfID];
        vfID := vfID + 1;
      }
      assert order[..|order|] == order;
    }

    ghost function P(adj: Adjacency<nat>, visited: set<nat>, groups: seq<set<nat>>, runs: seq<Run>): Progress
      reads this
    {
      Progress(g, adj, visited, groups, runs, virtualFunctionToIDMap, vfID)
    }

    method NumberFunctions(group: set<nat>, ghost runs: seq<Run>) returns (ghost run: Run)
      requires Valid(g) && group <= g.virtuals.Keys && IdsFit(g, runs, virtualFunctionToIDMap, vfID)
      modifies this
      ensures RunOf(g, group, run) && IdsFit(g, runs + [run], virtualFunctionToIDMap, vfID)
    {
      var order := InNameOrder(g, Functions(g, group));
      NumberRun(order);
      RunAdded(g, runs, old(virtualFunctionToIDMap), old(vfID), order, virtualFunctionToIDMap);
      run := Run(old(vfID), order);
    }

    // Numbers the virtual functions of the group of a class, unless it is in a group already.
    method NumberGroup(ghost adj: Adjacency<nat>, node: nat, visited: set<nat>, ghost groups: seq<set<nat>>,
                       ghost runs: seq<Run>)
      returns (visited': set<nat>, ghost groups': seq<set<nat>>, ghost runs': seq<Run>)
      requires Valid(g) && adj == Neighbours(g) && adj.Keys == g.virtuals.Keys
      requires Kept(P(adj, visited, groups, runs)) && node in adj
      modifies this
      ensures Kept(P(adj, visited', groups', runs')) && visited <= visited' && node in visited'
      ensures visited' <= adj.Keys
    {
      visited', groups', runs' := visited, groups, runs;
      ghost var p := P(adj, visited, groups, runs);
      KeptParts(p);
      if node !in visited {
        var group;
        group, visited' := FindGroup(adj, node, visited);
        ghost var run := NumberFunctions(group, runs);
        groups', runs' := groups + [group], runs + [run];
        KeptMore(p, P(adj, visited', groups', runs'), node, group, run);
      }
    }

    method BuildVirtualFunctionToIDMap() returns (ghost groups: seq<set<nat>>, ghost runs: seq<Run>)
      requires Valid(g) && virtualFunctionToIDMap == map[]
      modifies this
      ensures Kept(P(Neighbours(g), g.outgoing.Keys, groups, runs))
    {
      var visited: set<nat> := {};
      ghost var adj := Neighbours(g);
      groups, runs := [], [];
      KeptAtStart(g, adj, vfID);
      for i := 0 to |g.order|
        invariant Kept(P(adj, visited, groups, runs)) && Elements(g.order[..i]) <= visited <= adj.Keys
      {
        OrderIsClasses(i);
        visited, groups, runs := NumberGroup(adj, g.order[i], visited, groups, runs);
        OneMoreElement(g.order, i);
      }
      AllVisited(g, visited);
    }

    lemma OrderIsClasses(i: nat)
      requires Valid(g) && i < |g.order|
      ensures g.order[i] in g.outgoing && g.outgoing.Keys == g.virtuals.Keys
    {}
  }

  lemma AllVisited(g: Graph, visited: set<nat>)
    requires Valid(g) && visited <= g.outgoing.Keys && Elements(g.order[..|g.order|]) <= visited
    ensures visited == g.outgoing.Keys
  {
    assert g.order[..|g.order|] == g.order;
    assert Elements(g.order) == g.outgoing.Keys;
  }

  lemma OneMoreElement(s: seq<nat>, i: nat)
    requires i < |s|
    ensures Elements(s[..i + 1]) == Elements(s[..i]) + {s[i]}
  {
    assert s[..i + 1] == s[..i] + [s[i]];
  }

  // The members of a set, in the order it is iterated over.
  method Listed(s: set<nat>) returns (r: seq<nat>)
    ensures forall x :: x in r <==> x in s
  {
    r := [];
    var left := s;
    while left != {}
      invariant left <= s && forall x :: x in r <==> x in s && x !in left
      decreases |left|
    {
      var x :| x in left;
      left := left - {x};
      r := r + [x];
    }
  }
}
