/**
 * `ICFGBuilder`: nodes and edges of the interprocedural control-flow graph.
 *
 * `Specified` says, edge by edge, what the graph is to hold. The builder proves that it
 * creates the nodes of every covered instruction once and ends with exactly those edges,
 * each with the label of its first mention.
 *
 * A predicate that matches on a datatype with one constructor is unfolded by the
 * solver only where its parts are needed.
 */
module ICFG {
  import opened Collections
  import opened Options
  import opened ControlFlow

  datatype Node =
    | Global
    | Entry(fun: nat)
    | Exit(fun: nat)
    | Intra(at: Loc)
    | CallNode(at: Loc)
    | RetNode(at: Loc)

  datatype EdgeKind = IntraCF | CallCF | RetCF

  datatype Edge = Edge(src: Node, dst: Node, kind: EdgeKind)

  predicate IsCallSite(p: Program, at: Loc) {
    In(p, at) && At(p, at).kind.Call? && !At(p, at).intrinsic
  }

  // The node that control reaches an instruction at, and the one it leaves it from.
  function First(p: Program, at: Loc): Node {
    if IsCallSite(p, at) then CallNode(at) else Intra(at)
  }

  function Last(p: Program, at: Loc): Node {
    if IsCallSite(p, at) then RetNode(at) else Intra(at)
  }

  // ---------------------------------------------------------------- the graph to be built

  ghost predicate Usable(p: Program) {
    match p
    case Program(_, _) => Valid(p) && Accepted(p)
  }

  predicate Leads(p: Program, e: Edge, to: seq<Loc>) {
    match e.dst
    case Intra(j) => j in to && !IsCallSite(p, j)
    case CallNode(j) => j in to && IsCallSite(p, j)
    case _ => false
  }

  // The edges that leave an instruction inside its function.
  ghost predicate Flow(p: Program, at: Loc, e: Edge)
    requires Usable(p)
  {
    && Covered(p, at) && e.src == Last(p, at) && e.kind == IntraCF
    && if e.dst.Exit? then e.dst.fun == at.fun && At(p, at).kind.Return? else Leads(p, e, NextInsts(p, at))
  }

  // The edges that a call site makes.
  predicate CallEdge(p: Program, at: Loc, e: Edge) {
    && IsCallSite(p, at)
    && var callee := At(p, at).kind.callee;
    match e.kind
    case IntraCF => e.src == CallNode(at) && e.dst == RetNode(at) && !callee.Defined?
    case CallCF => e.src == CallNode(at) && e.dst.Entry? && Target(callee) == Some(e.dst.fun)
    case RetCF => e.src.Exit? && e.dst == RetNode(at) && Target(callee) == Some(e.src.fun)
  }

  ghost predicate Specified(p: Program, e: Edge)
    requires Usable(p)
  {
    match e.src
    case Global => e.kind == IntraCF && e.dst.Entry? && e.dst.fun in p.mains
    case Entry(f) => e.kind == IntraCF && In(p, Loc(f, 0, 0)) && Leads(p, e, Land(p, Loc(f, 0, 0)))
    case Exit(_) => e.dst.RetNode? && CallEdge(p, e.dst.at, e)
    case CallNode(at) => CallEdge(p, at, e)
    case Intra(at) => Flow(p, at, e)
    case RetNode(at) => Flow(p, at, e)
  }

  // The label of the `k`-th way out of an instruction: 1 and 0 for the two ways of a
  // conditional branch, the case value (or -1) for a switch.
  function Label(p: Program, at: Loc, k: nat, to: Loc): Option<int>
    requires In(p, at)
  {
    match At(p, at).kind
    case Branch(conditional) => if conditional then Some(1 - k) else None
    case Switch(cases) => Some(if to.block in cases then cases[to.block] else -1)
    case _ => None
  }

  function LocOf(n: Node): Option<Loc> {
    match n
    case Intra(at) => Some(at)
    case CallNode(at) => Some(at)
    case RetNode(at) => Some(at)
    case _ => None
  }

  // An edge carries the label of the first way that leads along it.
  ghost function LabelOf(p: Program, e: Edge): Option<int>
    requires Usable(p)
  {
    match (LocOf(e.src), LocOf(e.dst))
    case (Some(i), Some(j)) =>
      if In(p, i) && e.src == Last(p, i) && j in NextInsts(p, i)
      then Label(p, i, FirstIndex(NextInsts(p, i), j), j)
      else None
    case _ => None
  }

  // ---------------------------------------------------------------- what the builder keeps

  datatype State = State(p: Program, nodes: seq<Node>, edges: map<Edge, Option<int>>, visited: set<Loc>)

  predicate Created(p: Program, visited: set<Loc>, n: Node) {
    match n
    case Global => true
    case Entry(f) => f < |p.funs|
    case Exit(f) => f < |p.funs|
    case Intra(at) => at in visited && !IsCallSite(p, at)
    case CallNode(at) => at in visited && IsCallSite(p, at)
    case RetNode(at) => at in visited && IsCallSite(p, at)
  }

  ghost predicate NodesExact(s: State) {
    match s
    case State(p, nodes, _, visited) =>
      && Distinct(nodes)
      && (forall n :: n in nodes <==> Created(p, visited, n))
      && forall at <- visited :: Covered(p, at)
  }

  ghost predicate EdgesSound(s: State)
    requires Usable(s.p)
  {
    match s
    case State(p, _, edges, _) => forall e <- edges :: Specified(p, e) && edges[e] == LabelOf(p, e) && e.src != Global
  }

  // Whether the builder has already added the specified edges that start like this one:
  // `done` holds the instructions it is finished with, `funs` counts the functions entered.
  predicate Due(e: Edge, visited: set<Loc>, done: set<Loc>, funs: nat) {
    match e.src
    case Global => false
    case Entry(f) => f < funs
    case Exit(_) => e.dst.RetNode? && e.dst.at in visited
    case CallNode(at) => at in visited
    case Intra(at) => at in done
    case RetNode(at) => at in done
  }

  ghost predicate EdgesPresent(s: State, done: set<Loc>, funs: nat)
    requires Usable(s.p)
  {
    match s
    case State(p, _, edges, visited) =>
      forall e :: Specified(p, e) && Due(e, visited, done, funs) ==> e in edges
  }

  ghost predicate Inv(s: State, done: set<Loc>, funs: nat) {
    match s
    case State(p, _, _, visited) =>
      && Usable(p)
      && NodesExact(s)
      && EdgesSound(s)
      && EdgesPresent(s, done, funs)
      && done <= visited
      && Closed(p, done, visited)
  }

  // A step that visits one more instruction.
  ghost predicate Visits(s: State, t: State, at: Loc) {
    && t.p == s.p
    && t.visited == s.visited + {at}
    && t.nodes == s.nodes + NodesOf(s.p, at)
    && (forall e :: e in t.edges <==> e in s.edges || CallEdge(s.p, at, e))
    && forall e <- t.edges :: t.edges[e] == if e in s.edges then s.edges[e] else None
  }

  function NodesOf(p: Program, at: Loc): seq<Node> {
    if IsCallSite(p, at) then [CallNode(at), RetNode(at)] else [Intra(at)]
  }

  lemma DistinctAppend(a: seq<Node>, b: seq<Node>)
    requires Distinct(a) && Distinct(b) && forall n <- b :: n !in a
    ensures Distinct(a + b)
  {
    forall i, j | 0 <= i < |a| <= j < |a| + |b|
      ensures (a + b)[i] != (a + b)[j]
    {
      assert b[j - |a|] in b && a[i] in a;
    }
  }

  lemma VisitedNodes(s: State, t: State, at: Loc)
    requires NodesExact(s) && Visits(s, t, at) && at !in s.visited && Covered(s.p, at)
    ensures NodesExact(t)
  {
    var more := NodesOf(s.p, at);
    assert forall n :: n in more <==> Created(s.p, t.visited, n) && !Created(s.p, s.visited, n);
    DistinctAppend(s.nodes, more);
    forall n
      ensures n in t.nodes <==> Created(s.p, t.visited, n)
    {
      assert n in t.nodes <==> n in s.nodes || n in more;
    }
  }

  lemma CallEdgeSpecified(p: Program, at: Loc, e: Edge)
    requires Usable(p) && CallEdge(p, at, e)
    ensures Specified(p, e) && LabelOf(p, e) == None
  {}

  lemma VisitedSound(s: State, t: State, at: Loc)
    requires Usable(s.p) && EdgesSound(s) && Visits(s, t, at)
    ensures EdgesSound(t)
  {
    forall e | e in t.edges
      ensures Specified(t.p, e) && t.edges[e] == LabelOf(t.p, e) && e.src != Global
    {
      if e !in s.edges { CallEdgeSpecified(s.p, at, e); }
    }
  }

  lemma VisitedPresent(s: State, t: State, at: Loc, done: set<Loc>, funs: nat)
    requires Usable(s.p) && EdgesPresent(s, done, funs) && Visits(s, t, at)
    ensures EdgesPresent(t, done, funs)
  {}

  lemma Visited(s: State, t: State, at: Loc, done: set<Loc>, funs: nat)
    requires Inv(s, done, funs) && Visits(s, t, at) && at !in s.visited && Covered(s.p, at)
    ensures Inv(t, done, funs)
  {
    VisitedNodes(s, t, at);
    VisitedSound(s, t, at);
    VisitedPresent(s, t, at, done, funs);
    forall i <- done
      ensures Within(NextInsts(s.p, i), t.visited)
    {
      assert Within(NextInsts(s.p, i), s.visited);
    }
  }

  // A step that adds a specified edge, unless it is there, keeps everything.
  lemma Linked(s: State, t: State, e: Edge, done: set<Loc>, funs: nat)
    requires Inv(s, done, funs) && Specified(s.p, e) && e.src != Global
    requires t == s.(edges := if e in s.edges then s.edges else s.edges[e := LabelOf(s.p, e)])
    ensures Inv(t, done, funs)
  {}

  lemma CalleeHasBody(p: Program, at: Loc)
    requires Valid(p) && IsCallSite(p, at)
    ensures var t := Target(At(p, at).kind.callee); t.Some? ==> t.value < |p.funs|
  {
    assert ValidFunction(p.funs[at.fun], |p.funs|);
  }

  // The edge for the `k`-th way out of an instruction, with its label.
  lemma FlowIsSpecified(p: Program, at: Loc, k: nat)
    requires Usable(p) && Covered(p, at) && k < |NextInsts(p, at)|
    ensures var to := NextInsts(p, at)[k]; var e := Edge(Last(p, at), First(p, to), IntraCF);
      Specified(p, e) && (to !in NextInsts(p, at)[..k] ==> LabelOf(p, e) == Label(p, at, k, to))
  {
    var to := NextInsts(p, at)[k];
    if to !in NextInsts(p, at)[..k] { FirstIndexAt(NextInsts(p, at), k); }
  }

  // A node is linked to the nodes of some instructions.
  predicate Linking(p: Program, src: Node, to: seq<Loc>, edges: map<Edge, Option<int>>) {
    match src
    case _ => forall t <- to :: Edge(src, First(p, t), IntraCF) in edges
  }

  lemma LinkingMore(p: Program, src: Node, to: seq<Loc>, n: nat,
                    edges: map<Edge, Option<int>>, more: map<Edge, Option<int>>)
    requires n < |to| && Linking(p, src, to[..n], edges)
    requires (forall e <- edges :: e in more) && Edge(src, First(p, to[n]), IntraCF) in more
    ensures Linking(p, src, to[..n + 1], more)
  {
    assert forall t <- to[..n + 1] :: t in to[..n] || t == to[n];
  }

  // Some instructions are visited and a node is linked to theirs.
  ghost predicate Followed(s: State, src: Node, to: seq<Loc>) {
    match s
    case State(p, _, edges, visited) => Linking(p, src, to, edges) && forall t <- to :: t in visited
  }

  lemma FollowedIsLinking(s: State, t: State, src: Node, to: seq<Loc>)
    requires Followed(s, src, to) && t.p == s.p && forall e <- s.edges :: e in t.edges
    ensures Linking(t.p, src, to, t.edges)
  {}

  lemma FollowedMore(s: State, t: State, src: Node, to: seq<Loc>, n: nat)
    requires n < |to| && Followed(s, src, to[..n]) && t.p == s.p
    requires t.visited == s.visited + {to[n]} && Linking(t.p, src, to[..n + 1], t.edges)
    ensures Followed(t, src, to[..n + 1])
  {
    assert forall x <- to[..n + 1] :: x in to[..n] || x == to[n];
  }

  // The builder is finished with an instruction once its edges are there and what follows it is visited.
  lemma Finished(s: State, at: Loc, done: set<Loc>, funs: nat)
    requires Inv(s, done, funs) && at in s.visited
    requires Followed(s, Last(s.p, at), NextInsts(s.p, at))
    requires At(s.p, at).kind.Return? ==> Edge(First(s.p, at), Exit(at.fun), IntraCF) in s.edges
    ensures Inv(s, done + {at}, funs)
  {
    forall e | Specified(s.p, e) && Due(e, s.visited, done + {at}, funs)
      ensures e in s.edges
    {
      if !Due(e, s.visited, done, funs) {
        assert Flow(s.p, at, e);
        if !e.dst.Exit? {
          var to := LocOf(e.dst).value;
          assert to in NextInsts(s.p, at) && e == Edge(Last(s.p, at), First(s.p, to), IntraCF);
        }
      }
    }
  }

  // A function is entered once its entry node leads to every instruction control lands on first.
  lemma Entered(s: State, f: nat, done: set<Loc>)
    requires Inv(s, done, f) && In(s.p, Loc(f, 0, 0))
    requires Linking(s.p, Entry(f), Land(s.p, Loc(f, 0, 0)), s.edges)
    ensures Inv(s, done, f + 1)
  {
    forall e | Specified(s.p, e) && Due(e, s.visited, done, f + 1)
      ensures e in s.edges
    {
      if e.src == Entry(f) {
        var to := LocOf(e.dst).value;
        assert to in Land(s.p, Loc(f, 0, 0)) && e == Edge(Entry(f), First(s.p, to), IntraCF);
      }
    }
  }

  lemma EntryIsSpecified(p: Program, f: nat, to: Loc)
    requires Usable(p) && In(p, Loc(f, 0, 0)) && to in Land(p, Loc(f, 0, 0))
    ensures var e := Edge(Entry(f), First(p, to), IntraCF); Specified(p, e) && LabelOf(p, e) == None
  {}

  // The visited instructions that are not in `gone` are the ones on the list, each once,
  // and all visited instructions are in the first `funs` functions.
  ghost predicate Waiting(s: State, gone: set<Loc>, worklist: seq<Loc>, funs: nat) {
    match s
    case State(_, _, _, visited) =>
      && (forall at <- visited :: at in gone || at in worklist)
      && (forall at <- worklist :: at in visited && at !in gone)
      && (forall i, j :: 0 <= i < j < |worklist| ==> worklist[i] != worklist[j])
      && gone <= visited
      && forall at <- visited :: at.fun < funs
  }

  lemma Queued(s: State, t: State, at: Loc, gone: set<Loc>, worklist: seq<Loc>, funs: nat)
    requires Waiting(s, gone, worklist, funs) && at !in s.visited && at.fun < funs
    requires t.visited == s.visited + {at}
    ensures Waiting(t, gone, worklist + [at], funs)
  {}

  // Adding the edge for the `k`-th way out, unless an earlier way added it, keeps everything.
  lemma LinkedFlow(s: State, t: State, at: Loc, k: nat, done: set<Loc>, funs: nat)
    requires Inv(s, done, funs) && Covered(s.p, at) && k < |NextInsts(s.p, at)|
    requires Linking(s.p, Last(s.p, at), NextInsts(s.p, at)[..k], s.edges)
    requires var to := NextInsts(s.p, at)[k]; var e := Edge(Last(s.p, at), First(s.p, to), IntraCF);
      t == s.(edges := if e in s.edges then s.edges else s.edges[e := Label(s.p, at, k, to)])
    ensures Inv(t, done, funs)
    ensures Linking(s.p, Last(s.p, at), NextInsts(s.p, at)[..k + 1], t.edges)
  {
    var to := NextInsts(s.p, at)[k];
    var e := Edge(Last(s.p, at), First(s.p, to), IntraCF);
    FlowIsSpecified(s.p, at, k);
    Linked(s, t, e, done, funs);
    LinkingMore(s.p, Last(s.p, at), NextInsts(s.p, at), k, s.edges, t.edges);
  }

  lemma LeftShrinks(all: set<Loc>, a: set<Loc>, b: set<Loc>)
    requires a < b && b <= all
    ensures |all - b| < |all - a|
  {
    var x :| x in b && x !in a;
    var rest := (all - a) - {x};
    assert all - b <= rest;
    SubsetSize(all - b, rest);
  }

  lemma Popped(s: State, gone: set<Loc>, worklist: seq<Loc>, funs: nat)
    requires Waiting(s, gone, worklist, funs) && worklist != []
    ensures Waiting(s, gone + {worklist[0]}, worklist[1..], funs)
    ensures worklist[0] in s.visited && worklist[0].fun < funs
  {}

  lemma NothingWaiting(s: State, gone: set<Loc>, funs: nat)
    requires Waiting(s, gone, [], funs)
    ensures gone == s.visited
  {}

  lemma VisitedCovered(s: State, done: set<Loc>, funs: nat)
    requires Inv(s, done, funs)
    ensures forall at <- s.visited :: Covered(s.p, at)
    ensures s.visited <= Insts(s.p)
  {}

  lemma Progress(s: State, t: State, done: set<Loc>, funs: nat)
    requires Inv(t, done, funs) && s.p == t.p && s.visited < t.visited
    ensures |Insts(s.p) - t.visited| < |Insts(s.p) - s.visited|
  {
    VisitedCovered(t, done, funs);
    LeftShrinks(Insts(s.p), s.visited, t.visited);
  }

  // A specified edge of an instruction that the builder is finished with is there.
  lemma ReturnIsLinked(s: State, funs: nat, at: Loc)
    requires Inv(s, s.visited, funs) && at in s.visited && In(s.p, at) && At(s.p, at).kind.Return?
    ensures var e := Edge(First(s.p, at), Exit(at.fun), IntraCF); e in s.edges && e.src in s.nodes && e.dst in s.nodes
  {
    assert Flow(s.p, at, Edge(First(s.p, at), Exit(at.fun), IntraCF));
  }

  // After a function's body every covered instruction of the function is visited.
  lemma FunctionVisited(s: State, f: nat)
    requires f < |s.p.funs| && Inv(s, s.visited, f + 1)
    requires In(s.p, Loc(f, 0, 0)) && Within(Land(s.p, Loc(f, 0, 0)), s.visited)
    requires forall b <- s.p.funs[f].unreachable :: b < |s.p.funs[f].blocks| ==> Loc(f, b, 0) in s.visited
    ensures forall at :: Covered(s.p, at) && at.fun == f ==> at in s.visited
  {
    FunctionIsSeen(s.p, f, s.visited);
  }

  // Before any instruction is visited there are the global node and the functions' entry and exit nodes.
  lemma FunctionNodes(s: State)
    requires Usable(s.p) && s.edges == map[] && s.visited == {}
    requires Distinct(s.nodes) && forall n :: n in s.nodes <==> Created(s.p, {}, n)
    ensures Inv(s, {}, 0) && Waiting(s, {}, [], 0)
  {}

  // The whole graph: the nodes of every covered instruction once, the specified edges and
  // no others, and each edge with the label of the first way that leads along it.
  ghost predicate Built(s: State) {
    match s
    case State(p, nodes, edges, visited) =>
      && Usable(p)
      && Distinct(nodes)
      && (forall at :: at in visited <==> Covered(p, at))
      && (forall n :: n in nodes <==> Created(p, visited, n))
      && (forall e :: e in edges <==> Specified(p, e))
      && forall e <- edges :: edges[e] == LabelOf(p, e)
  }

  // ---------------------------------------------------------------- what a built graph looks like

  // The node that control reaches an instruction at.
  ghost predicate IsNodeOf(p: Program, at: Loc, n: Node) {
    if In(p, at) && At(p, at).kind.Call? && !At(p, at).intrinsic then n == CallNode(at) else n == Intra(at)
  }

  // Which edges leave a node, kind by kind.
  ghost predicate IsEdge(p: Program, e: Edge)
    requires Usable(p)
  {
    match e.src
    case Global => e.kind == IntraCF && e.dst.Entry? && e.dst.fun in p.mains
    case Entry(f) => e.kind == IntraCF && In(p, Loc(f, 0, 0)) && SomeNode(p, Land(p, Loc(f, 0, 0)), e.dst)
    case Exit(f) => e.kind == RetCF && e.dst.RetNode? && Calls(p, e.dst.at, f)
    case CallNode(at) => IsCallSite(p, at) && CallLeads(p, at, e)
    case Intra(at) => !IsCallSite(p, at) && Covered(p, at) && LeavesTo(p, at, e)
    case RetNode(at) => IsCallSite(p, at) && Covered(p, at) && LeavesTo(p, at, e)
  }

  // A node of one of the instructions.
  ghost predicate SomeNode(p: Program, to: seq<Loc>, n: Node) {
    exists x :: x in to && IsNodeOf(p, x, n)
  }

  lemma FlowIs(p: Program, at: Loc, e: Edge)
    requires Usable(p) && Covered(p, at)
    ensures Flow(p, at, e) <==> e.src == Last(p, at) && LeavesTo(p, at, e)
  {
    LeadsIs(p, e, NextInsts(p, at));
  }

  lemma SpecifiedIs(p: Program, e: Edge)
    requires Usable(p)
    ensures Specified(p, e) <==> IsEdge(p, e)
  {
    match e.src
    case Entry(f) =>
      if In(p, Loc(f, 0, 0)) { LeadsIs(p, e, Land(p, Loc(f, 0, 0))); }
    case Intra(at) =>
      if Covered(p, at) { FlowIs(p, at, e); }
    case RetNode(at) =>
      if Covered(p, at) { FlowIs(p, at, e); }
    case _ =>
  }

  // A built graph has exactly these edges.
  lemma EdgesAre(s: State)
    requires Built(s)
    ensures forall e :: e in s.edges <==> IsEdge(s.p, e)
  {
    forall e
      ensures e in s.edges <==> IsEdge(s.p, e)
    {
      SpecifiedIs(s.p, e);
    }
  }

  // The edges that leave a call, by its callee.
  ghost predicate CallLeads(p: Program, at: Loc, e: Edge)
    requires IsCallSite(p, at)
  {
    match At(p, at).kind.callee
    case Defined(g) => e == Edge(CallNode(at), Entry(g), CallCF)
    case External(None) => e == Edge(CallNode(at), RetNode(at), IntraCF)
    case External(Some(g)) =>
      e == Edge(CallNode(at), RetNode(at), IntraCF) || e == Edge(CallNode(at), Entry(g), CallCF)
    case Indirect => e == Edge(CallNode(at), RetNode(at), IntraCF)
  }

  // A call that enters a function, directly or as the routine of a thread.
  predicate Calls(p: Program, at: Loc, f: nat) {
    && IsCallSite(p, at)
    && (At(p, at).kind.callee == Defined(f) || At(p, at).kind.callee == External(Some(f)))
  }

  // The edges that leave an instruction: to the instructions that come next, and from a return to the
  // exit of its function.
  ghost predicate LeavesTo(p: Program, at: Loc, e: Edge)
    requires Usable(p) && In(p, at)
  {
    && e.kind == IntraCF
    && ((At(p, at).kind.Return? && e.dst == Exit(at.fun))
        || SomeNode(p, NextInsts(p, at), e.dst))
  }

  lemma LeadsIs(p: Program, e: Edge, to: seq<Loc>)
    requires forall x <- to :: In(p, x)
    ensures Leads(p, e, to) <==> SomeNode(p, to, e.dst)
  {
    if Leads(p, e, to) {
      var x := LocOf(e.dst).value;
      assert x in to && IsNodeOf(p, x, e.dst);
    }
  }

  // The edge for one way out of an instruction, and its label.
  lemma WayOut(s: State, at: Loc, x: Loc, n: Node)
    requires Built(s) && Covered(s.p, at) && !IsCallSite(s.p, at) && x in NextInsts(s.p, at) && IsNodeOf(s.p, x, n)
    ensures Edge(Intra(at), n, IntraCF) in s.edges
    ensures s.edges[Edge(Intra(at), n, IntraCF)] == Label(s.p, at, FirstIndex(NextInsts(s.p, at), x), x)
  {
    var e := Edge(Intra(at), n, IntraCF);
    assert LeavesTo(s.p, at, e);
    SpecifiedIs(s.p, e);
  }

  // The labels of the edges that leave a conditional branch: 1 for its first way, 0 for the second.
  lemma BranchLabels(s: State, at: Loc, x: Loc, y: Loc, m: Node, n: Node)
    requires Built(s) && Covered(s.p, at) && At(s.p, at).kind == Branch(true) && NextInsts(s.p, at) == [x, y]
    requires IsNodeOf(s.p, x, m) && IsNodeOf(s.p, y, n)
    ensures Edge(Intra(at), m, IntraCF) in s.edges && s.edges[Edge(Intra(at), m, IntraCF)] == Some(1)
    ensures Edge(Intra(at), n, IntraCF) in s.edges
    ensures s.edges[Edge(Intra(at), n, IntraCF)] == if x == y then Some(1) else Some(0)
  {
    FirstOfTwo(x, y);
    WayOut(s, at, x, m);
    WayOut(s, at, y, n);
  }

  lemma FirstOfTwo(x: Loc, y: Loc)
    ensures x in [x, y] && y in [x, y]
    ensures FirstIndex([x, y], x) == 0 && FirstIndex([x, y], y) == if x == y then 0 else 1
  {
    assert [x, y][0] == x && [x, y][1] == y;
    FirstIndexAt([x, y], 0);
    if x != y { FirstIndexAt([x, y], 1); }
  }

  // A switch edge has the value of the case that leads to its block, or -1.
  lemma SwitchLabels(s: State, at: Loc, cases: map<nat, int>, x: Loc, n: Node)
    requires Built(s) && Covered(s.p, at) && At(s.p, at).kind == Switch(cases)
    requires x in NextInsts(s.p, at) && IsNodeOf(s.p, x, n)
    ensures Edge(Intra(at), n, IntraCF) in s.edges
    ensures s.edges[Edge(Intra(at), n, IntraCF)] == if x.block in cases then Some(cases[x.block]) else Some(-1)
  {
    WayOut(s, at, x, n);
  }

  // No other edge has a label: not that of an unconditional branch or another instruction, nor an edge of
  // a call, a return, an entry or the global node.
  lemma OtherLabels(s: State, e: Edge)
    requires Built(s) && e in s.edges
    requires e.src.Intra? && In(s.p, e.src.at) ==>
      !At(s.p, e.src.at).kind.Switch? && At(s.p, e.src.at).kind != Branch(true)
    ensures s.edges[e] == None
  {
    assert s.edges[e] == LabelOf(s.p, e);
  }

  // The builder is through with every function and has connected the first `n` program entries.
  ghost predicate Connected(s: State, n: nat) {
    match s
    case State(p, _, edges, visited) =>
      && Usable(p)
      && n <= |p.mains|
      && NodesExact(s)
      && EdgesPresent(s, visited, |p.funs|)
      && (forall e <- edges :: Specified(p, e) && edges[e] == LabelOf(p, e))
      && (forall e: Edge :: e in edges && e.src == Global ==> e.dst.Entry? && e.dst.fun in p.mains[..n])
      && forall m <- p.mains[..n] :: Edge(Global, Entry(m), IntraCF) in edges
  }

  lemma ConnectMore(s: State, t: State, n: nat)
    requires Connected(s, n) && n < |s.p.mains|
    requires var e := Edge(Global, Entry(s.p.mains[n]), IntraCF); t == s.(edges := s.edges[e := None])
    ensures Edge(Global, Entry(s.p.mains[n]), IntraCF) !in s.edges
    ensures Connected(t, n + 1)
  {
    var m := s.p.mains;
    var e := Edge(Global, Entry(m[n]), IntraCF);
    assert m[..n + 1] == m[..n] + [m[n]];
    assert Specified(s.p, e) && LabelOf(s.p, e) == None;
    assert m[n] !in m[..n];
  }

  lemma Completed(s: State)
    requires Connected(s, |s.p.mains|) && forall at :: Covered(s.p, at) ==> at in s.visited
    ensures Built(s)
  {
    assert s.p.mains[..|s.p.mains|] == s.p.mains;
    forall e | Specified(s.p, e)
      ensures e in s.edges
    {
      if e.src != Global {
        assert Due(e, s.visited, s.visited, |s.p.funs|);
      }
    }
  }

  lemma NothingConnected(s: State)
    requires Inv(s, s.visited, |s.p.funs|)
    ensures Connected(s, 0)
  {}

  // The first n instructions of a list are visited, and the others are not.
  ghost predicate Halfway(insts: seq<Loc>, n: nat, visited: set<Loc>) {
    match n
    case _ =>
      && (forall k :: 0 <= k < n && k < |insts| ==> insts[k] in visited)
      && forall k :: n <= k < |insts| ==> insts[k] !in visited
  }

  lemma HalfwayMore(insts: seq<Loc>, n: nat, visited: set<Loc>)
    requires Halfway(insts, n, visited) && n < |insts| && Distinct(insts)
    ensures insts[n] !in visited && Halfway(insts, n + 1, visited + {insts[n]})
  {}

  lemma AllTheWay(insts: seq<Loc>, visited: set<Loc>)
    requires Halfway(insts, |insts|, visited)
    ensures Within(insts, visited)
  {}

  // The first instruction of every unreachable block before block n is visited.
  ghost predicate FrontsSeen(p: Program, f: nat, n: nat, visited: set<Loc>) {
    match p
    case Program(funs, _) =>
      f < |funs| && forall b <- funs[f].unreachable :: b < n ==> Loc(f, b, 0) in visited
  }

  lemma FrontsSeenMore(p: Program, f: nat, n: nat, before: set<Loc>, after: set<Loc>)
    requires FrontsSeen(p, f, n, before) && before <= after
    requires n in p.funs[f].unreachable ==> Loc(f, n, 0) in after
    ensures FrontsSeen(p, f, n + 1, after)
  {}

  lemma AllFrontsSeen(p: Program, f: nat, visited: set<Loc>)
    requires f < |p.funs| && FrontsSeen(p, f, |p.funs[f].blocks|, visited)
    ensures forall b <- p.funs[f].unreachable :: b < |p.funs[f].blocks| ==> Loc(f, b, 0) in visited
  {}

  ghost predicate KeptEdges(before: map<Edge, Option<int>>, after: map<Edge, Option<int>>) {
    match |before|
    case _ => forall e <- before :: e in after
  }

  lemma StillKept(before: map<Edge, Option<int>>, mid: map<Edge, Option<int>>, after: map<Edge, Option<int>>)
    requires KeptEdges(before, mid) && forall e <- mid :: e in after
    ensures KeptEdges(before, after)
  {}

  class ICFGBuilder {
    const p: Program
    var nodes: seq<Node>
    var edges: map<Edge, Option<int>>
    var visited: set<Loc>

    ghost function S(): State
      reads this
    {
      State(p, nodes, edges, visited)
    }

    constructor (p: Program)
      ensures this.p == p && nodes == [] && edges == map[] && visited == {}
    {
      this.p := p;
      nodes, edges, visited := [], map[], {};
    }

    // An edge that is there already keeps its label. Both ends must have been created.
    method AddEdge(e: Edge, cond: Option<int>)
      requires e.src in nodes && e.dst in nodes
      modifies this`edges
      ensures edges == if e in old(edges) then old(edges) else old(edges)[e := cond]
    {
      if e !in edges {
        edges := edges[e := cond];
      }
    }

    method AddICFGInterEdges(at: Loc)
      requires Valid(p) && IsCallSite(p, at)
      requires CallNode(at) in nodes && RetNode(at) in nodes
      requires forall f: nat :: f < |p.funs| ==> Entry(f) in nodes && Exit(f) in nodes
      modifies this`edges
      ensures forall e :: e in edges <==> e in old(edges) || CallEdge(p, at, e)
      ensures forall e <- edges :: edges[e] == if e in old(edges) then old(edges)[e] else None
    {
      CalleeHasBody(p, at);
      match At(p, at).kind.callee
      case Defined(g) =>
        AddEdge(Edge(CallNode(at), Entry(g), CallCF), None);
        AddEdge(Edge(Exit(g), RetNode(at), RetCF), None);
      case External(routine) =>
        AddEdge(Edge(CallNode(at), RetNode(at), IntraCF), None);
        if routine.Some? {
          AddEdge(Edge(CallNode(at), Entry(routine.value), CallCF), None);
          AddEdge(Edge(Exit(routine.value), RetNode(at), RetCF), None);
        }
      case Indirect =>
        AddEdge(Edge(CallNode(at), RetNode(at), IntraCF), None);
    }

    // The source asserts that the instruction has no node yet.
    method AddBlockICFGNode(at: Loc)
      requires Valid(p) && In(p, at)
      requires First(p, at) !in nodes && Last(p, at) !in nodes
      requires forall f: nat :: f < |p.funs| ==> Entry(f) in nodes && Exit(f) in nodes
      modifies this`nodes, this`edges
      ensures nodes == old(nodes) + NodesOf(p, at)
      ensures forall e :: e in edges <==> e in old(edges) || CallEdge(p, at, e)
      ensures forall e <- edges :: edges[e] == if e in old(edges) then old(edges)[e] else None
    {
      if IsCallSite(p, at) {
        nodes := nodes + [CallNode(at)];
        nodes := nodes + [RetNode(at)];
        AddICFGInterEdges(at);
      } else {
        nodes := nodes + [Intra(at)];
      }
    }

    // Marks an instruction as visited, creates its nodes and queues it.
    method Visit(at: Loc, worklist: seq<Loc>, ghost gone: set<Loc>, ghost funs: nat, ghost done: set<Loc>,
                 ghost entered: nat)
      returns (queue: seq<Loc>)
      requires Inv(S(), done, entered) && Waiting(S(), gone, worklist, funs)
      requires at !in visited && Covered(p, at) && at.fun < funs
      modifies this
      ensures Inv(S(), done, entered) && Waiting(S(), gone, queue, funs)
      ensures visited == old(visited) + {at} && forall e <- old(edges) :: e in edges
    {
      visited := visited + {at};
      AddBlockICFGNode(at);
      queue := worklist + [at];
      Visited(old(S()), S(), at, done, entered);
      Queued(old(S()), S(), at, gone, worklist, funs);
    }

    // Visits an instruction control lands on first and links the entry node to it.
    method EnterAt(f: nat, to: Loc, worklist: seq<Loc>, ghost done: set<Loc>) returns (queue: seq<Loc>)
      requires Inv(S(), done, f) && Waiting(S(), done, worklist, f + 1)
      requires In(p, Loc(f, 0, 0)) && to in Land(p, Loc(f, 0, 0)) && to !in visited
      modifies this
      ensures Inv(S(), done, f) && Waiting(S(), done, queue, f + 1)
      ensures visited == old(visited) + {to}
      ensures Edge(Entry(f), First(p, to), IntraCF) in edges && forall e <- old(edges) :: e in edges
    {
      queue := Visit(to, worklist, done, f + 1, done, f);
      LinkEntry(f, to, done, queue);
    }

    method LinkEntry(f: nat, to: Loc, ghost done: set<Loc>, ghost queue: seq<Loc>)
      requires Inv(S(), done, f) && Waiting(S(), done, queue, f + 1)
      requires In(p, Loc(f, 0, 0)) && to in Land(p, Loc(f, 0, 0)) && to in visited
      modifies this`edges
      ensures Inv(S(), done, f) && Waiting(S(), done, queue, f + 1)
      ensures Edge(Entry(f), First(p, to), IntraCF) in edges && forall e <- old(edges) :: e in edges
    {
      var e := Edge(Entry(f), First(p, to), IntraCF);
      EntryIsSpecified(p, f, to);
      AddEdge(e, None);
      Linked(old(S()), S(), e, done, f);
    }

    method EntryInsts(f: nat) returns (insts: seq<Loc>)
      requires Usable(p) && f < |p.funs|
      ensures In(p, Loc(f, 0, 0)) && insts == Land(p, Loc(f, 0, 0)) && Distinct(insts)
      ensures forall to <- insts :: to.fun == f
    {
      assert ValidFunction(p.funs[f], |p.funs|);
      var front := Loc(f, 0, 0);
      insts := [front];
      if At(p, front).intrinsic {
        insts := GetNextInsts(p, front, []);
      }
      assert insts == Land(p, front);
    }

    method ProcessFunEntry(f: nat) returns (worklist: seq<Loc>)
      requires f < |p.funs| && Inv(S(), visited, f) && Waiting(S(), visited, [], f)
      modifies this
      ensures Inv(S(), old(visited), f + 1) && Waiting(S(), old(visited), worklist, f + 1)
      ensures In(p, Loc(f, 0, 0)) && Within(Land(p, Loc(f, 0, 0)), visited)
    {
      worklist := [];
      var insts := EntryInsts(f);
      ghost var done := visited;
      for n := 0 to |insts|
        invariant Inv(S(), done, f) && Waiting(S(), done, worklist, f + 1)
        invariant Halfway(insts, n, visited)
        invariant Linking(p, Entry(f), insts[..n], edges)
      {
        ghost var before, seen := edges, visited;
        HalfwayMore(insts, n, seen);
        worklist := EnterAt(f, insts[n], worklist, done);
        LinkingMore(p, Entry(f), insts, n, before, edges);
      }
      assert insts[..|insts|] == insts;
      AllTheWay(insts, visited);
      Entered(S(), f, done);
    }

    method ProcessUnreachableFromEntry(f: nat, worklist: seq<Loc>, ghost done: set<Loc>) returns (queue: seq<Loc>)
      requires f < |p.funs| && Inv(S(), done, f + 1) && Waiting(S(), done, worklist, f + 1)
      modifies this
      ensures Inv(S(), done, f + 1) && Waiting(S(), done, queue, f + 1)
      ensures old(visited) <= visited
      ensures forall b <- p.funs[f].unreachable :: b < |p.funs[f].blocks| ==> Loc(f, b, 0) in visited
    {
      queue := worklist;
      for b := 0 to |p.funs[f].blocks|
        invariant Inv(S(), done, f + 1) && Waiting(S(), done, queue, f + 1)
        invariant old(visited) <= visited && FrontsSeen(p, f, b, visited)
      {
        ghost var before := visited;
        queue := VisitFront(f, b, queue, done);
        FrontsSeenMore(p, f, b, before, visited);
      }
      AllFrontsSeen(p, f, visited);
    }

    method VisitFront(f: nat, b: nat, worklist: seq<Loc>, ghost done: set<Loc>) returns (queue: seq<Loc>)
      requires f < |p.funs| && b < |p.funs[f].blocks|
      requires Inv(S(), done, f + 1) && Waiting(S(), done, worklist, f + 1)
      modifies this
      ensures Inv(S(), done, f + 1) && Waiting(S(), done, queue, f + 1)
      ensures old(visited) <= visited
      ensures b in p.funs[f].unreachable ==> Loc(f, b, 0) in visited
    {
      queue := worklist;
      var front := Loc(f, b, 0);
      if b in p.funs[f].unreachable && front !in visited {
        assert ValidFunction(p.funs[f], |p.funs|);
        queue := Visit(front, queue, done, f + 1, done, f + 1);
      }
    }

    // The label of the edge; the source asserts that a branch has two ways at most.
    method BranchCond(inst: Loc, branchID: nat, succ: Loc) returns (cond: Option<int>)
      requires Usable(p) && In(p, inst) && branchID < |NextInsts(p, inst)|
      ensures cond == Label(p, inst, branchID, succ)
    {
      match At(p, inst).kind {
        case Branch(conditional) =>
          assert branchID <= 1;
          if conditional {
            cond := Some(1 - branchID);
          } else {
            cond := None;
          }
        case Switch(cases) =>
          cond := Some(if succ.block in cases then cases[succ.block] else -1);
        case _ =>
          cond := None;
      }
    }

    // Links an instruction to the node of the one that its `branchID`-th way leads to.
    method LinkNext(inst: Loc, branchID: nat, succ: Loc, srcNode: Node, ghost done: set<Loc>, ghost funs: nat)
      requires Inv(S(), done, funs) && Covered(p, inst) && inst in visited && succ in visited
      requires branchID < |NextInsts(p, inst)| && succ == NextInsts(p, inst)[branchID]
      requires srcNode == Last(p, inst)
      requires Linking(p, srcNode, NextInsts(p, inst)[..branchID], edges)
      modifies this`edges
      ensures Inv(S(), done, funs) && forall e <- old(edges) :: e in edges
      ensures Linking(p, srcNode, NextInsts(p, inst)[..branchID + 1], edges)
    {
      var e := Edge(srcNode, First(p, succ), IntraCF);
      assert First(p, succ) in nodes && srcNode in nodes;
      var cond := BranchCond(inst, branchID, succ);
      AddEdge(e, cond);
      LinkedFlow(old(S()), S(), inst, branchID, done, funs);
    }

    method LinkReturn(inst: Loc, ghost done: set<Loc>, ghost funs: nat)
      requires Inv(S(), done, funs) && inst in visited && inst.fun < |p.funs|
      requires In(p, inst) && At(p, inst).kind.Return?
      modifies this`edges
      ensures Inv(S(), done, funs) && forall e <- old(edges) :: e in edges
      ensures Edge(First(p, inst), Exit(inst.fun), IntraCF) in edges
    {
      var e := Edge(First(p, inst), Exit(inst.fun), IntraCF);
      assert Flow(p, inst, e) && LabelOf(p, e) == None;
      AddEdge(e, None);
      Linked(old(S()), S(), e, done, funs);
    }

    // Visits the instruction that the `branchID`-th way leads to, if it is new, and links to it.
    method Follow(inst: Loc, branchID: nat, succ: Loc, worklist: seq<Loc>, ghost done: set<Loc>, ghost funs: nat)
      returns (queue: seq<Loc>)
      requires Inv(S(), done, funs) && Covered(p, inst) && inst in visited && inst.fun < funs
      requires Waiting(S(), done + {inst}, worklist, funs)
      requires branchID < |NextInsts(p, inst)| && succ == NextInsts(p, inst)[branchID]
      requires Followed(S(), Last(p, inst), NextInsts(p, inst)[..branchID])
      modifies this
      ensures Inv(S(), done, funs) && Waiting(S(), done + {inst}, queue, funs)
      ensures forall e <- old(edges) :: e in edges
      ensures Followed(S(), Last(p, inst), NextInsts(p, inst)[..branchID + 1])
      ensures visited == old(visited) + {succ} && (succ in old(visited) ==> queue == worklist)
    {
      queue := worklist;
      if succ !in visited {
        queue := Visit(succ, queue, done + {inst}, funs, done, funs);
      }
      FollowedIsLinking(old(S()), S(), Last(p, inst), NextInsts(p, inst)[..branchID]);
      var srcNode := First(p, inst);
      if IsCallSite(p, inst) {
        srcNode := RetNode(inst);
      }
      LinkNext(inst, branchID, succ, srcNode, done, funs);
      FollowedMore(old(S()), S(), srcNode, NextInsts(p, inst), branchID);
    }

    method FollowAll(inst: Loc, worklist: seq<Loc>, ghost done: set<Loc>, ghost funs: nat) returns (queue: seq<Loc>)
      requires Inv(S(), done, funs) && inst in visited && Waiting(S(), done + {inst}, worklist, funs)
      requires Covered(p, inst) && inst.fun < funs
      modifies this
      ensures Inv(S(), done, funs) && Waiting(S(), done + {inst}, queue, funs)
      ensures Followed(S(), Last(p, inst), NextInsts(p, inst))
      ensures forall e <- old(edges) :: e in edges
      ensures old(visited) <= visited && (visited == old(visited) ==> queue == worklist)
    {
      queue := worklist;
      var nextInsts := GetNextInsts(p, inst, []);
      for branchID := 0 to |nextInsts|
        invariant Inv(S(), done, funs) && Waiting(S(), done + {inst}, queue, funs)
        invariant old(visited) <= visited && (visited == old(visited) ==> queue == worklist)
        invariant Followed(S(), Last(p, inst), nextInsts[..branchID])
        invariant KeptEdges(old(edges), edges)
      {
        ghost var before := edges;
        queue := Follow(inst, branchID, nextInsts[branchID], queue, done, funs);
        StillKept(old(edges), before, edges);
      }
      assert nextInsts[..|nextInsts|] == nextInsts;
    }

    // One turn of the loop over a function's body.
    method ProcessInst(inst: Loc, worklist: seq<Loc>, ghost done: set<Loc>, ghost funs: nat) returns (queue: seq<Loc>)
      requires Inv(S(), done, funs) && inst in visited && Waiting(S(), done + {inst}, worklist, funs)
      requires Covered(p, inst) && inst.fun < funs
      modifies this
      ensures Inv(S(), done + {inst}, funs) && Waiting(S(), done + {inst}, queue, funs)
      ensures old(visited) <= visited && (visited == old(visited) ==> queue == worklist)
    {
      if At(p, inst).kind.Return? {
        LinkReturn(inst, done, funs);
      }
      queue := FollowAll(inst, worklist, done, funs);
      Finished(S(), inst, done, funs);
    }

    // Takes the first instruction off the list.
    method ProcessNext(worklist: seq<Loc>, ghost done: set<Loc>, ghost funs: nat) returns (queue: seq<Loc>)
      requires Inv(S(), done, funs) && Waiting(S(), done, worklist, funs) && worklist != []
      modifies this
      ensures Inv(S(), done + {worklist[0]}, funs) && Waiting(S(), done + {worklist[0]}, queue, funs)
      ensures old(visited) <= visited
      ensures |Insts(p) - visited| < |Insts(p) - old(visited)| || (visited == old(visited) && |queue| < |worklist|)
    {
      Popped(S(), done, worklist, funs);
      VisitedCovered(S(), done, funs);
      ghost var s := S();
      queue := ProcessInst(worklist[0], worklist[1..], done, funs);
      if visited != s.visited { Progress(s, S(), done + {worklist[0]}, funs); }
    }

    method ProcessFunBody(f: nat, worklist: seq<Loc>, ghost done: set<Loc>)
      requires Inv(S(), done, f + 1) && Waiting(S(), done, worklist, f + 1)
      modifies this
      ensures Inv(S(), visited, f + 1) && Waiting(S(), visited, [], f + 1)
      ensures old(visited) <= visited
    {
      var list := worklist;
      ghost var gone := done;
      while list != []
        invariant Inv(S(), gone, f + 1) && Waiting(S(), gone, list, f + 1)
        invariant old(visited) <= visited
        decreases |Insts(p) - visited|, |list|
      {
        ghost var inst := list[0];
        list := ProcessNext(list, gone, f + 1);
        gone := gone + {inst};
      }
      NothingWaiting(S(), gone, f + 1);
    }

    // The body has linked every return to the exit node already, so this adds nothing.
    method ProcessFunExit(f: nat)
      requires f < |p.funs| && Inv(S(), visited, f + 1)
      requires forall at :: Covered(p, at) && at.fun == f ==> at in visited
      modifies this`edges
      ensures edges == old(edges)
    {
      for b := 0 to |p.funs[f].blocks|
        invariant edges == old(edges)
      {
        for i := 0 to |p.funs[f].blocks[b].insts|
          invariant edges == old(edges)
        {
          var at := Loc(f, b, i);
          if At(p, at).kind.Return? {
            ReturnIsIn(at);
            AddEdge(Edge(First(p, at), Exit(f), IntraCF), None);
          }
        }
      }
    }

    lemma ReturnIsIn(at: Loc)
      requires Inv(S(), visited, at.fun + 1) && In(p, at) && At(p, at).kind.Return?
      requires forall i :: Covered(p, i) && i.fun == at.fun ==> i in visited
      ensures var e := Edge(First(p, at), Exit(at.fun), IntraCF); e in edges && e.src in nodes && e.dst in nodes
    {
      assert ValidFunction(p.funs[at.fun], |p.funs|);
      ReturnIsLinked(S(), at.fun + 1, at);
    }

    // The source's final assertions, for every instruction of a function.
    method CheckICFGNodesVisited(f: nat)
      requires f < |p.funs| && Inv(S(), visited, f + 1)
      requires forall at :: Covered(p, at) && at.fun == f ==> at in visited
      ensures forall at :: In(p, at) && at.fun == f && !At(p, at).intrinsic ==> at in visited && First(p, at) in nodes
    {
      for b := 0 to |p.funs[f].blocks|
        invariant forall at :: In(p, at) && at.fun == f && at.block < b && !At(p, at).intrinsic ==>
          at in visited && First(p, at) in nodes
      {
        for i := 0 to |p.funs[f].blocks[b].insts|
          invariant forall at :: In(p, at) && at.fun == f && at.block == b && at.index < i && !At(p, at).intrinsic ==>
            at in visited && First(p, at) in nodes
        {
          if !At(p, Loc(f, b, i)).intrinsic {
            assert Loc(f, b, i) in visited;
            assert First(p, Loc(f, b, i)) in nodes;
          }
        }
      }
    }

    method AddFunctionNodes()
      requires Usable(p) && nodes == [] && edges == map[] && visited == {}
      modifies this`nodes
      ensures Inv(S(), visited, 0) && Waiting(S(), visited, [], 0)
    {
      nodes := [Global];
      for f := 0 to |p.funs|
        invariant Distinct(nodes)
        invariant forall n :: n in nodes <==> n == Global || ((n.Entry? || n.Exit?) && n.fun < f)
      {
        nodes := nodes + [Entry(f)];
        nodes := nodes + [Exit(f)];
      }
      FunctionNodes(S());
    }

    method ProcessFunction(f: nat)
      requires f < |p.funs| && Inv(S(), visited, f) && Waiting(S(), visited, [], f)
      modifies this
      ensures Inv(S(), visited, f + 1) && Waiting(S(), visited, [], f + 1)
      ensures old(visited) <= visited && forall at :: Covered(p, at) && at.fun == f ==> at in visited
    {
      ghost var done := visited;
      var worklist := ProcessFunEntry(f);
      ghost var entered := visited;
      worklist := ProcessUnreachableFromEntry(f, worklist, done);
      ProcessFunBody(f, worklist, done);
      FunctionVisited(S(), f);
      ProcessFunExit(f);
      CheckICFGNodesVisited(f);
    }

    // The global node has no edges before this.
    method ConnectGlobalToProgEntry()
      requires Connected(S(), 0)
      modifies this`edges
      ensures Connected(S(), |p.mains|)
    {
      for n := 0 to |p.mains|
        invariant Connected(S(), n)
      {
        ghost var s := S();
        edges := edges[Edge(Global, Entry(p.mains[n]), IntraCF) := None];
        ConnectMore(s, S(), n);
        assert Edge(Global, Entry(p.mains[n]), IntraCF) !in s.edges;
      }
    }

    method Build()
      requires Usable(p) && nodes == [] && edges == map[] && visited == {}
      modifies this
      ensures Built(S())
    {
      AddFunctionNodes();
      for f := 0 to |p.funs|
        invariant Inv(S(), visited, f) && Waiting(S(), visited, [], f)
        invariant forall at :: Covered(p, at) && at.fun < f ==> at in visited
      {
        ProcessFunction(f);
      }
      NothingConnected(S());
      ConnectGlobalToProgEntry();
      Completed(S());
    }
  }
}
