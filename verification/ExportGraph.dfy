/**
 * `writeGraph`: the subgraph that a neighbourhood induces, as numbered rows.
 *
 * The builder numbers the selected nodes in the order it iterates over them and walks the
 * edges that leave each. The in-degree and the bits it gathers on the way are stated over
 * the set of induced edges.
 *
 * A predicate that matches on a datatype with one constructor is unfolded by the
 * solver only where its parts are needed.
 */
module ExportGraph {
  import opened Collections
  import opened Graphs
  import opened Neighborhood

  // A pattern is an integer below 8, kept as its three bits.
  datatype Pattern = Pattern(one: bool, two: bool, four: bool) {
    function Or(bit: nat): Pattern {
      Pattern(one || bit == 1, two || bit == 2, four || bit == 4)
    }

    function Value(): nat {
      (if one then 1 else 0) + (if two then 2 else 0) + if four then 4 else 0
    }
  }

  const NONE := Pattern(false, false, false)

  datatype NodeRow = NodeRow(id: nat, pattern: nat, kind: nat, level: nat, pointedBy: nat)

  datatype EdgeRow = EdgeRow(src: nat, dst: nat, kind: nat)

  function EdgeType(kind: EdgeKind): nat {
    match kind
    case IntraDirectVF => 0
    case IntraIndirectVF => 1
    case CallDirVF => 2
    case RetDirVF => 3
    case CallIndVF => 4
    case RetIndVF => 5
    case ThreadMHPIndirectVF => 6
    case OtherVF => 0
  }

  function PatternForEdgeType(kind: nat): nat {
    if kind == 0 || kind == 2 || kind == 3 then 1
    else if kind == 1 then 2
    else if kind == 4 || kind == 5 || kind == 6 then 4
    else 1
  }

  function BitOf(e: Edge): nat {
    PatternForEdgeType(EdgeType(e.kind))
  }

  // The bit tells direct edges, intraprocedural indirect ones and the other indirect ones apart.
  lemma BitTellsKind(e: Edge)
    ensures BitOf(e) == 2 <==> e.kind.IntraIndirectVF?
    ensures BitOf(e) == 4 <==> e.kind.CallIndVF? || e.kind.RetIndVF? || e.kind.ThreadMHPIndirectVF?
    ensures BitOf(e) == 1 || BitOf(e) == 2 || BitOf(e) == 4
  {}

  // ---------------------------------------------------------------- the induced subgraph

  ghost predicate Induced(g: Graph, selected: set<nat>, e: Edge) {
    e.src in g.outgoing && e in g.outgoing[e.src] && e.src in selected && e.dst in selected
  }

  function Into(edges: set<Edge>, n: nat): set<Edge> {
    set e | e in edges && e.dst == n
  }

  predicate Meets(edges: set<Edge>, n: nat, bit: nat) {
    exists e <- edges :: (e.src == n || e.dst == n) && BitOf(e) == bit
  }

  // The bitwise or of the bits of the edges that meet a node.
  function Bits(edges: set<Edge>, n: nat): Pattern {
    Pattern(Meets(edges, n, 1), Meets(edges, n, 2), Meets(edges, n, 4))
  }

  lemma MeetsMore(edges: set<Edge>, e: Edge, n: nat, bit: nat)
    ensures Meets(edges + {e}, n, bit) <==> Meets(edges, n, bit) || ((e.src == n || e.dst == n) && BitOf(e) == bit)
  {
    if Meets(edges, n, bit) {
      var f :| f in edges && (f.src == n || f.dst == n) && BitOf(f) == bit;
      assert f in edges + {e};
    }
    assert e in edges + {e};
  }

  lemma BitsMore(edges: set<Edge>, e: Edge, n: nat)
    ensures Bits(edges + {e}, n) == if e.src == n || e.dst == n then Bits(edges, n).Or(BitOf(e)) else Bits(edges, n)
  {
    MeetsMore(edges, e, n, 1);
    MeetsMore(edges, e, n, 2);
    MeetsMore(edges, e, n, 4);
    BitTellsKind(e);
  }

  lemma IntoMore(edges: set<Edge>, e: Edge, n: nat)
    requires e !in edges
    ensures |Into(edges + {e}, n)| == |Into(edges, n)| + if e.dst == n then 1 else 0
  {
    if e.dst == n {
      assert Into(edges + {e}, n) == Into(edges, n) + {e};
    } else {
      assert Into(edges + {e}, n) == Into(edges, n);
    }
  }

  // The pattern is zero exactly when no edge meets the node.
  lemma NoBits(edges: set<Edge>, n: nat)
    ensures Bits(edges, n).Value() == 0 <==> forall e <- edges :: e.src != n && e.dst != n
  {
    forall e <- edges | e.src == n || e.dst == n
      ensures Meets(edges, n, 1) || Meets(edges, n, 2) || Meets(edges, n, 4)
    {
      BitTellsKind(e);
    }
  }

  // ---------------------------------------------------------------- gathering

  function GetOr<T>(m: map<nat, T>, n: nat, default: T): T {
    if n in m then m[n] else default
  }

  datatype Gathering = Gathering(rows: seq<EdgeRow>, pattern: map<nat, Pattern>, pointedBy: map<nat, nat>)

  // The rows so far stand for `listed`, and the maps agree with it.
  ghost predicate Gathered(listed: seq<Edge>, from: Gathering, localIds: map<nat, nat>) {
    match from
    case Gathering(rows, pattern, pointedBy) =>
      && Distinct(listed)
      && |rows| == |listed|
      && (forall k :: 0 <= k < |rows| ==>
            listed[k].src in localIds && listed[k].dst in localIds &&
            rows[k] == EdgeRow(localIds[listed[k].src], localIds[listed[k].dst], EdgeType(listed[k].kind)))
      && (forall n :: GetOr(pattern, n, NONE) == Bits(Elements(listed), n))
      && forall n :: GetOr(pointedBy, n, 0) == |Into(Elements(listed), n)|
  }

  lemma GatherOne(listed: seq<Edge>, from: Gathering, localIds: map<nat, nat>, e: Edge, to: Gathering)
    requires Gathered(listed, from, localIds)
    requires e !in listed && e.src in localIds && e.dst in localIds
    requires to.rows == from.rows + [EdgeRow(localIds[e.src], localIds[e.dst], EdgeType(e.kind))]
    requires forall n ::
      GetOr(to.pattern, n, NONE) == GetOr(from.pattern, n, NONE).Or(if n == e.src || n == e.dst then BitOf(e) else 0)
    requires forall n :: GetOr(to.pointedBy, n, 0) == GetOr(from.pointedBy, n, 0) + if n == e.dst then 1 else 0
    ensures Gathered(listed + [e], to, localIds)
  {
    assert Elements(listed + [e]) == Elements(listed) + {e};
    forall n
      ensures GetOr(to.pattern, n, NONE) == Bits(Elements(listed + [e]), n)
      ensures GetOr(to.pointedBy, n, 0) == |Into(Elements(listed + [e]), n)|
    {
      BitsMore(Elements(listed), e, n);
      IntoMore(Elements(listed), e, n);
    }
  }

  // The source sets the bit at one end of the edge, then at the other.
  function WithBit(pattern: map<nat, Pattern>, e: Edge): map<nat, Pattern> {
    var once := pattern[e.src := GetOr(pattern, e.src, NONE).Or(BitOf(e))];
    once[e.dst := GetOr(once, e.dst, NONE).Or(BitOf(e))]
  }

  // Gathers one induced edge that leaves `node`.
  method GatherEdge(e: Edge, localIds: map<nat, nat>, from: Gathering, ghost listed: seq<Edge>) returns (to: Gathering)
    requires Gathered(listed, from, localIds)
    requires e !in listed && e.src in localIds && e.dst in localIds
    ensures Gathered(listed + [e], to, localIds)
  {
    var pattern := WithBit(from.pattern, e);
    var pointedBy := from.pointedBy[e.dst := GetOr(from.pointedBy, e.dst, 0) + 1];
    to := Gathering(from.rows + [EdgeRow(localIds[e.src], localIds[e.dst], EdgeType(e.kind))], pattern, pointedBy);
    GatherOne(listed, from, localIds, e, to);
  }

  // The induced edges that leave one of the first `k` nodes or, of the next one, are among its first `j`.
  ghost predicate Listed(g: Graph, order: seq<nat>, k: nat, j: nat, listed: seq<Edge>)
    requires k <= |order|
  {
    forall e :: e in listed <==>
      && Induced(g, Elements(order), e)
      && (e.src in order[..k]
          || (k < |order| && e.src == order[k] && e in g.outgoing[e.src][..Least(j, |g.outgoing[e.src]|)]))
  }

  function Least(a: nat, b: nat): nat {
    if a < b then a else b
  }

  // Each node of `order` has its position, from 1, as its local id.
  ghost predicate NumberedBy(order: seq<nat>, localIds: map<nat, nat>) {
    && Distinct(order)
    && (forall n :: n in localIds <==> n in order)
    && forall k :: 0 <= k < |order| ==> localIds[order[k]] == k + 1
  }

  lemma NewEdge(g: Graph, order: seq<nat>, k: nat, j: nat, listed: seq<Edge>)
    requires Valid(g) && Distinct(order) && k < |order| && order[k] in g.outgoing && j < |g.outgoing[order[k]]|
    requires Listed(g, order, k, j, listed)
    ensures var e := g.outgoing[order[k]][j]; e !in listed && e.src == order[k]
    ensures var e := g.outgoing[order[k]][j];
      Listed(g, order, k, j + 1, if e.dst in order then listed + [e] else listed)
  {
    var node := order[k];
    var edges := g.outgoing[node];
    var e := edges[j];
    assert e in edges;
    assert node !in order[..k];
    assert edges[..j + 1] == edges[..j] + [e];
    assert e !in edges[..j];
    assert node in order;
  }

  lemma NextNode(g: Graph, order: seq<nat>, k: nat, listed: seq<Edge>)
    requires Valid(g) && k < |order| && order[k] in g.outgoing
    requires Listed(g, order, k, |g.outgoing[order[k]]|, listed)
    ensures Listed(g, order, k + 1, 0, listed)
  {
    var node := order[k];
    assert order[..k + 1] == order[..k] + [node];
    assert g.outgoing[node][..|g.outgoing[node]|] == g.outgoing[node];
  }

  lemma FirstNode(g: Graph, order: seq<nat>)
    ensures Listed(g, order, 0, 0, [])
  {}

  lemma LastNode(g: Graph, order: seq<nat>, listed: seq<Edge>)
    requires Listed(g, order, |order|, 0, listed)
    ensures forall e :: e in listed <==> Induced(g, Elements(order), e)
  {
    assert order[..|order|] == order;
  }

  method GatherNode(g: Graph, order: seq<nat>, k: nat, localIds: map<nat, nat>, from: Gathering,
                    ghost listed: seq<Edge>)
    returns (to: Gathering, ghost more: seq<Edge>)
    requires Valid(g) && NumberedBy(order, localIds) && k < |order| && order[k] in g.outgoing
    requires Gathered(listed, from, localIds) && Listed(g, order, k, 0, listed)
    ensures Gathered(more, to, localIds) && Listed(g, order, k + 1, 0, more)
  {
    to, more := from, listed;
    var edges := g.outgoing[order[k]];
    for j := 0 to |edges|
      invariant Gathered(more, to, localIds) && Listed(g, order, k, j, more)
    {
      var e := edges[j];
      NewEdge(g, order, k, j, more);
      if e.dst in localIds {
        assert order[k] in order;
        to := GatherEdge(e, localIds, to, more);
        more := more + [e];
      }
    }
    NextNode(g, order, k, more);
  }

  method GatherEdges(g: Graph, order: seq<nat>, localIds: map<nat, nat>)
    returns (to: Gathering, ghost listed: seq<Edge>)
    requires Valid(g) && NumberedBy(order, localIds) && forall n <- order :: n in g.outgoing
    ensures Gathered(listed, to, localIds)
    ensures forall e :: e in listed <==> Induced(g, Elements(order), e)
  {
    to, listed := Gathering([], map[], map[]), [];
    FirstNode(g, order);
    for k := 0 to |order|
      invariant Gathered(listed, to, localIds) && Listed(g, order, k, 0, listed)
    {
      to, listed := GatherNode(g, order, k, localIds, to, listed);
    }
    LastNode(g, order, listed);
  }

  // Numbers the members of a set from 1, in the order the set is iterated over.
  method Number(selected: set<nat>) returns (order: seq<nat>, localIds: map<nat, nat>)
    ensures NumberedBy(order, localIds) && Elements(order) == selected
  {
    order, localIds := [], map[];
    var left := selected;
    while left != {}
      invariant left <= selected && NumberedBy(order, localIds)
      invariant forall n :: n in order <==> n in selected && n !in left
      decreases |left|
    {
      var n :| n in left;
      left := left - {n};
      localIds := localIds[n := |order| + 1];
      order := order + [n];
    }
  }

  // The row of a node: its in-degree among the edges and the or of their bits, 7 when it meets none.
  function RowOf(types: map<nat, nat>, edges: set<Edge>, n: nat, id: nat): NodeRow {
    var bits := Bits(edges, n).Value();
    NodeRow(id, if bits == 0 then 7 else bits, GetOr(types, n, 0), 0, |Into(edges, n)|)
  }

  // A row names the edge's ends by their positions in `order`, from 1.
  predicate RowJoins(order: seq<nat>, row: EdgeRow, e: Edge) {
    && 1 <= row.src <= |order| && order[row.src - 1] == e.src
    && 1 <= row.dst <= |order| && order[row.dst - 1] == e.dst
    && row.kind == EdgeType(e.kind)
  }

  // The kinds in the order of the numbers they are written as; every other kind is written as 0.
  const KINDS := [IntraDirectVF, IntraIndirectVF, CallDirVF, RetDirVF, CallIndVF, RetIndVF, ThreadMHPIndirectVF]

  // The number in a row tells the kind of its edge, up to the kinds written as 0.
  lemma RowTellsKind(order: seq<nat>, row: EdgeRow, e: Edge)
    requires RowJoins(order, row, e)
    ensures row.kind < |KINDS|
    ensures e.kind in KINDS ==> KINDS[row.kind] == e.kind
    ensures e.kind !in KINDS ==> row.kind == 0
  {
    assert e.kind in KINDS || e.kind.OtherVF? by {
      assert KINDS[0] == IntraDirectVF && KINDS[1] == IntraIndirectVF && KINDS[2] == CallDirVF && KINDS[3] == RetDirVF;
      assert KINDS[4] == CallIndVF && KINDS[5] == RetIndVF && KINDS[6] == ThreadMHPIndirectVF;
    }
  }

  predicate EdgesNumbered(order: seq<nat>, listed: seq<Edge>, rows: seq<EdgeRow>) {
    |rows| == |listed| && forall k :: 0 <= k < |rows| ==> RowJoins(order, rows[k], listed[k])
  }

  // What the files hold: a row for each selected node, numbered from 1, and a row for each
  // induced edge, once.
  ghost predicate IsExport(
    g: Graph, selected: set<nat>, types: map<nat, nat>, order: seq<nat>, listed: seq<Edge>,
    nodes: seq<NodeRow>, edges: seq<EdgeRow>)
  {
    && Distinct(order) && Elements(order) == selected
    && Distinct(listed) && (forall e :: e in listed <==> Induced(g, selected, e))
    && |nodes| == |order|
    && (forall k :: 0 <= k < |nodes| ==> nodes[k] == RowOf(types, Elements(listed), order[k], k + 1))
    && EdgesNumbered(order, listed, edges)
  }

  // Whether some edge that meets a node is of one of the kinds.
  ghost predicate MeetsKind(listed: seq<Edge>, n: nat, kinds: set<EdgeKind>) {
    exists e <- listed :: (e.src == n || e.dst == n) && e.kind in kinds
  }

  // Column by column: a node's row has its number, its type, level 0 and its in-degree.
  lemma NodeRowTells(g: Graph, selected: set<nat>, types: map<nat, nat>, order: seq<nat>, listed: seq<Edge>,
                     nodes: seq<NodeRow>, edges: seq<EdgeRow>, k: nat)
    requires IsExport(g, selected, types, order, listed, nodes, edges) && k < |nodes|
    ensures nodes[k].id == k + 1 && nodes[k].level == 0
    ensures nodes[k].kind == if order[k] in types then types[order[k]] else 0
    ensures nodes[k].pointedBy == |set e | e in listed && e.dst == order[k]|
    ensures PatternTells(listed, order[k], nodes[k].pattern)
  {
    assert (set e | e in listed && e.dst == order[k]) == Into(Elements(listed), order[k]);
    PatternIs(listed, order[k]);
  }

  // Each of the three bits of a pattern stands for some kinds of edges; a node that no edge meets has all.
  ghost predicate PatternTells(listed: seq<Edge>, n: nat, pattern: nat) {
    var alone := forall e <- listed :: e.src != n && e.dst != n;
    && pattern < 8
    && (pattern % 2 == 1 <==> alone || MeetsKind(listed, n, {IntraDirectVF, CallDirVF, RetDirVF, OtherVF}))
    && (pattern / 2 % 2 == 1 <==> alone || MeetsKind(listed, n, {IntraIndirectVF}))
    && (pattern / 4 == 1 <==> alone || MeetsKind(listed, n, {CallIndVF, RetIndVF, ThreadMHPIndirectVF}))
  }

  lemma PatternIs(listed: seq<Edge>, n: nat)
    ensures var bits := Bits(Elements(listed), n).Value(); PatternTells(listed, n, if bits == 0 then 7 else bits)
  {
    NoBits(Elements(listed), n);
    MeetsIs(listed, n, 1, {IntraDirectVF, CallDirVF, RetDirVF, OtherVF});
    MeetsIs(listed, n, 2, {IntraIndirectVF});
    MeetsIs(listed, n, 4, {CallIndVF, RetIndVF, ThreadMHPIndirectVF});
    ThreeBits(Bits(Elements(listed), n));
  }

  lemma ThreeBits(b: Pattern)
    ensures b.Value() < 8 && (b.Value() % 2 == 1 <==> b.one)
    ensures (b.Value() / 2 % 2 == 1 <==> b.two) && (b.Value() / 4 == 1 <==> b.four)
  {}

  lemma MeetsIs(listed: seq<Edge>, n: nat, bit: nat, kinds: set<EdgeKind>)
    requires forall e: Edge :: BitOf(e) == bit <==> e.kind in kinds
    ensures Meets(Elements(listed), n, bit) <==> MeetsKind(listed, n, kinds)
  {}

  lemma IdsAreOrder(order: seq<nat>, localIds: map<nat, nat>, n: nat)
    requires NumberedBy(order, localIds) && n in order
    ensures n in localIds && 1 <= localIds[n] <= |order| && order[localIds[n] - 1] == n
  {
    var k :| 0 <= k < |order| && order[k] == n;
  }

  lemma {:induction false} NothingNear(adj: Adjacency<nat>, n: nat, d: nat)
    ensures !Near(adj, {}, n, d)
    decreases d
  {
    if Near(adj, {}, n, d) {
      var m :| Near(adj, {}, m, d - 1) && Joined(adj, m, n);
      NothingNear(adj, m, d - 1);
    }
  }

  lemma EmptyWithoutAnchors(adj: Adjacency<nat>, anchors: seq<nat>, selected: set<nat>, d: nat)
    requires forall n :: n in selected <==> Near(adj, Elements(anchors), n, d)
    ensures selected == {} <==> anchors == []
  {
    if anchors == [] {
      forall n
        ensures n !in selected
      {
        assert Elements(anchors) == {};
        NothingNear(adj, n, d);
      }
    } else {
      assert anchors[0] in Elements(anchors);
      assert anchors[0] in selected;
    }
  }

  method NodeRows(types: map<nat, nat>, order: seq<nat>, localIds: map<nat, nat>, gathered: Gathering,
                  ghost listed: seq<Edge>)
    returns (nodes: seq<NodeRow>)
    requires NumberedBy(order, localIds) && Gathered(listed, gathered, localIds)
    ensures |nodes| == |order|
    ensures forall k :: 0 <= k < |nodes| ==> nodes[k] == RowOf(types, Elements(listed), order[k], k + 1)
  {
    nodes := [];
    for k := 0 to |order|
      invariant |nodes| == k
      invariant forall i :: 0 <= i < k ==> nodes[i] == RowOf(types, Elements(listed), order[i], i + 1)
    {
      var row := RowFor(types, order[k], k + 1, localIds, gathered, listed);
      nodes := nodes + [row];
    }
  }

  method RowFor(types: map<nat, nat>, node: nat, ghost id: nat, localIds: map<nat, nat>, gathered: Gathering,
                ghost listed: seq<Edge>)
    returns (row: NodeRow)
    requires node in localIds && localIds[node] == id
    requires Gathered(listed, gathered, localIds)
    ensures row == RowOf(types, Elements(listed), node, id)
  {
    var bits := GetOr(gathered.pattern, node, NONE).Value();
    if bits == 0 {
      bits := 7;
    }
    row := NodeRow(localIds[node], bits, GetOr(types, node, 0), 0, GetOr(gathered.pointedBy, node, 0));
  }

  // An object that no node touches gets one row that stands for itself.
  method WriteGraph(g: Graph, types: map<nat, nat>, anchors: seq<nat>)
    returns (nodes: seq<NodeRow>, edges: seq<EdgeRow>,
             ghost selected: set<nat>, ghost order: seq<nat>, ghost listed: seq<Edge>)
    requires Valid(g) && forall a <- anchors :: a in g.outgoing
    ensures forall n :: n in selected <==> Near(Neighbours(g), Elements(anchors), n, 2)
    ensures anchors == [] ==> nodes == [NodeRow(1, 7, 12, 0, 0)] && edges == []
    ensures anchors != [] ==> IsExport(g, selected, types, order, listed, nodes, edges)
  {
    var chosen := CollectNeighborhood(g, anchors, 2);
    var sequence, localIds := Number(chosen);
    var gathered;
    gathered, listed := GatherEdges(g, sequence, localIds);
    selected, order, edges := chosen, sequence, gathered.rows;
    EmptyWithoutAnchors(Neighbours(g), anchors, chosen, 2);
    if chosen == {} {
      nodes := [NodeRow(1, 7, 12, 0, 0)];
      edges := [];
    } else {
      nodes := NodeRows(types, sequence, localIds, gathered, listed);
      EdgeRowsNumbered(sequence, localIds, gathered, listed);
    }
  }

  lemma EdgeRowsNumbered(order: seq<nat>, localIds: map<nat, nat>, gathered: Gathering, listed: seq<Edge>)
    requires NumberedBy(order, localIds) && Gathered(listed, gathered, localIds)
    ensures EdgesNumbered(order, listed, gathered.rows)
  {
    forall k | 0 <= k < |listed|
      ensures RowJoins(order, gathered.rows[k], listed[k])
    {
      IdsAreOrder(order, localIds, listed[k].src);
      IdsAreOrder(order, localIds, listed[k].dst);
    }
  }
}
