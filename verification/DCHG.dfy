/** The class hierarchy graph over debug types: canonical types, nodes and edges, memoised transitive
    children, and the completion that puts void above everything.

    A predicate that matches on a datatype with one constructor is unfolded by the solver only where
    its parts are needed. */
module DCHG {
  import opened DebugTypes
  import G = Graphs

  type NodeID = nat

  datatype Kind = Inheritance | Instance | FirstField | StdDef
  datatype Edge = Edge(src: NodeID, dst: NodeID, kind: Kind)

  // ---------------------------------------------------------------- reachability

  /** Edges that a query follows: inheritance and standard edges, and first-field edges on request. */
  predicate Permitted(e: Edge, firstField: bool) {
    (e.kind.Inheritance? || e.kind.FirstField? || e.kind.StdDef?) && (firstField || !e.kind.FirstField?)
  }

  ghost predicate IsStep(edges: set<Edge>, ff: bool, a: NodeID, b: NodeID) {
    exists e :: e in edges && Permitted(e, ff) && e.src == a && e.dst == b
  }

  /** A query goes up inheritance and standard edges, and first-field edges if asked to; it never goes up
      an edge between instances. */
  lemma StepIs(edges: set<Edge>, ff: bool, a: NodeID, b: NodeID)
    ensures IsStep(edges, ff, a, b) <==>
      Edge(a, b, Inheritance) in edges || Edge(a, b, StdDef) in edges || (ff && Edge(a, b, FirstField) in edges)
  {
    if e :| e in edges && Permitted(e, ff) && e.src == a && e.dst == b {
      assert e == Edge(a, b, e.kind);
    }
  }

  ghost predicate IsPath(edges: set<Edge>, ff: bool, p: seq<NodeID>) {
    |p| > 0 && forall i :: 0 <= i < |p| - 1 ==> IsStep(edges, ff, p[i], p[i + 1])
  }

  /** a is b or derives from b through permitted edges. */
  ghost predicate Derives(edges: set<Edge>, ff: bool, a: NodeID, b: NodeID) {
    exists p :: IsPath(edges, ff, p) && p[0] == a && p[|p| - 1] == b
  }

  lemma DerivesSelf(edges: set<Edge>, ff: bool, a: NodeID)
    ensures Derives(edges, ff, a, a)
  {
    assert IsPath(edges, ff, [a]);
  }

  lemma DerivesTrans(edges: set<Edge>, ff: bool, a: NodeID, b: NodeID, c: NodeID)
    requires Derives(edges, ff, a, b) && Derives(edges, ff, b, c)
    ensures Derives(edges, ff, a, c)
  {
    var p :| IsPath(edges, ff, p) && p[0] == a && p[|p| - 1] == b;
    var q :| IsPath(edges, ff, q) && q[0] == b && q[|q| - 1] == c;
    var r := p + q[1..];
    forall i | 0 <= i < |r| - 1
      ensures IsStep(edges, ff, r[i], r[i + 1])
    {
      if i < |p| - 1 {
        assert IsStep(edges, ff, p[i], p[i + 1]);
      } else {
        assert IsStep(edges, ff, q[i - |p| + 1], q[i - |p| + 2]);
        assert r[i] == q[i - |p| + 1];
      }
    }
    assert IsPath(edges, ff, r) && r[0] == a && r[|r| - 1] == c;
  }

  lemma DerivesEdge(edges: set<Edge>, ff: bool, e: Edge)
    requires e in edges && Permitted(e, ff)
    ensures Derives(edges, ff, e.src, e.dst)
  {
    assert IsStep(edges, ff, e.src, e.dst);
    assert IsPath(edges, ff, [e.src, e.dst]);
  }

  /** The last edge of a derivation. */
  lemma LastEdge(edges: set<Edge>, ff: bool, a: NodeID, b: NodeID) returns (e: Edge)
    requires Derives(edges, ff, a, b) && a != b
    ensures e in edges && Permitted(e, ff) && e.dst == b && Derives(edges, ff, a, e.src)
  {
    var p :| IsPath(edges, ff, p) && p[0] == a && p[|p| - 1] == b;
    var n := |p| - 2;
    assert IsStep(edges, ff, p[n], p[n + 1]);
    e :| e in edges && Permitted(e, ff) && e.src == p[n] && e.dst == b;
    var q := p[..n + 1];
    assert forall i :: 0 <= i < n ==> IsStep(edges, ff, p[i], p[i + 1]);
    assert IsPath(edges, ff, q) && q[|q| - 1] == e.src;
  }

  /** A ranking witnesses that the edges a query follows have no cycle: they lead to lower ranks, and
      none is above top. */
  datatype Ranking = Ranking(rank: map<NodeID, nat>, top: nat)

  ghost predicate Ranked(edges: set<Edge>, ff: bool, r: Ranking) {
    match r
    case Ranking(rank, top) =>
      forall e :: e in edges && Permitted(e, ff) ==> e.src in rank && e.dst in rank && rank[e.dst] < rank[e.src] <= top
  }

  ghost function Parents(edges: set<Edge>, ff: bool, a: NodeID): (bs: set<NodeID>)
    ensures forall b :: b in bs <==> IsStep(edges, ff, a, b)
  {
    set e | e in edges && Permitted(e, ff) && e.src == a :: e.dst
  }

  ghost function Endpoints(edges: set<Edge>): (nodes: set<NodeID>)
    ensures forall e :: e in edges ==> e.src in nodes && e.dst in nodes
  {
    (set e | e in edges :: e.src) + (set e | e in edges :: e.dst)
  }

  /** The graph that a query walks. */
  ghost function Followed(edges: set<Edge>, ff: bool): (g: G.Adjacency<NodeID>)
    ensures g.Keys == Endpoints(edges)
    ensures forall a, b :: G.Joined(g, a, b) <==> IsStep(edges, ff, a, b)
  {
    map a | a in Endpoints(edges) :: Parents(edges, ff, a)
  }

  /** There is a ranking exactly when no edges that the query follows close a cycle, whatever the other
      edges do. */
  lemma RankedIffAcyclic(edges: set<Edge>, ff: bool)
    ensures (exists r :: Ranked(edges, ff, r)) <==> G.Acyclic(Followed(edges, ff))
  {
    G.RanksIffAcyclic(Followed(edges, ff));
    if r :| Ranked(edges, ff, r) {
      RankedIsRanks(edges, ff, r);
    }
    if rank :| G.Ranks(Followed(edges, ff), rank) {
      var r := RanksIsRanked(edges, ff, rank);
    }
  }

  lemma RankedIsRanks(edges: set<Edge>, ff: bool, r: Ranking)
    requires Ranked(edges, ff, r)
    ensures G.Ranks(Followed(edges, ff), r.rank)
  {
    forall a, b | G.Joined(Followed(edges, ff), a, b)
      ensures a in r.rank && b in r.rank && r.rank[b] < r.rank[a]
    {
      assert IsStep(edges, ff, a, b);
    }
  }

  lemma RanksIsRanked(edges: set<Edge>, ff: bool, rank: map<NodeID, nat>) returns (r: Ranking)
    requires G.Ranks(Followed(edges, ff), rank)
    ensures Ranked(edges, ff, r)
  {
    var g := Followed(edges, ff);
    var all := map n | n in g :: if n in rank then rank[n] + 1 else 0;
    var top := HighestRank(all, all.Keys);
    r := Ranking(all, top);
    forall e | e in edges && Permitted(e, ff)
      ensures e.src in all && e.dst in all && all[e.dst] < all[e.src] <= top
    {
      assert IsStep(edges, ff, e.src, e.dst);
      assert G.Joined(g, e.src, e.dst);
    }
  }

  lemma {:induction false} HighestRank(m: map<NodeID, nat>, s: set<NodeID>) returns (top: nat)
    requires s <= m.Keys
    ensures forall n :: n in s ==> m[n] <= top
    decreases s
  {
    top := 0;
    if s != {} {
      var n :| n in s;
      top := HighestRank(m, s - {n});
      top := if m[n] > top then m[n] else top;
    }
  }

  ghost function Children(edges: set<Edge>, ff: bool, b: NodeID): (bs: set<NodeID>)
    ensures forall a :: a in bs <==> IsStep(edges, ff, a, b)
  {
    set e | e in edges && Permitted(e, ff) && e.dst == b :: e.src
  }

  /** The calls that the recursion over children makes as long as nothing is cached: against the edges,
      from a node to each of its children. */
  ghost function Recursion(edges: set<Edge>, ff: bool): (g: G.Adjacency<NodeID>)
    ensures g.Keys == Endpoints(edges)
    ensures forall a, b :: G.Joined(g, b, a) <==> IsStep(edges, ff, a, b)
  {
    map b | b in Endpoints(edges) :: Children(edges, ff, b)
  }

  /** The recursion ends, wherever it starts, exactly when there is a ranking: when no edges that the query
      follows close a cycle. */
  lemma RecursionEndsIff(edges: set<Edge>, ff: bool)
    ensures G.AlwaysEnds(Recursion(edges, ff)) <==> exists r :: Ranked(edges, ff, r)
  {
    G.AlwaysEndsIffAcyclic(Recursion(edges, ff));
    G.RanksIffAcyclic(Recursion(edges, ff));
    if r :| Ranked(edges, ff, r) {
      var rank := RankedUpward(edges, ff, r);
    }
    if rank :| G.Ranks(Recursion(edges, ff), rank) {
      var r := UpwardRanked(edges, ff, rank);
    }
  }

  lemma RankedUpward(edges: set<Edge>, ff: bool, r: Ranking) returns (rank: map<NodeID, nat>)
    requires Ranked(edges, ff, r)
    ensures G.Ranks(Recursion(edges, ff), rank)
  {
    rank := map n | n in Endpoints(edges) :: if n in r.rank && r.rank[n] <= r.top then r.top - r.rank[n] else 0;
    forall a, b | G.Joined(Recursion(edges, ff), b, a)
      ensures b in rank && a in rank && rank[a] < rank[b]
    {
      assert IsStep(edges, ff, a, b);
    }
  }

  lemma UpwardRanked(edges: set<Edge>, ff: bool, rank: map<NodeID, nat>) returns (r: Ranking)
    requires G.Ranks(Recursion(edges, ff), rank)
    ensures Ranked(edges, ff, r)
  {
    var top := HighestRank(rank, rank.Keys);
    r := Ranking(map n | n in Endpoints(edges) :: if n in rank then top - rank[n] else 0, top);
    forall e | e in edges && Permitted(e, ff)
      ensures e.src in r.rank && e.dst in r.rank && r.rank[e.dst] < r.rank[e.src] <= top
    {
      assert IsStep(edges, ff, e.src, e.dst);
      assert G.Joined(Recursion(edges, ff), e.dst, e.src);
    }
  }

  /** Two classes that derive from each other: no depth of calls suffices. */
  lemma CycleNeverEnds(edges: set<Edge>, ff: bool, a: NodeID, b: NodeID, n: nat)
    requires IsStep(edges, ff, a, b) && IsStep(edges, ff, b, a)
    ensures !G.EndsWithin(Recursion(edges, ff), a, n)
  {
    assert G.Joined(Recursion(edges, ff), a, b) && G.Joined(Recursion(edges, ff), b, a);
    assert G.Circle(Recursion(edges, ff), [a, b, a]);
    G.CircleNeverEnds(Recursion(edges, ff), [a, b, a], n);
  }

  /** The node lies at most height below the top. */
  ghost predicate Within(n: NodeID, r: Ranking, height: nat) {
    n in r.rank ==> r.rank[n] + height >= r.top
  }

  // ---------------------------------------------------------------- the graph

  /** Nodes are only ever added. */
  ghost predicate Kept(before: map<NodeID, DIType>, after: map<NodeID, DIType>) {
    forall m :: m in before ==> m in after && after[m] == before[m]
  }

  lemma AddPresent(edges: set<Edge>, e: Edge)
    requires e in edges
    ensures edges + {e} == edges
  {
  }

  lemma WithEdge(g: Nodes, e: Edge)
    requires NodesOk(g) && e.src in g.typeOf && e.dst in g.typeOf
    ensures NodesOk(g.(edges := g.edges + {e}))
  {
  }

  lemma WithNode(g: Nodes, c: DIType)
    requires NodesOk(g) && c in g.reps && c !in g.nodeOf
    ensures NodesOk(g.(nodeOf := g.nodeOf[c := g.num], typeOf := g.typeOf[g.num := c], num := g.num + 1))
    ensures g.num !in g.typeOf
  {
  }

  datatype Canon = Canon(representative: map<DIType, DIType>, representatives: set<DIType>)

  /** Representatives are stripped and pairwise unequal, represent themselves, and every mapped type
      equals its representative. */
  ghost predicate CanonOk(c: Canon) {
    match c
    case Canon(m, reps) =>
      && (forall r :: r in reps ==> Strip(r) == r && Proper(r) && r in m && m[r] == r)
      && (forall r, q :: r in reps && q in reps && Teq(r, q) ==> r == q)
      && (forall t :: t in m ==> m[t] in reps && Teq(t, m[t]))
  }

  datatype Nodes = Nodes(reps: set<DIType>, nodeOf: map<DIType, NodeID>, typeOf: map<NodeID, DIType>, num: nat,
                         edges: set<Edge>)

  /** There is at most one node for each representative, and edges join nodes. */
  ghost predicate NodesOk(g: Nodes) {
    match g
    case Nodes(reps, nodeOf, typeOf, num, edges) =>
      && (forall t :: t in nodeOf ==> t in reps && nodeOf[t] in typeOf && typeOf[nodeOf[t]] == t)
      && (forall n :: n in typeOf ==> n < num && typeOf[n] in nodeOf && nodeOf[typeOf[n]] == n)
      && (forall e :: e in edges ==> e.src in typeOf && e.dst in typeOf)
  }

  class Graph {
    var canonicalTypeMap: map<DIType, DIType>
    var canonicalTypes: set<DIType>
    var nodeOf: map<DIType, NodeID>
    var typeOf: map<NodeID, DIType>
    var numTypes: nat
    var edges: set<Edge>
    var chaMap: map<DIType, set<NodeID>>
    var chaFFMap: map<DIType, set<NodeID>>

    ghost predicate CanonValid()
      reads this`canonicalTypeMap, this`canonicalTypes
    {
      CanonOk(Canon(canonicalTypeMap, canonicalTypes))
    }

    /** r is the representative of t. */
    ghost predicate Represents(r: DIType, t: DIType)
      reads this`canonicalTypes
    {
      r in canonicalTypes && Teq(t, r)
    }

    constructor ()
      ensures CanonValid() && canonicalTypes == {}
      ensures GraphValid() && nodeOf == map[] && edges == {}
      ensures chaMap == map[] && chaFFMap == map[]
    {
      canonicalTypeMap, canonicalTypes := map[], {};
      nodeOf, typeOf, numTypes, edges := map[], map[], 0, {};
      chaMap, chaFFMap := map[], map[];
    }

    /** The representative of t, chosen when an equal type is asked for first. */
    method GetCanonicalType(t0: DIType) returns (r: DIType)
      requires CanonValid() && Proper(t0)
      modifies this`canonicalTypeMap, this`canonicalTypes
      ensures CanonValid() && Represents(r, t0)
      ensures old(canonicalTypes) <= canonicalTypes
      ensures forall k :: k in old(canonicalTypeMap) ==>
                k in canonicalTypeMap && canonicalTypeMap[k] == old(canonicalTypeMap[k])
    {
      var t := Strip(t0);
      TeqStrip(t0, t0);
      if t0 in canonicalTypeMap { return canonicalTypeMap[t0]; }
      if t0 != t && t in canonicalTypeMap {
        TeqStrip(t0, canonicalTypeMap[t]);
        canonicalTypeMap := canonicalTypeMap[t0 := canonicalTypeMap[t]];
        return canonicalTypeMap[t0];
      }
      var rest := canonicalTypes;
      while rest != {}
        invariant rest <= canonicalTypes
        invariant forall c :: c in canonicalTypes && c !in rest ==> !Teq(t, c)
        decreases rest
      {
        var c :| c in rest;
        if Teq(t, c) {
          TeqStrip(t0, c);
          StripTwice(t0);
          canonicalTypeMap := canonicalTypeMap[t := c];
          return canonicalTypeMap[t];
        }
        rest := rest - {c};
      }
      NewRepresentative(t);
      TeqStrip(t0, t);
      canonicalTypes := canonicalTypes + {t};
      canonicalTypeMap := canonicalTypeMap[t := t];
      return canonicalTypeMap[t];
    }

    lemma NewRepresentative(t: DIType)
      requires forall c :: c in canonicalTypes ==> !Teq(t, c)
      ensures Teq(t, t) && t !in canonicalTypes
      ensures forall c :: c in canonicalTypes ==> !Teq(c, t)
    {
      TeqIsEquivalence(t, t, t);
      forall c | c in canonicalTypes
        ensures !Teq(c, t)
      {
        TeqIsEquivalence(c, t, t);
      }
    }

    /** In any one state two types have one representative exactly when they are equal. */
    lemma RepresentativesAgree(a: DIType, b: DIType, r: DIType, s: DIType)
      requires CanonValid() && Represents(r, a) && Represents(s, b)
      ensures r == s <==> Teq(a, b)
    {
      TeqIffSameKey(a, r);
      TeqIffSameKey(b, s);
      TeqIffSameKey(a, b);
      TeqIffSameKey(r, s);
    }

    /** After any sequence of calls, answers are the same exactly when the types asked for are equal,
        however far apart the calls were, and asking for an answer gives that answer. */
    method CanonicalTypes(ts: seq<DIType>) returns (rs: seq<DIType>)
      requires CanonValid() && forall i :: 0 <= i < |ts| ==> Proper(ts[i])
      modifies this`canonicalTypeMap, this`canonicalTypes
      ensures CanonValid() && |rs| == |ts|
      ensures forall i :: 0 <= i < |ts| ==> Represents(rs[i], ts[i])
      ensures forall i, j :: 0 <= i < |ts| && 0 <= j < |ts| ==> (rs[i] == rs[j] <==> Teq(ts[i], ts[j]))
      ensures forall i, j :: 0 <= i < |ts| && 0 <= j < |ts| && ts[j] == rs[i] ==> rs[j] == rs[i]
    {
      rs := [];
      for i := 0 to |ts|
        invariant CanonValid() && |rs| == i
        invariant forall k :: 0 <= k < i ==> Represents(rs[k], ts[k])
      {
        var r := GetCanonicalType(ts[i]);
        rs := rs + [r];
      }
      forall i, j | 0 <= i < |ts| && 0 <= j < |ts|
        ensures rs[i] == rs[j] <==> Teq(ts[i], ts[j])
        ensures ts[j] == rs[i] ==> rs[j] == rs[i]
      {
        RepresentativesAgree(ts[i], ts[j], rs[i], rs[j]);
      }
    }

    // -------------------------------------------------------------- nodes and edges

    ghost predicate GraphValid()
      reads this`canonicalTypes, this`nodeOf, this`typeOf, this`numTypes, this`edges
    {
      NodesOk(Nodes(canonicalTypes, nodeOf, typeOf, numTypes, edges))
    }

    /** n is the node of t. */
    ghost predicate IsNodeOf(n: NodeID, t: DIType)
      reads this`typeOf
    {
      n in typeOf && Teq(t, typeOf[n])
    }

    lemma NodeIsUnique(n: NodeID, m: NodeID, a: DIType, b: DIType)
      requires CanonValid() && GraphValid() && IsNodeOf(n, a) && IsNodeOf(m, b)
      ensures n == m <==> Teq(a, b)
    {
      RepresentativesAgree(a, b, typeOf[n], typeOf[m]);
    }

    method GetOrCreateNode(t: DIType) returns (n: NodeID)
      requires CanonValid() && GraphValid() && Proper(t)
      modifies this`canonicalTypeMap, this`canonicalTypes, this`nodeOf, this`typeOf, this`numTypes
      ensures CanonValid() && GraphValid() && IsNodeOf(n, t)
      ensures Kept(old(typeOf), typeOf) && forall m :: m in typeOf ==> m in old(typeOf) || m == n
      ensures old(canonicalTypes) <= canonicalTypes
      ensures forall c :: c in old(nodeOf) ==> c in nodeOf && nodeOf[c] == old(nodeOf[c])
    {
      var c := GetCanonicalType(t);
      if c in nodeOf { return nodeOf[c]; }
      n := NewNode(c);
    }

    method NewNode(c: DIType) returns (n: NodeID)
      requires GraphValid() && c in canonicalTypes && c !in nodeOf
      modifies this`nodeOf, this`typeOf, this`numTypes
      ensures GraphValid() && n !in old(typeOf) && typeOf == old(typeOf)[n := c] && nodeOf == old(nodeOf)[c := n]
    {
      WithNode(Nodes(canonicalTypes, nodeOf, typeOf, numTypes, edges), c);
      n := numTypes;
      numTypes := numTypes + 1;
      nodeOf, typeOf := nodeOf[c := n], typeOf[n := c];
    }

    method AddEdge(t1: DIType, t2: DIType, kind: Kind) returns (e: Edge)
      requires CanonValid() && GraphValid() && Proper(t1) && Proper(t2)
      modifies this`canonicalTypeMap, this`canonicalTypes, this`nodeOf, this`typeOf, this`numTypes, this`edges
      ensures CanonValid() && GraphValid()
      ensures Kept(old(typeOf), typeOf)
      ensures IsNodeOf(e.src, t1) && IsNodeOf(e.dst, t2) && e.kind == kind
      ensures forall m :: m in typeOf ==> m in old(typeOf) || m == e.src || m == e.dst
      ensures edges == old(edges) + {e}
    {
      var src := GetOrCreateNode(t1);
      var dst := GetOrCreateNode(t2);
      e := Edge(src, dst, kind);
      WithEdge(Nodes(canonicalTypes, nodeOf, typeOf, numTypes, edges), e);
      if e in edges {
        AddPresent(edges, e);
      } else {
        edges := edges + {e};
      }
    }

    // -------------------------------------------------------------- transitive children

    ghost predicate CachesValid()
      reads this`nodeOf, this`edges, this`chaMap, this`chaFFMap
    {
      CacheOk(chaMap, nodeOf, Query(edges, false)) && CacheOk(chaFFMap, nodeOf, Query(edges, true))
    }

    ghost predicate Valid()
      reads this
    {
      CanonValid() && GraphValid() && CachesValid()
    }

    method CachedChildren(c: DIType, ff: bool) returns (found: bool, children: set<NodeID>)
      ensures found <==> c in (if ff then chaFFMap else chaMap)
      ensures found ==> children == (if ff then chaFFMap else chaMap)[c]
    {
      var cache := if ff then chaFFMap else chaMap;
      found := c in cache;
      children := if found then cache[c] else {};
    }

    /** All types that derive from t, itself included.  If the edges that it follows have no cycle the
        memoised recursion ends and finds exactly the nodes that reach t's.  height bounds how far below the top
        rank t's node is. */
    method Cha(t: DIType, ff: bool, ghost r: Ranking, ghost height: nat)
      returns (children: set<NodeID>, ghost n: NodeID)
      requires Valid() && Proper(t) && Ranked(edges, ff, r)
      requires r.rank.Keys <= typeOf.Keys && forall m :: IsNodeOf(m, t) ==> Within(m, r, height)
      modifies this`canonicalTypeMap, this`canonicalTypes, this`nodeOf, this`typeOf, this`numTypes
      modifies this`chaMap, this`chaFFMap
      ensures Valid() && IsNodeOf(n, t)
      ensures Kept(old(typeOf), typeOf) && forall m :: m in typeOf ==> m in old(typeOf) || m == n
      ensures IsChildren(children, Query(edges, ff), n)
      decreases height, 4
    {
      var c := CanonicalIn(t);
      var found;
      found, children := CachedChildren(c, ff);
      if found {
        n := nodeOf[c];
        return;
      }
      var node := NodeIn(c);
      n := node;
      NodeKnown(n, c, t);
      children := NewChildren(node, ff, r, height);
    }

    /** Collect and cache the children of a node. */
    method NewChildren(node: NodeID, ff: bool, ghost r: Ranking, ghost height: nat) returns (children: set<NodeID>)
      requires Valid() && node in typeOf && Ranked(edges, ff, r) && r.rank.Keys <= typeOf.Keys
      requires Within(node, r, height)
      modifies this`canonicalTypeMap, this`canonicalTypes, this`nodeOf, this`typeOf, this`numTypes
      modifies this`chaMap, this`chaFFMap
      ensures Valid() && typeOf == old(typeOf)
      ensures IsChildren(children, Query(edges, ff), node)
      decreases height, 3
    {
      children := CollectChildren(node, ff, r, height);
      Store(node, ff, children);
    }

    /** GetCanonicalType leaves the graph and the caches valid. */
    method CanonicalIn(t: DIType) returns (c: DIType)
      requires Valid() && Proper(t)
      modifies this`canonicalTypeMap, this`canonicalTypes
      ensures Valid() && Represents(c, t) && Proper(c)
      ensures c in nodeOf ==> IsNodeOf(nodeOf[c], t)
    {
      c := GetCanonicalType(t);
    }

    /** GetOrCreateNode leaves the caches valid. */
    method NodeIn(c: DIType) returns (n: NodeID)
      requires Valid() && Proper(c) && c in canonicalTypes
      modifies this`canonicalTypeMap, this`canonicalTypes, this`nodeOf, this`typeOf, this`numTypes
      ensures Valid() && IsNodeOf(n, c) && c in canonicalTypes
      ensures Kept(old(typeOf), typeOf) && forall m :: m in typeOf ==> m in old(typeOf) || m == n
      ensures old(canonicalTypes) <= canonicalTypes
    {
      n := GetOrCreateNode(c);
      TeqIsEquivalence(c, c, c);
    }

    method Store(node: NodeID, ff: bool, children: set<NodeID>)
      requires Valid() && node in typeOf && IsChildren(children, Query(edges, ff), node)
      modifies this`chaMap, this`chaFFMap
      ensures Valid()
    {
      if ff {
        chaFFMap := chaFFMap[typeOf[node] := children];
      } else {
        chaMap := chaMap[typeOf[node] := children];
      }
    }

    lemma NodeKnown(n: NodeID, c: DIType, t: DIType)
      requires CanonValid() && GraphValid() && IsNodeOf(n, c) && Represents(c, t)
      ensures IsNodeOf(n, t) && typeOf[n] == c
    {
      RepresentativesAgree(c, t, typeOf[n], c);
      TeqIsEquivalence(t, c, typeOf[n]);
    }

    /** The node and the children of the nodes below it. */
    method CollectChildren(node: NodeID, ff: bool, ghost r: Ranking, ghost height: nat)
      returns (children: set<NodeID>)
      requires Valid() && node in typeOf && Ranked(edges, ff, r) && r.rank.Keys <= typeOf.Keys
      requires Within(node, r, height)
      modifies this`canonicalTypeMap, this`canonicalTypes, this`nodeOf, this`typeOf, this`numTypes
      modifies this`chaMap, this`chaFFMap
      ensures Valid() && typeOf == old(typeOf)
      ensures IsChildren(children, Query(edges, ff), node)
      decreases height, 2
    {
      children := {node};
      var rest := set e | e in edges && e.dst == node;
      Initially(edges, ff, node);
      while rest != {}
        invariant Valid() && typeOf == old(typeOf)
        invariant forall e :: e in rest ==> e in edges && e.dst == node
        invariant Partial(children, Query(edges, ff), node, rest)
        decreases rest
      {
        var e :| e in rest;
        var cchildren := ChildrenOver(e, ff, r, height);
        Covered(children, edges, ff, node, rest, e, cchildren);
        rest := rest - {e};
        children := children + cchildren;
      }
      AllCovered(children, edges, ff, node);
    }

    method ChildrenOver(e: Edge, ff: bool, ghost r: Ranking, ghost height: nat) returns (children: set<NodeID>)
      requires Valid() && e in edges && Ranked(edges, ff, r) && r.rank.Keys <= typeOf.Keys
      requires Within(e.dst, r, height)
      modifies this`canonicalTypeMap, this`canonicalTypes, this`nodeOf, this`typeOf, this`numTypes
      modifies this`chaMap, this`chaFFMap
      ensures Valid() && typeOf == old(typeOf)
      ensures if Permitted(e, ff) then IsChildren(children, Query(edges, ff), e.src) else children == {}
      decreases height, 1
    {
      children := {};
      if Permitted(e, ff) {
        children := ChildrenVia(e, ff, r, height);
      }
    }

    method ChildrenVia(e: Edge, ff: bool, ghost r: Ranking, ghost height: nat)
      returns (children: set<NodeID>)
      requires Valid() && e in edges && Permitted(e, ff) && Ranked(edges, ff, r) && r.rank.Keys <= typeOf.Keys
      requires Within(e.dst, r, height)
      modifies this`canonicalTypeMap, this`canonicalTypes, this`nodeOf, this`typeOf, this`numTypes
      modifies this`chaMap, this`chaFFMap
      ensures Valid() && typeOf == old(typeOf)
      ensures IsChildren(children, Query(edges, ff), e.src)
      decreases height, 0
    {
      var t := typeOf[e.src];
      ghost var n;
      TeqIsEquivalence(t, t, t);
      forall m | IsNodeOf(m, t)
        ensures m == e.src
      {
        NodeIsUnique(m, e.src, t, t);
      }
      children, n := Cha(t, ff, r, height - 1);
      NodeIsUnique(n, e.src, t, t);
      assert typeOf == old(typeOf);
    }

    /** The node of a type is the one kept for its representative. */
    lemma FindNode(t: DIType, c: DIType, x: NodeID)
      requires CanonValid() && GraphValid() && Represents(c, t) && IsNodeOf(x, t)
      ensures typeOf[x] == c && c in nodeOf && nodeOf[c] == x
    {
      RepresentativesAgree(t, t, c, typeOf[x]);
      TeqIsEquivalence(t, t, t);
    }

    /** Whether a is b or a base of b; both types must have nodes, x and y. */
    method IsBase(a: DIType, b: DIType, ff: bool, ghost r: Ranking, ghost x: NodeID, ghost y: NodeID)
      returns (result: bool)
      requires Valid() && Proper(a) && Proper(b) && IsNodeOf(x, a) && IsNodeOf(y, b)
      requires Ranked(edges, ff, r) && r.rank.Keys <= typeOf.Keys && forall k :: k in r.rank ==> r.rank[k] <= r.top
      modifies this`canonicalTypeMap, this`canonicalTypes, this`nodeOf, this`typeOf, this`numTypes
      modifies this`chaMap, this`chaFFMap
      ensures Valid() && typeOf == old(typeOf)
      ensures result <==> Derives(edges, ff, y, x)
    {
      var ca := CanonicalIn(a);
      FindNode(a, ca, x);
      var cb := CanonicalIn(b);
      FindNode(b, cb, y);
      var bNode := nodeOf[cb];
      var children := BaseChildren(ca, ff, r, x);
      return bNode in children;
    }

    /** The children of a type that has a node. */
    method BaseChildren(c: DIType, ff: bool, ghost r: Ranking, ghost x: NodeID) returns (children: set<NodeID>)
      requires Valid() && Ranked(edges, ff, r) && r.rank.Keys <= typeOf.Keys
      requires forall k :: k in r.rank ==> r.rank[k] <= r.top
      requires x in typeOf && typeOf[x] == c
      modifies this`canonicalTypeMap, this`canonicalTypes, this`nodeOf, this`typeOf, this`numTypes
      modifies this`chaMap, this`chaFFMap
      ensures Valid() && typeOf == old(typeOf)
      ensures IsChildren(children, Query(edges, ff), x)
    {
      TeqIsEquivalence(c, c, c);
      ghost var n;
      children, n := Cha(c, ff, r, r.top);
      NodeIsUnique(n, x, c, c);
      assert typeOf == old(typeOf);
    }

    // -------------------------------------------------------------- void above everything

    /** The end of the extended build: char gets void as its parent, and every other node without a
        parent gets char.  v and c are the nodes of void and char, which have no parents before.  The
        edges stay acyclic, and void becomes a base of every node. */
    method CompleteVoidChar(charType: DIType, ghost r: Ranking, ghost v: NodeID, ghost c: NodeID)
      returns (ghost r': Ranking)
      requires CanonValid() && GraphValid() && charType.Basic? && IsNodeOf(v, Void) && IsNodeOf(c, charType)
      requires Ranked(edges, true, r)
      requires forall e :: e in edges ==> !e.kind.Instance? && e.src != v && e.src != c
      modifies this`canonicalTypeMap, this`canonicalTypes, this`nodeOf, this`typeOf, this`numTypes, this`edges
      ensures CanonValid() && GraphValid() && typeOf == old(typeOf) && old(edges) <= edges
      ensures Ranked(edges, true, r')
      ensures forall n :: n in typeOf ==> Derives(edges, true, n, v)
    {
      ghost var e0 := edges;
      NodeIsUnique(v, c, Void, charType);
      AddKnownEdge(charType, Void, StdDef, c, v);
      GiveParents(charType, e0, v, c);
      r' := Completed(r, typeOf.Keys, v, c);
      CompletedRanked(e0, edges, r, v, c, typeOf.Keys);
      AllUnderVoid(e0, edges, r', v, c, typeOf.Keys);
    }

    /** Char becomes the parent of the nodes without one. */
    method GiveParents(charType: DIType, ghost e0: set<Edge>, ghost v: NodeID, ghost c: NodeID)
      requires CanonValid() && GraphValid() && charType.Basic? && IsNodeOf(v, Void) && IsNodeOf(c, charType)
      requires Completing(e0, edges, v, c, {})
      modifies this`canonicalTypeMap, this`canonicalTypes, this`nodeOf, this`typeOf, this`numTypes, this`edges
      ensures CanonValid() && GraphValid() && typeOf == old(typeOf)
      ensures Completing(e0, edges, v, c, typeOf.Keys)
    {
      var rest := typeOf.Keys;
      while rest != {}
        invariant CanonValid() && GraphValid() && typeOf == old(typeOf) && rest <= typeOf.Keys
        invariant Completing(e0, edges, v, c, typeOf.Keys - rest)
        decreases rest
      {
        var n :| n in rest;
        GiveParent(n, charType, e0, v, c, typeOf.Keys - rest);
        OneMore(typeOf.Keys, rest, n);
        rest := rest - {n};
      }
      assert typeOf.Keys - rest == typeOf.Keys;
    }

    /** One node of the completion: a node without a parent, other than void, gets char. */
    method GiveParent(n: NodeID, charType: DIType, ghost e0: set<Edge>, ghost v: NodeID, ghost c: NodeID,
                      ghost done: set<NodeID>)
      requires CanonValid() && GraphValid() && charType.Basic? && IsNodeOf(v, Void) && IsNodeOf(c, charType)
      requires n in typeOf && Completing(e0, edges, v, c, done)
      modifies this`canonicalTypeMap, this`canonicalTypes, this`nodeOf, this`typeOf, this`numTypes, this`edges
      ensures CanonValid() && GraphValid() && typeOf == old(typeOf)
      ensures Completing(e0, edges, v, c, done + {n})
    {
      ghost var before := edges;
      if typeOf[n].Void? {
        NodeIsUnique(n, v, Void, Void);
      } else if forall e :: e in edges ==> e.src != n {
        ParentlessNode(n, v, c, charType);
        AddKnownEdge(typeOf[n], charType, StdDef, n, c);
        CompletingEdge(e0, before, v, c, done, n);
      }
      CompletingNext(e0, edges, v, c, done, n);
    }

    /** AddEdge between types whose nodes are known. */
    method AddKnownEdge(t1: DIType, t2: DIType, kind: Kind, ghost a: NodeID, ghost b: NodeID)
      requires CanonValid() && GraphValid() && Proper(t1) && Proper(t2) && IsNodeOf(a, t1) && IsNodeOf(b, t2)
      modifies this`canonicalTypeMap, this`canonicalTypes, this`nodeOf, this`typeOf, this`numTypes, this`edges
      ensures CanonValid() && GraphValid() && typeOf == old(typeOf)
      ensures edges == old(edges) + {Edge(a, b, kind)}
    {
      var e := AddEdge(t1, t2, kind);
      TeqIsEquivalence(t1, t1, t1);
      TeqIsEquivalence(t2, t2, t2);
      NodeIsUnique(e.src, a, t1, t1);
      NodeIsUnique(e.dst, b, t2, t2);
      assert typeOf == old(typeOf);
    }

    lemma ParentlessNode(n: NodeID, v: NodeID, c: NodeID, charType: DIType)
      requires CanonValid() && GraphValid() && n in typeOf && !typeOf[n].Void?
      requires IsNodeOf(v, Void) && IsNodeOf(c, charType)
      requires Edge(c, v, StdDef) in edges && forall e :: e in edges ==> e.src != n
      ensures n != v && n != c && Proper(typeOf[n]) && IsNodeOf(n, typeOf[n])
    {
      TeqIsEquivalence(typeOf[n], typeOf[n], typeOf[n]);
    }
  }

  /** The completion so far: the old edges, the one from char to void, and edges to char from nodes that
      had no parent; the nodes done have a parent, unless they are void. */
  ghost predicate Completing(e0: set<Edge>, edges: set<Edge>, v: NodeID, c: NodeID, done: set<NodeID>) {
    match Query(edges, true)
    case Query(_, _) =>
      && e0 <= edges && Edge(c, v, StdDef) in edges
      && (forall e :: e in edges && e !in e0 ==>
            e == Edge(c, v, StdDef) || (e == Edge(e.src, c, StdDef) && e.src != v && e.src != c))
      && (forall n :: n in done && n != v ==> exists e :: e in edges && e.src == n)
  }

  lemma CompletingEdge(e0: set<Edge>, edges: set<Edge>, v: NodeID, c: NodeID, done: set<NodeID>, n: NodeID)
    requires Completing(e0, edges, v, c, done) && n != v && n != c
    ensures Completing(e0, edges + {Edge(n, c, StdDef)}, v, c, done)
    ensures exists e :: e in edges + {Edge(n, c, StdDef)} && e.src == n
  {
    assert Edge(n, c, StdDef) in edges + {Edge(n, c, StdDef)};
  }

  lemma OneMore(all: set<NodeID>, rest: set<NodeID>, n: NodeID)
    requires n in rest && rest <= all
    ensures all - (rest - {n}) == (all - rest) + {n}
  {
  }

  lemma AllUnderVoid(e0: set<Edge>, edges: set<Edge>, r: Ranking, v: NodeID, c: NodeID, nodes: set<NodeID>)
    requires Ranked(edges, true, r) && Completing(e0, edges, v, c, nodes)
    requires forall e :: e in edges ==> e.src in nodes && e.dst in nodes
    requires forall e :: e in e0 ==> !e.kind.Instance?
    ensures forall n :: n in nodes ==> Derives(edges, true, n, v)
  {
    forall n | n in nodes
      ensures Derives(edges, true, n, v)
    {
      UnderVoid(e0, edges, r, v, c, nodes, n);
    }
  }

  lemma CompletingNext(e0: set<Edge>, edges: set<Edge>, v: NodeID, c: NodeID, done: set<NodeID>, n: NodeID)
    requires Completing(e0, edges, v, c, done) && (n == v || exists e :: e in edges && e.src == n)
    ensures Completing(e0, edges, v, c, done + {n})
  {
  }

  /** Void lowest, char next, everything else above in its old order. */
  ghost function Completed(r: Ranking, nodes: set<NodeID>, v: NodeID, c: NodeID): Ranking {
    Ranking(map n | n in nodes :: if n == v then 0 else if n == c then 1
                                  else if n in r.rank && r.rank[n] <= r.top then r.rank[n] + 2 else 2,
            r.top + 2)
  }

  lemma CompletedRanked(e0: set<Edge>, edges: set<Edge>, r: Ranking, v: NodeID, c: NodeID, nodes: set<NodeID>)
    requires Ranked(e0, true, r) && Completing(e0, edges, v, c, nodes) && v != c
    requires forall e :: e in e0 ==> e.src != v && e.src != c
    requires forall e :: e in edges ==> e.src in nodes && e.dst in nodes
    ensures Ranked(edges, true, Completed(r, nodes, v, c))
  {
  }

  lemma {:induction false} UnderVoid(e0: set<Edge>, edges: set<Edge>, r: Ranking, v: NodeID, c: NodeID,
                                     nodes: set<NodeID>, n: NodeID)
    requires Ranked(edges, true, r) && Completing(e0, edges, v, c, nodes) && n in nodes
    requires forall e :: e in edges ==> e.src in nodes && e.dst in nodes && !e.kind.Instance?
    ensures Derives(edges, true, n, v)
    decreases if n in r.rank then r.rank[n] else 0
  {
    if n == v {
      DerivesSelf(edges, true, n);
    } else {
      var e :| e in edges && e.src == n;
      UnderVoid(e0, edges, r, v, c, nodes, e.dst);
      DerivesEdge(edges, true, e);
      DerivesTrans(edges, true, n, e.dst, v);
    }
  }

  /** Which edges a query follows. */
  datatype Query = Query(edges: set<Edge>, firstField: bool)

  /** The set so far: everything in it derives from the node, and everything that does so through an
      edge not left to look at is in it. */
  ghost predicate Partial(children: set<NodeID>, q: Query, node: NodeID, rest: set<Edge>) {
    match q
    case Query(edges, ff) =>
      && node in children
      && (forall x :: x in children ==> Derives(edges, ff, x, node))
      && (forall e, x :: e in edges && e.dst == node && e !in rest && Permitted(e, ff) && Derives(edges, ff, x, e.src)
            ==> x in children)
  }

  lemma Initially(edges: set<Edge>, ff: bool, node: NodeID)
    ensures Partial({node}, Query(edges, ff), node, set e | e in edges && e.dst == node)
  {
    DerivesSelf(edges, ff, node);
  }

  lemma Covered(children: set<NodeID>, edges: set<Edge>, ff: bool, node: NodeID, rest: set<Edge>, e: Edge,
                more: set<NodeID>)
    requires Partial(children, Query(edges, ff), node, rest) && e in edges && e.dst == node
    requires if Permitted(e, ff) then IsChildren(more, Query(edges, ff), e.src) else more == {}
    ensures Partial(children + more, Query(edges, ff), node, rest - {e})
  {
    forall x | x in more
      ensures Derives(edges, ff, x, node)
    {
      DerivesEdge(edges, ff, e);
      DerivesTrans(edges, ff, x, e.src, node);
    }
  }

  lemma AllCovered(children: set<NodeID>, edges: set<Edge>, ff: bool, node: NodeID)
    requires Partial(children, Query(edges, ff), node, {})
    ensures IsChildren(children, Query(edges, ff), node)
  {
    forall x | Derives(edges, ff, x, node)
      ensures x in children
    {
      if x != node {
        var e := LastEdge(edges, ff, x, node);
      }
    }
  }

  /** The set holds exactly the nodes that derive from n. */
  ghost predicate IsChildren(children: set<NodeID>, q: Query, n: NodeID) {
    match q
    case Query(edges, ff) => forall x :: x in children <==> Derives(edges, ff, x, n)
  }

  ghost predicate CacheOk(cache: map<DIType, set<NodeID>>, nodeOf: map<DIType, NodeID>, q: Query) {
    match q
    case Query(_, _) => forall t :: t in cache ==> t in nodeOf && IsChildren(cache[t], q, nodeOf[t])
  }
}
