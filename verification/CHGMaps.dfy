/**
 * The ancestor and descendant maps of the class hierarchy graph, as
 * `buildClassNameToAncestorsDescendantsMap` fills them, on cyclic graphs too.
 *
 * Classes are named by numbers, in the order of their names.
 *
 * A predicate that matches on a datatype with one constructor is unfolded by the
 * solver only where its parts are needed.
 */
module CHGMaps {
  import opened Collections

  datatype Edge = Edge(dst: nat, inheritance: bool)

  // `order` lists the classes as the graph iterates over them.
  datatype Hierarchy = Hierarchy(order: seq<nat>, outgoing: map<nat, seq<Edge>>)

  ghost predicate Valid(h: Hierarchy) {
    match h
    case Hierarchy(order, outgoing) =>
      && (forall n <- order :: n in outgoing)
      && (forall i, j :: 0 <= i < j < |order| ==> order[i] != order[j])
      && forall n <- outgoing, e <- outgoing[n] :: e.dst in outgoing
  }

  predicate Inherits(h: Hierarchy, a: nat, b: nat) {
    a in h.outgoing && Edge(b, true) in h.outgoing[a]
  }

  // `a` leads to `b` by `k` inheritance edges.
  ghost predicate Steps(h: Hierarchy, a: nat, b: nat, k: nat)
    decreases k
  {
    if k == 0 then a == b
    else exists m :: Steps(h, a, m, k - 1) && Inherits(h, m, b)
  }

  ghost predicate Ancestor(h: Hierarchy, a: nat, b: nat) {
    exists k: nat :: k > 0 && Steps(h, a, b, k)
  }

  type Classes = map<nat, set<nat>>

  // A missing entry stands for the empty set.
  function Get(m: Classes, n: nat): set<nat> {
    if n in m then m[n] else {}
  }

  function Add(m: Classes, n: nat, x: nat): Classes {
    m[n := Get(m, n) + {x}]
  }

  ghost predicate Inverse(a: Classes, d: Classes) {
    forall n, m :: m in Get(a, n) <==> n in Get(d, m)
  }

  lemma AddedInverse(a: Classes, d: Classes, n: nat, m: nat)
    requires Inverse(a, d)
    ensures Inverse(Add(a, n, m), Add(d, m, n))
  {
    forall x, y
      ensures y in Get(Add(a, n, m), x) <==> x in Get(Add(d, m, n), y)
    {
      assert y in Get(a, x) <==> x in Get(d, y);
    }
  }

  // A walk up from `start`: `found` holds its ancestors so far, the classes still on the list
  // are the ones met and not visited.
  datatype Walk = Walk(h: Hierarchy, start: nat, found: set<nat>, visited: set<nat>, list: seq<nat>)

  ghost predicate Inv(w: Walk) {
    match w
    case Walk(h, start, found, visited, list) =>
      && Valid(h)
      && (forall x <- found :: Ancestor(h, start, x))
      && (forall x <- visited :: (x == start || x in found) && x in h.outgoing)
      && (forall x <- list :: (x == start || x in found) && x in h.outgoing)
      && (start in visited || start in list)
      && (forall x <- found :: x in visited || x in list)
      && forall x, y :: x in visited && Inherits(h, x, y) ==> y in found
  }

  lemma ParentOfMet(h: Hierarchy, start: nat, x: nat, y: nat)
    requires (x == start || Ancestor(h, start, x)) && Inherits(h, x, y)
    ensures Ancestor(h, start, y)
  {
    if x == start {
      assert Steps(h, start, x, 0);
      assert Steps(h, start, y, 1);
    } else {
      var k: nat :| k > 0 && Steps(h, start, x, k);
      assert Steps(h, start, y, k + 1);
    }
  }

  lemma {:induction false} AllFound(w: Walk, y: nat, k: nat)
    requires forall x, y :: x in w.visited && Inherits(w.h, x, y) ==> y in w.found
    requires w.start in w.visited && w.found <= w.visited
    requires Steps(w.h, w.start, y, k)
    ensures k > 0 ==> y in w.found
    ensures y in w.visited
    decreases k
  {
    if k > 0 {
      var m :| Steps(w.h, w.start, m, k - 1) && Inherits(w.h, m, y);
      AllFound(w, m, k - 1);
    }
  }

  lemma WalkIsExact(w: Walk)
    requires Inv(w) && w.list == []
    ensures forall y :: y in w.found <==> Ancestor(w.h, w.start, y)
  {
    forall y | Ancestor(w.h, w.start, y)
      ensures y in w.found
    {
      var k: nat :| k > 0 && Steps(w.h, w.start, y, k);
      AllFound(w, y, k);
    }
  }

  // Meets one parent of the class at hand, which has left the list and is not visited yet.
  lemma Met(w: Walk, cur: nat, y: nat)
    requires Inv(w.(list := [cur] + w.list)) && Inherits(w.h, cur, y)
    ensures Inv(w.(found := w.found + {y}, list := [cur] + Pushed(w.list, y)))
  {
    var v := w.(list := [cur] + w.list);
    assert cur in v.list;
    ParentOfMet(w.h, w.start, cur, y);
  }

  // A list that holds an item already does not take it again.
  function Pushed(list: seq<nat>, y: nat): (r: seq<nat>)
    ensures forall x :: x in r <==> x in list || x == y
  {
    if y in list then list else list + [y]
  }

  // A class already visited leaves the list; one whose parents have all been met becomes visited.
  lemma Left(w: Walk, cur: nat)
    requires Inv(w.(list := [cur] + w.list))
    requires cur in w.visited || forall y :: Inherits(w.h, cur, y) ==> y in w.found
    ensures Inv(w.(visited := w.visited + {cur}))
  {
    var v := w.(list := [cur] + w.list);
    assert cur in v.list;
    assert forall x <- v.list :: x == cur || x in w.list;
    assert forall x <- w.list :: x in v.list;
  }

  class CHGraph {
    const h: Hierarchy
    var ancestors: Classes
    var descendants: Classes

    constructor (h: Hierarchy)
      ensures this.h == h && ancestors == map[] && descendants == map[]
    {
      this.h := h;
      ancestors, descendants := map[], map[];
    }

    // The maps agree with each other and with the walk from `start`; entries of other classes are as in `before`.
    ghost predicate Agree(start: nat, found: set<nat>, before: Classes)
      reads this
    {
      && Inverse(ancestors, descendants)
      && Get(ancestors, start) == found
      && forall n :: n != start ==> Get(ancestors, n) == Get(before, n)
    }

    method MeetParent(start: nat, cur: nat, succ: nat, visited: set<nat>, list: seq<nat>,
                      ghost found: set<nat>, ghost before: Classes)
      returns (list': seq<nat>)
      requires Inv(Walk(h, start, found, visited, [cur] + list)) && Agree(start, found, before)
      requires Inherits(h, cur, succ)
      modifies this
      ensures Inv(Walk(h, start, found + {succ}, visited, [cur] + list')) && Agree(start, found + {succ}, before)
    {
      AddedInverse(ancestors, descendants, start, succ);
      Met(Walk(h, start, found, visited, list), cur, succ);
      ancestors := Add(ancestors, start, succ);
      descendants := Add(descendants, succ, start);
      list' := Pushed(list, succ);
    }

    // Follows the edges of a class that is visited for the first time.
    method MeetParents(start: nat, cur: nat, visited: set<nat>, list: seq<nat>,
                       ghost found: set<nat>, ghost before: Classes)
      returns (list': seq<nat>, ghost found': set<nat>)
      requires cur in h.outgoing && Inv(Walk(h, start, found, visited, [cur] + list)) && Agree(start, found, before)
      modifies this
      ensures Inv(Walk(h, start, found', visited, [cur] + list')) && Agree(start, found', before)
      ensures forall y :: Inherits(h, cur, y) ==> y in found'
    {
      list', found' := list, found;
      var edges := h.outgoing[cur];
      for i := 0 to |edges|
        invariant Inv(Walk(h, start, found', visited, [cur] + list')) && Agree(start, found', before)
        invariant forall k :: 0 <= k < i && edges[k].inheritance ==> edges[k].dst in found'
      {
        if edges[i].inheritance {
          assert edges[i] == Edge(edges[i].dst, true);
          list' := MeetParent(start, cur, edges[i].dst, visited, list', found', before);
          found' := found' + {edges[i].dst};
        }
      }
    }

    method WalkUp(start: nat)
      requires Valid(h) && start in h.outgoing && Inverse(ancestors, descendants) && Get(ancestors, start) == {}
      modifies this
      ensures Inverse(ancestors, descendants)
      ensures forall m :: m in Get(ancestors, start) <==> Ancestor(h, start, m)
      ensures forall n :: n != start ==> Get(ancestors, n) == old(Get(ancestors, n))
    {
      ghost var before := ancestors;
      var list := [start];
      var visited: set<nat> := {};
      ghost var found: set<nat> := {};
      while list != []
        invariant Inv(Walk(h, start, found, visited, list)) && Agree(start, found, before)
        decreases |h.outgoing.Keys - visited|, |list|
      {
        var cur, rest := list[0], list[1..];
        assert list == [cur] + rest;
        assert cur in list && cur in h.outgoing;
        if cur !in visited {
          OneLess(h.outgoing.Keys, visited, cur);
          rest, found := MeetParents(start, cur, visited, rest, found, before);
        }
        Left(Walk(h, start, found, visited, rest), cur);
        assert cur in visited ==> visited + {cur} == visited;
        visited := visited + {cur};
        list := rest;
      }
      WalkIsExact(Walk(h, start, found, visited, list));
    }

    // Exactly the pairs joined by one or more inheritance edges, in both directions.
    method BuildClassNameToAncestorsDescendantsMap()
      requires Valid(h) && ancestors == map[] && descendants == map[]
      modifies this
      ensures forall n <- h.order :: forall m :: m in Get(ancestors, n) <==> Ancestor(h, n, m)
      ensures forall n :: n !in h.order ==> Get(ancestors, n) == {}
      ensures Inverse(ancestors, descendants)
    {
      for i := 0 to |h.order|
        invariant Inverse(ancestors, descendants)
        invariant forall k :: 0 <= k < i ==> forall m :: m in Get(ancestors, h.order[k]) <==> Ancestor(h, h.order[k], m)
        invariant forall n :: n !in h.order[..i] ==> Get(ancestors, n) == {}
      {
        WalkUp(h.order[i]);
        assert h.order[..i + 1] == h.order[..i] + [h.order[i]];
      }
      assert h.order[..|h.order|] == h.order;
    }
  }
}
