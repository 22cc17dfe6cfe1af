/**
 * `GraphReaderSVFGBuilder::collectGlobals`: the nodes that global variables lead to
 * through points-to sets, found with a stack that may hold an id several times.
 *
 * A predicate that matches on a datatype with one constructor is unfolded by the
 * solver only where its parts are needed.
 */
module CollectGlobals {
  import opened Collections

  datatype PagNode =
    | DummyVar
    | ObjVar(ofDummyBase: bool, baseIsGlobal: bool)
    | ValVar(baseIsGlobal: bool)
    | OtherVar

  // `order` lists the nodes once, as the graph iterates over them; `pts` gives the
  // points-to sets that are not empty.
  datatype Pag = Pag(order: seq<nat>, nodes: map<nat, PagNode>, pts: map<nat, seq<nat>>)

  ghost predicate Valid(pag: Pag) {
    forall id <- pag.order :: id in pag.nodes
  }

  function PointsTo(pag: Pag, id: nat): seq<nat> {
    if id in pag.pts then pag.pts[id] else []
  }

  // A global variable's own node, or the node of a part of a global object.
  predicate IsSeed(node: PagNode) {
    match node
    case DummyVar => false
    case ObjVar(ofDummyBase, baseIsGlobal) => !ofDummyBase && baseIsGlobal
    case ValVar(baseIsGlobal) => baseIsGlobal
    case OtherVar => false
  }

  function Seeds(pag: Pag): set<nat>
    requires Valid(pag)
  {
    set id | id in pag.order && IsSeed(pag.nodes[id])
  }

  // The seeds: the value node of a global variable, and the object nodes of global objects and of their
  // parts, dummies apart.
  lemma SeedsAre(pag: Pag, id: nat)
    requires Valid(pag)
    ensures id in Seeds(pag) <==>
      id in pag.order && (pag.nodes[id] == ValVar(true) || pag.nodes[id] == ObjVar(false, true))
  {}

  ghost predicate Closed(pag: Pag, s: set<nat>) {
    forall id <- s, o <- PointsTo(pag, id) :: o in s
  }

  // `s` is the least set with the seeds that is closed under points-to.
  ghost predicate IsLeast(pag: Pag, s: set<nat>)
    requires Valid(pag)
  {
    && Seeds(pag) <= s
    && Closed(pag, s)
    && forall t: set<nat> :: Seeds(pag) <= t && Closed(pag, t) ==> s <= t
  }

  function Ids(pag: Pag): set<nat> {
    (set id | id in pag.order) + set k, o | k in pag.pts && o in pag.pts[k] :: o
  }

  // Whether `o` is marked or on the stack above position `t`.
  ghost predicate MarkedOrAbove(globs: set<nat>, stack: seq<nat>, t: nat, o: nat)
    requires t < |stack|
  {
    o in globs || o in stack[t + 1..]
  }

  // A marked id that is still on the stack has nothing left to add.
  ghost predicate RepeatsAreIdle(pag: Pag, globs: set<nat>, stack: seq<nat>) {
    forall t, o :: 0 <= t < |stack| && stack[t] in globs && o in PointsTo(pag, stack[t]) ==>
      MarkedOrAbove(globs, stack, t, o)
  }

  // Every pointee of a marked id is marked or waiting.
  ghost predicate Covered(pag: Pag, globs: set<nat>, stack: seq<nat>) {
    forall id <- globs, o <- PointsTo(pag, id) :: o in globs || o in stack
  }

  lemma TopIsIdle(pag: Pag, globs: set<nat>, stack: seq<nat>)
    requires RepeatsAreIdle(pag, globs, stack) && stack != [] && stack[|stack| - 1] in globs
    ensures forall o <- PointsTo(pag, stack[|stack| - 1]) :: o in globs
  {
    forall o <- PointsTo(pag, stack[|stack| - 1])
      ensures o in globs
    {
      assert MarkedOrAbove(globs, stack, |stack| - 1, o);
    }
  }

  // Taking `id` off the stack, marking it and pushing its unmarked pointees keeps repeats idle.
  lemma StepIsIdle(pag: Pag, globs: set<nat>, rest: seq<nat>, id: nat, more: seq<nat>)
    requires RepeatsAreIdle(pag, globs, rest + [id])
    requires forall o <- PointsTo(pag, id) :: o in globs + {id} || o in more
    requires forall o <- more :: o !in globs + {id}
    ensures RepeatsAreIdle(pag, globs + {id}, rest + more)
  {
    var stack, marked, before := rest + more, globs + {id}, rest + [id];
    assert forall t :: |rest| <= t < |stack| ==> stack[t] in more;
    forall t, o | 0 <= t < |rest| && stack[t] in marked && o in PointsTo(pag, stack[t])
      ensures MarkedOrAbove(marked, stack, t, o)
    {
      assert stack[t + 1..] == rest[t + 1..] + more;
      assert before[t + 1..] == rest[t + 1..] + [id];
      if stack[t] in globs {
        assert MarkedOrAbove(globs, before, t, o);
      }
    }
  }

  datatype State = State(pag: Pag, globs: set<nat>, stack: seq<nat>)

  ghost predicate Inv(s: State) {
    match s
    case State(pag, globs, stack) =>
      && Valid(pag)
      && (forall id <- Seeds(pag) :: id in globs || id in stack)
      && Covered(pag, globs, stack)
      && RepeatsAreIdle(pag, globs, stack)
      && globs <= Ids(pag) && (forall id <- stack :: id in Ids(pag))
      && forall t: set<nat> :: Seeds(pag) <= t && Closed(pag, t) ==> globs <= t && forall id <- stack :: id in t
  }

  lemma Stepped(s: State, rest: seq<nat>, id: nat, more: seq<nat>)
    requires Inv(s) && s.stack == rest + [id]
    requires forall o :: o in more <==> o in PointsTo(s.pag, id) && o !in s.globs + {id}
    ensures Inv(State(s.pag, s.globs + {id}, rest + more))
  {
    var pag, globs, stack := s.pag, s.globs + {id}, rest + more;
    StepIsIdle(pag, s.globs, rest, id, more);
    assert forall x <- s.stack :: x in rest || x == id;
    assert Covered(pag, globs, stack);
    assert forall o <- PointsTo(pag, id) :: o in Ids(pag);
    forall t: set<nat> | Seeds(pag) <= t && Closed(pag, t)
      ensures globs <= t && forall x <- stack :: x in t
    {
      assert id in s.stack;
    }
  }

  lemma StepProgress(s: State, rest: seq<nat>, id: nat, more: seq<nat>)
    requires Inv(s) && s.stack == rest + [id]
    requires (forall o <- PointsTo(s.pag, id) :: o in s.globs + {id}) ==> more == []
    ensures |Ids(s.pag) - (s.globs + {id})| < |Ids(s.pag) - s.globs|
        || (s.globs + {id} == s.globs && |rest + more| < |s.stack|)
  {
    if id in s.globs {
      TopIsIdle(s.pag, s.globs, s.stack);
      assert s.globs + {id} == s.globs;
    } else {
      assert id in s.stack;
      OneLess(Ids(s.pag), s.globs, id);
    }
  }

  class GlobalCollector {
    const pag: Pag
    var globs: set<nat>

    constructor (pag: Pag)
      ensures this.pag == pag && globs == {}
    {
      this.pag := pag;
      globs := {};
    }

    method CollectSeeds() returns (worklist: seq<nat>)
      requires Valid(pag)
      ensures forall id :: id in worklist <==> id in Seeds(pag)
    {
      worklist := [];
      for i := 0 to |pag.order|
        invariant forall id :: id in worklist <==> id in pag.order[..i] && IsSeed(pag.nodes[id])
      {
        var id := pag.order[i];
        assert pag.order[..i + 1] == pag.order[..i] + [id];
        match pag.nodes[id]
        case DummyVar =>
        case ObjVar(ofDummyBase, baseIsGlobal) =>
          if !ofDummyBase && baseIsGlobal {
            worklist := worklist + [id];
          }
        case ValVar(baseIsGlobal) =>
          if baseIsGlobal {
            worklist := worklist + [id];
          }
        case OtherVar =>
      }
      assert pag.order[..|pag.order|] == pag.order;
    }

    // The unmarked pointees of an id, as they are pushed.
    method Unmarked(id: nat) returns (more: seq<nat>)
      ensures forall o :: o in more <==> o in PointsTo(pag, id) && o !in globs
      ensures (forall o <- PointsTo(pag, id) :: o in globs) ==> more == []
    {
      more := [];
      var pts := PointsTo(pag, id);
      for i := 0 to |pts|
        invariant forall o :: o in more <==> o in pts[..i] && o !in globs
        invariant more != [] ==> exists o <- pts :: o !in globs
      {
        assert pts[..i + 1] == pts[..i] + [pts[i]];
        if pts[i] !in globs {
          more := more + [pts[i]];
        }
      }
      assert pts[..|pts|] == pts;
    }

    method CollectGlobals()
      requires Valid(pag) && globs == {}
      modifies this
      ensures IsLeast(pag, globs)
    {
      var worklist := CollectSeeds();
      while worklist != []
        invariant Inv(State(pag, globs, worklist))
        decreases |Ids(pag) - globs|, |worklist|
      {
        var id := worklist[|worklist| - 1];
        var rest := worklist[..|worklist| - 1];
        ghost var s := State(pag, globs, worklist);
        assert worklist == rest + [id];
        globs := globs + {id};
        var more := Unmarked(id);
        Stepped(s, rest, id, more);
        StepProgress(s, rest, id, more);
        worklist := rest + more;
      }
    }
  }
}
