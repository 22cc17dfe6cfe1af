/** When the walk to allocations answers exactly, on programs.

    The allocation walk is one of the flows for which FreshQueries decides exactness by the order of
    closing.  A phi, a cast, a load or an argument has no allocation of its own, so the converse for flows
    in which every value contributes something of its own does not apply to it.  An allocation does, and
    one that is listed before another way to it is missed by that other way. */
module AllocAnswers {
  import opened Collections
  import opened ValueGraph
  import opened ObjTypeInference
  import opened CacheOrder
  import opened FreshQueries
  import opened CleanGraphs
  import W = CacheWalk
  import P = ProgramAnswers
  import X = CacheExamples

  lemma FlowAt(p: Program, f: W.Flow, v: Id)
    requires WellFormed(p) && IsFlow(Allocs, p, f) && v in p.values
    ensures W.WellFormed(f) && v in f.own && v in f.next
    ensures f.own[v] == AllocOwn(p, v) && f.next[v] == AllocSteps(p, v)
    ensures f.own.Keys == p.values.Keys == f.next.Keys
  {
    assert Follows(Allocs, p, f, v);
  }

  // ---------------------------------------------------------------- contributions of their own

  /** An allocation contributes itself, and nothing else does. */
  lemma AllocHasMark(p: Program, f: W.Flow, u: Id)
    requires WellFormed(p) && IsFlow(Allocs, p, f) && u in p.values && IsAlloc(p, u)
    ensures HasMark(f, u)
  {
    FlowAt(p, f, u);
    forall w | w in f.own && u in f.own[w]
      ensures w == u
    {
      FlowAt(p, f, w);
    }
    assert IsMark(f, u, u);
  }

  /** Any other value contributes nothing. */
  lemma OthersHaveNoMark(p: Program, f: W.Flow, v: Id)
    requires WellFormed(p) && IsFlow(Allocs, p, f) && v in p.values && !IsAlloc(p, v)
    ensures !HasMark(f, v) && !Marked(f)
  {
    FlowAt(p, f, v);
  }

  /** An allocation that a value lists before another neighbour leading to it makes some sequence of
      queries inexact: that neighbour is closed first, without it. */
  lemma ListedFirstIsMissed(p: Program, f: W.Flow, v: Id, u: Id, x: Id)
    requires WellFormed(p) && IsFlow(Allocs, p, f) && v in p.values && u in p.values && IsAlloc(p, u)
    requires Precedes(AllocSteps(p, v), u, x) && u != x && x != v && W.Reaches(f, x, u)
    ensures W.WellFormed(f) && v in f.next && !LeavesExact(f, v) && !AnswersExactly(f)
  {
    FlowAt(p, f, v);
    AllocHasMark(p, f, u);
    LaterReachesEarlier(f, map[], v, u, x);
    AnswersExactlyIffFresh(f);
  }

  // ---------------------------------------------------------------- an answer that misses its allocation

  /** The phi 0 joins 2 and 1, 1 casts 2, and 2 is a stack object. */
  function JoinedCast(): (p: Program)
    ensures WellFormed(p)
  {
    var values := map[0 := Phi([2, 1]), 1 := BitCast(2), 2 := Alloca(0)];
    Program(values, map[], map[], map[], {}, {}, map[], 0, 0, 512)
  }

  /** Once the allocations of 0 have been asked for, those of 1 are answered by the empty set,
      although 1 is 2.  Asked for first, they are answered exactly. */
  lemma LaterAnswerMisses(f: W.Flow)
    requires IsFlow(Allocs, JoinedCast(), f)
    ensures var c := W.Query(f, map[], 0); W.Query(f, c, 1) == c && 1 in c && c[1] == {}
    ensures W.Exact(f, 1, 2) && 1 in W.Query(f, map[], 1) && 2 in W.Query(f, map[], 1)[1]
  {
    JoinedCastFlow(f);
    X.SharedIsPartial();
    P.AskedFirst(f, 1);
  }

  lemma JoinedCastSteps()
    ensures var p := JoinedCast();
      && AllocOwn(p, 0) == {} && AllocOwn(p, 1) == {} && AllocOwn(p, 2) == {2}
      && AllocSteps(p, 0) == [2, 1] && AllocSteps(p, 1) == [2] && AllocSteps(p, 2) == []
  {}

  lemma JoinedCastFlow(f: W.Flow)
    requires IsFlow(Allocs, JoinedCast(), f)
    ensures f == X.Shared()
  {
    JoinedCastSteps();
    FlowAt(JoinedCast(), f, 0);
    FlowAt(JoinedCast(), f, 1);
    FlowAt(JoinedCast(), f, 2);
    assert f.own == X.Shared().own && f.next == X.Shared().next;
  }

  // ---------------------------------------------------------------- a cycle that is answered exactly

  /** The phis 0 and 1 join each other and the stack object 2, in this order. */
  function TwoJoins(): (p: Program)
    ensures WellFormed(p)
  {
    var values := map[0 := Phi([1, 2]), 1 := Phi([0, 2]), 2 := Alloca(0)];
    Program(values, map[], map[], map[], {}, {}, map[], 0, 0, 512)
  }

  /** All sequences of queries are answered exactly, although the two are on a cycle and one is closed
      before the other, its neighbour. */
  lemma CycleIsAnswered(f: W.Flow, closed: map<Id, nat>)
    requires IsFlow(Allocs, TwoJoins(), f) && W.WellFormed(f) && 0 in f.next
    requires W.ClosedBy(f, map[], 0, W.Query(f, map[], 0), closed)
    ensures AnswersExactly(f) && !CleanEverywhere(f) && !W.NeighboursFirst(f, map[], closed)
  {
    TwoJoinsFlow(f);
    X.PhisYetExact();
  }

  lemma TwoJoinsSteps()
    ensures var p := TwoJoins();
      && AllocOwn(p, 0) == {} && AllocOwn(p, 1) == {} && AllocOwn(p, 2) == {2}
      && AllocSteps(p, 0) == [1, 2] && AllocSteps(p, 1) == [0, 2] && AllocSteps(p, 2) == []
  {}

  lemma TwoJoinsFlow(f: W.Flow)
    requires IsFlow(Allocs, TwoJoins(), f)
    ensures f == X.JoinedPhis()
  {
    TwoJoinsSteps();
    FlowAt(TwoJoins(), f, 0);
    FlowAt(TwoJoins(), f, 1);
    FlowAt(TwoJoins(), f, 2);
    assert f.own == X.JoinedPhis().own && f.next == X.JoinedPhis().next;
  }
}
