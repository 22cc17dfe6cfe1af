/** The cached walk on small graphs: partial entries on an acyclic graph and on a cycle, and two graphs
    that are not clean and yet have exact entries. */
module CacheExamples {
  import opened Collections
  import opened CacheWalk
  import opened MemoisedQuery
  import opened CacheOrder
  import opened ClosingOrder
  import opened FreshQueries
  import opened CleanGraphs

  // ---------------------------------------------------------------- runs on small graphs

  /** The walk goes on from s as it goes on from t. */
  ghost predicate GoesOn(f: Flow, s: State, t: State) {
    Runs(f, s) && Runs(f, t) && Run(f, s) == Run(f, t)
  }

  /** The turn that opens a value, closes one, or skips an entry. */
  lemma Opening(f: Flow, c: Cache, visited: set<Entry>, stack: seq<Entry>, v: Id, after: seq<Entry>)
    requires Runs(f, State(c, visited, stack)) && stack != [] && stack[|stack| - 1] == (v, false)
    requires (v, false) !in visited && v !in c && (v, true) !in stack[..|stack| - 1]
    requires after == PushAll(stack[..|stack| - 1] + [(v, true)], c, f.next[v])
    ensures GoesOn(f, State(c, visited, stack), State(c, visited + {(v, false)}, after))
  {
    TurnRuns(f, State(c, visited, stack));
    assert Turn(f, State(c, visited, stack)) == State(c, visited + {(v, false)}, after);
  }

  lemma Closing(f: Flow, c: Cache, visited: set<Entry>, stack: seq<Entry>, v: Id)
    requires Runs(f, State(c, visited, stack)) && stack != []
    requires stack[|stack| - 1] == (v, true) && (v, true) !in visited
    ensures var entry := Gathered(c, f.own[v], f.next[v]);
      GoesOn(f, State(c, visited, stack), State(c[v := entry], visited + {(v, true)}, stack[..|stack| - 1]))
  {
    TurnRuns(f, State(c, visited, stack));
  }

  lemma Skipping(f: Flow, c: Cache, visited: set<Entry>, stack: seq<Entry>)
    requires Runs(f, State(c, visited, stack)) && stack != [] && stack[|stack| - 1] in visited
    ensures GoesOn(f, State(c, visited, stack), State(c, visited, stack[..|stack| - 1]))
  {
    TurnRuns(f, State(c, visited, stack));
  }

  /** An entry stays as it was closed. */
  lemma {:induction false} RunKeeps(f: Flow, s: State, v: Id)
    requires Runs(f, s) && v in s.cache && (v, true) in s.visited
    ensures v in Run(f, s) && Run(f, s)[v] == s.cache[v]
    decreases States(f) - s.visited, |s.stack|
  {
    if s.stack != [] {
      TurnRuns(f, s);
      RunKeeps(f, Turn(f, s), v);
    }
  }

  lemma PushOne(stack: seq<Entry>, c: Cache, a: Id)
    ensures PushAll(stack, c, [a]) == if a in c then stack else Push(stack, (a, false))
  {
    assert [a][..0] == [];
  }

  lemma PushTwo(stack: seq<Entry>, c: Cache, a: Id, b: Id)
    ensures PushAll(stack, c, [a, b]) == PushAll(PushAll(stack, c, [a]), c, [b])
  {
    assert [a, b][..1] == [a];
    PushOne(PushAll(stack, c, [a]), c, b);
  }

  /** The graphs start alike: r joins a and b, and the entry for b ends up on top. */
  lemma JoinOpened(f: Flow, r: Id, a: Id, b: Id)
    requires WellFormed(f) && r in f.next && f.next[r] == [a, b] && a != b
    ensures GoesOn(f, State(map[], {}, [(r, false)]), State(map[], {(r, false)}, [(r, true), (a, false), (b, false)]))
  {
    var v: set<Entry>, stack: seq<Entry> := {}, [(r, false)];
    assert v + {(r, false)} == {(r, false)};
    assert stack[..0] + [(r, true)] == [(r, true)];
    JoinPushed(r, a, b);
    Opening(f, map[], v, stack, r, [(r, true), (a, false), (b, false)]);
  }

  lemma JoinPushed(r: Id, a: Id, b: Id)
    requires a != b
    ensures PushAll([(r, true)], map[], [a, b]) == [(r, true), (a, false), (b, false)]
  {
    var below, two: seq<Entry> := [(r, true)], [(r, true), (a, false)];
    PushTwo(below, map[], a, b);
    PushOne(below, map[], a);
    assert below + [(a, false)] == two;
    PushOne(two, map[], b);
    assert two + [(b, false)] == [(r, true), (a, false), (b, false)];
  }

  /** Value 1 is 2 again, and 2 is an allocation: there is no cycle. */
  ghost function Shared(): (f: Flow)
    ensures WellFormed(f)
  {
    Flow(map[0 := {}, 1 := {}, 2 := {2}], map[0 := [2, 1], 1 := [2], 2 := []])
  }

  /** Opening 1 does not push 2 again, which waits further down on the list: 1 is closed with nothing. */
  lemma SharedOpened(v: set<Entry>)
    requires (1, false) !in v
    ensures GoesOn(Shared(), State(map[], v, [(0, true), (2, false), (1, false)]),
      State(map[], v + {(1, false)}, [(0, true), (2, false), (1, true)]))
  {
    var stack, after: seq<Entry> := [(0, true), (2, false), (1, false)], [(0, true), (2, false), (1, true)];
    assert stack[..2] + [(1, true)] == after;
    PushOne(after, map[], 2);
    assert after[1] == (2, false);
    Opening(Shared(), map[], v, stack, 1, after);
  }

  lemma SharedClosed(v: set<Entry>)
    requires (1, true) !in v
    ensures GoesOn(Shared(), State(map[], v, [(0, true), (2, false), (1, true)]),
      State(map[1 := {}], v + {(1, true)}, [(0, true), (2, false)]))
  {
    var stack: seq<Entry> := [(0, true), (2, false), (1, true)];
    assert stack[..2] == [(0, true), (2, false)];
    var c: Cache := map[];
    assert Gathered(c, {}, [2]) == {};
    assert c[1 := {}] == map[1 := {}];
    Closing(Shared(), c, v, stack, 1);
  }

  lemma SharedConnects()
    ensures Exact(Shared(), 1, 2)
  {
    assert Connects(Shared(), [1, 2], 1, 2);
    assert Reaches(Shared(), 1, 2);
  }

  /** After a query for 0 a query for 1 finds nothing, although it comes from 2. */
  lemma SharedIsPartial()
    ensures var c := Query(Shared(), map[], 0);
      && 1 in c && c[1] == {} && Query(Shared(), c, 1) == c
      && Exact(Shared(), 1, 2) && !AllComplete(Shared(), c)
  {
    var f, v := Shared(), {(0, false)} + {(1, false)};
    JoinOpened(f, 0, 2, 1);
    SharedOpened({(0, false)});
    SharedClosed(v);
    RunKeeps(f, State(map[1 := {}], v + {(1, true)}, [(0, true), (2, false)]), 1);
    SharedConnects();
    assert !Complete(f, Query(f, map[], 0), 1);
  }

  /** Value 1 joins 0 again, a cycle of two, and 2 is an allocation. */
  ghost function TwoPhis(): (f: Flow)
    ensures WellFormed(f)
  {
    Flow(map[0 := {}, 1 := {}, 2 := {2}], map[0 := [2, 1], 1 := [0], 2 := []])
  }

  lemma TwoPhisOpened(v: set<Entry>)
    requires (0, false) in v && (1, false) !in v
    ensures GoesOn(TwoPhis(), State(map[], v, [(0, true), (2, false), (1, false)]),
      State(map[], v + {(1, false)}, [(0, true), (2, false), (1, true)]))
  {
    var stack, after: seq<Entry> := [(0, true), (2, false), (1, false)], [(0, true), (2, false), (1, true)];
    assert stack[..2] + [(1, true)] == after;
    PushOne(after, map[], 0);
    Opening(TwoPhis(), map[], v, stack, 1, after + [(0, false)]);
    Skipping(TwoPhis(), map[], v + {(1, false)}, after + [(0, false)]);
    assert (after + [(0, false)])[..3] == after;
  }

  lemma TwoPhisClosed(v: set<Entry>)
    requires (1, true) !in v
    ensures GoesOn(TwoPhis(), State(map[], v, [(0, true), (2, false), (1, true)]),
      State(map[1 := {}], v + {(1, true)}, [(0, true), (2, false)]))
  {
    var stack: seq<Entry> := [(0, true), (2, false), (1, true)];
    assert stack[..2] == [(0, true), (2, false)];
    var c: Cache := map[];
    assert Gathered(c, {}, [0]) == {};
    assert c[1 := {}] == map[1 := {}];
    Closing(TwoPhis(), c, v, stack, 1);
  }

  lemma TwoPhisConnect()
    ensures Exact(TwoPhis(), 1, 2)
  {
    assert Connects(TwoPhis(), [1, 0, 2], 1, 2);
    assert Reaches(TwoPhis(), 1, 2);
  }

  /** The same on a cycle: 0 still waits below 1. */
  lemma TwoPhisArePartial()
    ensures var c := Query(TwoPhis(), map[], 0);
      && 1 in c && c[1] == {} && Query(TwoPhis(), c, 1) == c
      && Exact(TwoPhis(), 1, 2) && !AllComplete(TwoPhis(), c)
  {
    var f, v := TwoPhis(), {(0, false)} + {(1, false)};
    JoinOpened(f, 0, 2, 1);
    TwoPhisOpened({(0, false)});
    TwoPhisClosed(v);
    RunKeeps(f, State(map[1 := {}], v + {(1, true)}, [(0, true), (2, false)]), 1);
    TwoPhisConnect();
    assert !Complete(f, Query(f, map[], 0), 1);
  }

  /** Value 1 joins 3 and 2, and 2 is 3 again; but 0 joins 1 and 3, so 3 is cached before 1 is opened. */
  ghost function CachedEarlier(): (f: Flow)
    ensures WellFormed(f)
  {
    Flow(map[0 := {}, 1 := {}, 2 := {}, 3 := {3}], map[0 := [1, 3], 1 := [3, 2], 2 := [3], 3 := []])
  }

  lemma EarlierOpened(v: set<Entry>)
    requires (3, false) !in v
    ensures GoesOn(CachedEarlier(), State(map[], v, [(0, true), (1, false), (3, false)]),
      State(map[], v + {(3, false)}, [(0, true), (1, false), (3, true)]))
  {
    var s, after: seq<Entry> := [(0, true), (1, false), (3, false)], [(0, true), (1, false), (3, true)];
    assert s[..2] + [(3, true)] == after;
    Opening(CachedEarlier(), map[], v, s, 3, after);
  }

  lemma EarlierClosed(v: set<Entry>)
    requires (3, true) !in v
    ensures GoesOn(CachedEarlier(), State(map[], v, [(0, true), (1, false), (3, true)]),
      State(map[3 := {3}], v + {(3, true)}, [(0, true), (1, false)]))
  {
    var c: Cache, s: seq<Entry> := map[], [(0, true), (1, false), (3, true)];
    assert Gathered(c, {3}, []) == {3};
    assert c[3 := {3}] == map[3 := {3}] && s[..2] == [(0, true), (1, false)];
    Closing(CachedEarlier(), c, v, s, 3);
  }

  /** Opening 1 pushes 2 only, because 3 is cached. */
  lemma EarlierJoined(v: set<Entry>, c: Cache)
    requires (1, false) !in v && c == map[3 := {3}]
    ensures GoesOn(CachedEarlier(), State(c, v, [(0, true), (1, false)]),
      State(c, v + {(1, false)}, [(0, true), (1, true), (2, false)]))
  {
    var s, below: seq<Entry> := [(0, true), (1, false)], [(0, true), (1, true)];
    var after: seq<Entry> := [(0, true), (1, true), (2, false)];
    assert s[..1] + [(1, true)] == below && below + [(2, false)] == after;
    PushTwo(below, c, 3, 2);
    PushOne(below, c, 3);
    PushOne(below, c, 2);
    Opening(CachedEarlier(), c, v, s, 1, after);
  }

  lemma EarlierCopied(v: set<Entry>, c: Cache)
    requires (2, false) !in v && c == map[3 := {3}]
    ensures GoesOn(CachedEarlier(), State(c, v, [(0, true), (1, true), (2, false)]),
      State(c, v + {(2, false)}, [(0, true), (1, true), (2, true)]))
  {
    var s, after: seq<Entry> := [(0, true), (1, true), (2, false)], [(0, true), (1, true), (2, true)];
    assert s[..2] + [(2, true)] == after;
    PushOne(after, c, 3);
    Opening(CachedEarlier(), c, v, s, 2, after);
  }

  lemma GathersThree(c: Cache, next: seq<Id>, k: nat)
    requires k < |next| && next[k] in c && forall u :: u in c ==> c[u] == {3}
    ensures Gathered(c, {}, next) == {3}
  {
    assert next[k] in next && 3 in c[next[k]];
  }

  lemma EarlierCopyClosed(v: set<Entry>, c: Cache)
    requires (2, true) !in v && c == map[3 := {3}]
    ensures GoesOn(CachedEarlier(), State(c, v, [(0, true), (1, true), (2, true)]),
      State(c[2 := {3}], v + {(2, true)}, [(0, true), (1, true)]))
  {
    var s: seq<Entry> := [(0, true), (1, true), (2, true)];
    GathersThree(c, [3], 0);
    assert s[..2] == [(0, true), (1, true)];
    Closing(CachedEarlier(), c, v, s, 2);
  }

  lemma EarlierLast(v: set<Entry>, c: Cache)
    requires (0, true) !in v && (1, true) !in v && c == map[3 := {3}][2 := {3}]
    requires Runs(CachedEarlier(), State(c, v, [(0, true), (1, true)]))
    ensures Run(CachedEarlier(), State(c, v, [(0, true), (1, true)])) == c[1 := {3}][0 := {3}]
  {
    var s, s1: seq<Entry> := [(0, true), (1, true)], [(0, true)];
    GathersThree(c, [3, 2], 0);
    GathersThree(c[1 := {3}], [1, 3], 1);
    assert s[..1] == s1 && s1[..0] == [];
    Closing(CachedEarlier(), c, v, s, 1);
    Closing(CachedEarlier(), c[1 := {3}], v + {(1, true)}, s1, 0);
  }

  /** First 3 is opened and closed. */
  lemma EarlierThree(v: set<Entry>)
    requires v == {(0, false)}
    ensures GoesOn(CachedEarlier(), State(map[], {}, [(0, false)]),
      State(map[3 := {3}], v + {(3, false)} + {(3, true)}, [(0, true), (1, false)]))
  {
    JoinOpened(CachedEarlier(), 0, 1, 3);
    EarlierOpened(v);
    EarlierClosed(v + {(3, false)});
  }

  lemma EarlierRest(v: set<Entry>, c: Cache)
    requires c == map[3 := {3}] && forall e :: e in v ==> e.0 == 3 || e == (0, false)
    requires Runs(CachedEarlier(), State(c, v, [(0, true), (1, false)]))
    ensures Run(CachedEarlier(), State(c, v, [(0, true), (1, false)])) == c[2 := {3}][1 := {3}][0 := {3}]
  {
    EarlierJoined(v, c);
    EarlierCopied(v + {(1, false)}, c);
    EarlierCopyClosed(v + {(1, false)} + {(2, false)}, c);
    EarlierLast(v + {(1, false)} + {(2, false)} + {(2, true)}, c[2 := {3}]);
  }

  lemma EarlierMarks(v: set<Entry>)
    requires v == {(0, false)}
    ensures forall e :: e in v + {(3, false)} + {(3, true)} ==> e.0 == 3 || e == (0, false)
  {}

  lemma EarlierQuery()
    ensures Query(CachedEarlier(), map[], 0) == map[3 := {3}][2 := {3}][1 := {3}][0 := {3}]
  {
    var v: set<Entry> := {(0, false)};
    EarlierThree(v);
    EarlierMarks(v);
    EarlierRest(v + {(3, false)} + {(3, true)}, map[3 := {3}]);
  }

  lemma EarlierUnclean()
    ensures !Clean(CachedEarlier(), {}, 0)
  {
    var f := CachedEarlier();
    assert Connects(f, [0, 1], 0, 1) && Avoids([0, 1], {});
    assert Connects(f, [2, 3], 2, 3) && Avoids([2, 3], {});
    assert ReachesUncached(f, {}, 0, 1) && ReachesUncached(f, {}, 2, 3);
    assert [3, 2][0] == 3 && [3, 2][1] == 2;
    assert Precedes(f.next[1], 3, 2);
  }

  lemma EarlierIsComplete(c: Cache)
    requires c == map[3 := {3}][2 := {3}][1 := {3}][0 := {3}]
    ensures AllComplete(CachedEarlier(), c)
  {
    forall u, s | u in c && Exact(CachedEarlier(), u, s)
      ensures s in c[u]
    {
      var w := ExactHasSource(CachedEarlier(), u, s);
      assert s == 3;
    }
  }

  /** The condition is not necessary: 3 is reached from 2, which 1 lists after it, yet every entry is exact. */
  lemma UncleanYetExact()
    ensures !Clean(CachedEarlier(), {}, 0)
    ensures AllComplete(CachedEarlier(), Query(CachedEarlier(), map[], 0))
  {
    EarlierUnclean();
    EarlierQuery();
    EarlierIsComplete(Query(CachedEarlier(), map[], 0));
  }

  /** Two values that draw on each other and contribute nothing. */
  ghost function Silent(): (f: Flow)
    ensures WellFormed(f)
  {
    Flow(map[0 := {}, 1 := {}], map[0 := [1], 1 := [0]])
  }

  lemma SilentIsUnclean()
    ensures !CleanEverywhere(Silent())
  {
    var f := Silent();
    ReachesSelf(f, 0, {});
    assert Connects(f, [0, 1], 0, 1) && Avoids([0, 1], {});
    assert Connects(f, [1, 0], 1, 0) && Avoids([1, 0], {});
    assert ReachesUncached(f, {}, 0, 1) && ReachesUncached(f, {}, 1, 0);
    assert !Clean(f, {}, 0);
  }

  /** Nothing is missing from their entries: without contributions of their own the values need not be
      clean. */
  lemma SilentYetExact()
    ensures AnswersExactly(Silent()) && !CleanEverywhere(Silent())
  {
    var f := Silent();
    SilentIsUnclean();
    forall roots, cs, i | History(f, roots, cs) && cs[0] == map[] && 0 <= i < |roots|
      ensures ExactFor(f, roots[i], cs[i + 1])
    {
      assert Asks(f, cs[i], roots[i], cs[i + 1]);
      QueryAnswered(f, cs[i], roots[i]);
      AlwaysSound(f, roots, cs, i + 1);
    }
  }

  /** Two values that join each other and an allocation, 2, in this order. */
  ghost predicate Phis(f: Flow, a: Id, b: Id) {
    && WellFormed(f) && a != b && a != 2 && b != 2 && f.next.Keys == {a, b, 2}
    && f.next[a] == [b, 2] && f.next[b] == [a, 2] && f.next[2] == []
    && f.own[a] == {} && f.own[b] == {} && f.own[2] == {2}
  }

  ghost function JoinedPhis(): (f: Flow)
    ensures Phis(f, 0, 1) && Phis(f, 1, 0)
  {
    Flow(map[0 := {}, 1 := {}, 2 := {2}], map[0 := [1, 2], 1 := [0, 2], 2 := []])
  }

  /** The allocation is closed before either of them. */
  lemma PhisAlloc(f: Flow, a: Id, b: Id, v: set<Entry>)
    requires Phis(f, a, b) && (2, false) !in v && (2, true) !in v
    requires Runs(f, State(map[], v, [(a, true), (b, false), (2, false)]))
    ensures GoesOn(f, State(map[], v, [(a, true), (b, false), (2, false)]),
      State(map[2 := {2}], v + {(2, false)} + {(2, true)}, [(a, true), (b, false)]))
  {
    var s, s1: seq<Entry> := [(a, true), (b, false), (2, false)], [(a, true), (b, false), (2, true)];
    var c: Cache := map[];
    assert s[..2] + [(2, true)] == s1 && s1[..2] == [(a, true), (b, false)];
    Opening(f, c, v, s, 2, s1);
    assert Gathered(c, {2}, []) == {2} && c[2 := {2}] == map[2 := {2}];
    Closing(f, c, v + {(2, false)}, s1, 2);
  }

  /** Opening b pushes a once more; that entry is skipped. */
  lemma PhisJoin(f: Flow, a: Id, b: Id, v: set<Entry>, c: Cache)
    requires Phis(f, a, b) && (b, false) !in v && (a, false) in v && c == map[2 := {2}]
    requires Runs(f, State(c, v, [(a, true), (b, false)]))
    ensures GoesOn(f, State(c, v, [(a, true), (b, false)]), State(c, v + {(b, false)}, [(a, true), (b, true)]))
  {
    var s, below, s1: seq<Entry> := [(a, true), (b, false)], [(a, true), (b, true)], [(a, true), (b, true), (a, false)];
    assert s[..1] + [(b, true)] == below && below + [(a, false)] == s1 && s1[..2] == below;
    PushTwo(below, c, a, 2);
    PushOne(below, c, a);
    PushOne(s1, c, 2);
    Opening(f, c, v, s, b, s1);
    Skipping(f, c, v + {(b, false)}, s1);
  }

  lemma GathersTwo(c: Cache, next: seq<Id>)
    requires |next| == 2 && next[1] == 2 && 2 in c && forall u :: u in c ==> c[u] == {2}
    ensures Gathered(c, {}, next) == {2}
  {
    assert next[1] in next && 2 in c[2];
  }

  lemma PhisClosed(f: Flow, a: Id, b: Id, v: set<Entry>, c: Cache)
    requires Phis(f, a, b) && (a, true) !in v && (b, true) !in v && c == map[2 := {2}]
    requires Runs(f, State(c, v, [(a, true), (b, true)]))
    ensures Run(f, State(c, v, [(a, true), (b, true)])) == c[b := {2}][a := {2}]
  {
    var s, s1: seq<Entry> := [(a, true), (b, true)], [(a, true)];
    assert s[..1] == s1 && s1[..0] == [];
    GathersTwo(c, [a, 2]);
    GathersTwo(c[b := {2}], [b, 2]);
    Closing(f, c, v, s, b);
    Closing(f, c[b := {2}], v + {(b, true)}, s1, a);
  }

  lemma PhisQuery(f: Flow, a: Id, b: Id)
    requires Phis(f, a, b)
    ensures Query(f, map[], a) == map[2 := {2}][b := {2}][a := {2}]
  {
    var v: set<Entry>, c: Cache := {(a, false)}, map[2 := {2}];
    JoinOpened(f, a, b, 2);
    PhisAlloc(f, a, b, v);
    PhisJoin(f, a, b, v + {(2, false)} + {(2, true)}, c);
    PhisClosed(f, a, b, v + {(2, false)} + {(2, true)} + {(b, false)}, c);
  }

  lemma PhisComplete(f: Flow, a: Id, b: Id, c: Cache)
    requires Phis(f, a, b) && forall u :: u in c ==> c[u] == {2}
    ensures AllComplete(f, c)
  {
    forall u, s | u in c && Exact(f, u, s)
      ensures s in c[u]
    {
      var w := ExactHasSource(f, u, s);
      assert s == 2;
    }
  }

  /** A query for the allocation itself. */
  lemma PhisAllocComplete(f: Flow, a: Id, b: Id)
    requires Phis(f, a, b)
    ensures AllComplete(f, Query(f, map[], 2))
  {
    var c := Query(f, map[], 2);
    QueryAnswered(f, map[], 2);
    assert c.Keys == {2} by { OnlyItself(f, a, b, c); }
    AnsweredExactly(f, map[], 2, c);
  }

  lemma OnlyItself(f: Flow, a: Id, b: Id, c: Cache)
    requires Phis(f, a, b) && Extends(f, map[], 2, c) && 2 in c
    ensures c.Keys == {2}
  {
    forall v | v in c
      ensures v == 2
    {
      var p :| Connects(f, p, 2, v) && Avoids(p, {});
      CachedTogether(f, map[2 := {}], p);
    }
  }

  lemma PhisQueryComplete(f: Flow, a: Id, b: Id, c: Cache)
    requires Phis(f, a, b) && c == Query(f, map[], a)
    ensures AllComplete(f, c)
  {
    PhisQuery(f, a, b);
    PhisComplete(f, a, b, c);
  }

  lemma PhisFresh(f: Flow, v: Id)
    requires Phis(f, 0, 1) && Phis(f, 1, 0) && v in f.next
    ensures LeavesExact(f, v)
  {
    if v == 0 {
      PhisQueryComplete(f, 0, 1, Query(f, map[], 0));
    } else if v == 1 {
      PhisQueryComplete(f, 1, 0, Query(f, map[], 1));
    } else {
      PhisAllocComplete(f, 0, 1);
    }
  }

  lemma PhisExact(f: Flow)
    requires Phis(f, 0, 1) && Phis(f, 1, 0)
    ensures AnswersExactly(f)
  {
    forall v | v in f.next
      ensures LeavesExact(f, v)
    {
      PhisFresh(f, v);
    }
    AnswersExactlyIffFresh(f);
  }

  /** Every sequence of queries is answered exactly, although the two lie on a cycle and, in a query for
      the first, one of them is closed before the other, its neighbour. */
  lemma PhisYetExact()
    ensures AnswersExactly(JoinedPhis()) && !CleanEverywhere(JoinedPhis())
    ensures forall closed :: ClosedBy(JoinedPhis(), map[], 0, Query(JoinedPhis(), map[], 0), closed) ==>
      !NeighboursFirst(JoinedPhis(), map[], closed)
  {
    PhisExact(JoinedPhis());
    PhisUnclean(JoinedPhis());
    PhisQuery(JoinedPhis(), 0, 1);
    AllUnordered(JoinedPhis(), Query(JoinedPhis(), map[], 0));
  }

  lemma AllUnordered(f: Flow, c: Cache)
    requires Phis(f, 0, 1) && 0 in c && 1 in c
    ensures forall closed :: ClosedBy(f, map[], 0, c, closed) ==> !NeighboursFirst(f, map[], closed)
  {
    forall closed | ClosedBy(f, map[], 0, c, closed)
      ensures !NeighboursFirst(f, map[], closed)
    {
      PhisUnordered(f, c, closed);
    }
  }

  lemma PhisUnclean(f: Flow)
    requires Phis(f, 0, 1)
    ensures !CleanEverywhere(f)
  {
    ReachesSelf(f, 0, {});
    assert Connects(f, [0, 1], 0, 1) && Avoids([0, 1], {});
    assert Connects(f, [1, 0], 1, 0) && Avoids([1, 0], {});
    assert ReachesUncached(f, {}, 0, 1) && ReachesUncached(f, {}, 1, 0);
    assert !Clean(f, {}, 0);
  }

  lemma PhisUnordered(f: Flow, c: Cache, closed: map<Id, nat>)
    requires Phis(f, 0, 1) && ClosedBy(f, map[], 0, c, closed) && 0 in c && 1 in c
    ensures !NeighboursFirst(f, map[], closed)
  {
    assert f.next[0][0] == 1 && f.next[1][0] == 0;
    assert !(Before(map[], closed, 1, 0) && Before(map[], closed, 0, 1));
  }
}
