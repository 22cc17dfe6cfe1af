/** Finite graphs: a depth-first recursion ends everywhere exactly when no chain of edges closes, and
    exactly when the vertices can be ranked so that edges lead downwards. */
module Graphs {
  import opened Collections

  /** The vertices that each vertex leads to. */
  type Adjacency<T> = map<T, set<T>>

  predicate Joined<T(==)>(g: Adjacency<T>, a: T, b: T) {
    a in g && b in g[a]
  }

  ghost predicate Chain<T>(g: Adjacency<T>, c: seq<T>) {
    |c| > 0 && forall i :: 0 <= i < |c| - 1 ==> Joined(g, c[i], c[i + 1])
  }

  ghost predicate Circle<T>(g: Adjacency<T>, c: seq<T>) {
    Chain(g, c) && |c| > 1 && c[|c| - 1] == c[0]
  }

  ghost predicate Acyclic<T(!new)>(g: Adjacency<T>) {
    forall c :: !Circle(g, c)
  }

  ghost predicate Ranks<T(!new)>(g: Adjacency<T>, rank: map<T, nat>) {
    forall a, b :: Joined(g, a, b) ==> a in rank && (b in g ==> b in rank && rank[b] < rank[a])
  }

  /** A recursion that follows the edges from a is at most n calls deep. */
  ghost predicate EndsWithin<T(!new)>(g: Adjacency<T>, a: T, n: nat)
    decreases n
  {
    forall b :: Joined(g, a, b) ==> n > 0 && EndsWithin(g, b, n - 1)
  }

  ghost predicate AlwaysEnds<T(!new)>(g: Adjacency<T>) {
    forall a :: a in g ==> exists n :: EndsWithin(g, a, n)
  }

  lemma {:induction false} RankFalls<T(!new)>(g: Adjacency<T>, rank: map<T, nat>, c: seq<T>)
    requires Ranks(g, rank) && Chain(g, c) && |c| > 1 && c[|c| - 1] in g
    ensures c[0] in rank && c[|c| - 1] in rank && rank[c[|c| - 1]] < rank[c[0]]
  {
    var n := |c| - 1;
    assert Joined(g, c[n - 1], c[n]);
    if n > 1 { RankFalls(g, rank, c[..n]); }
  }

  ghost predicate LeadsInto<T>(g: Adjacency<T>, t: set<T>, a: T) {
    exists b :: b in t && Joined(g, a, b)
  }

  ghost predicate AllLeadInto<T(!new)>(g: Adjacency<T>, t: set<T>) {
    forall a {:trigger LeadsInto(g, t, a)} :: a in t ==> LeadsInto(g, t, a)
  }

  /** Where every member of a set leads to a member, some chain closes. */
  lemma {:induction false} FindCircle<T(!new)>(g: Adjacency<T>, t: set<T>, c: seq<T>) returns (circle: seq<T>)
    requires Chain(g, c) && c[|c| - 1] in t
    requires AllLeadInto(g, t)
    ensures Circle(g, circle)
    decreases |t - Elements(c)|
  {
    assert LeadsInto(g, t, c[|c| - 1]);
    var b :| b in t && Joined(g, c[|c| - 1], b);
    Extended(g, c, b);
    if b in c {
      circle := ClosedAt(g, c, b);
    } else {
      OneLess(t, Elements(c), b);
      assert Elements(c + [b]) == Elements(c) + {b};
      circle := FindCircle(g, t, c + [b]);
    }
  }

  lemma Extended<T(!new)>(g: Adjacency<T>, c: seq<T>, b: T)
    requires Chain(g, c) && Joined(g, c[|c| - 1], b)
    ensures Chain(g, c + [b])
  {}

  lemma ClosedAt<T(!new)>(g: Adjacency<T>, c: seq<T>, b: T) returns (circle: seq<T>)
    requires Chain(g, c + [b]) && b in c
    ensures Circle(g, circle)
  {
    var i := FirstIndex(c, b);
    circle := (c + [b])[i..];
    forall k | 0 <= k < |circle| - 1
      ensures Joined(g, circle[k], circle[k + 1])
    {
      assert Joined(g, (c + [b])[i + k], (c + [b])[i + k + 1]);
    }
  }

  ghost predicate RanksOn<T(!new)>(g: Adjacency<T>, t: set<T>, rank: map<T, nat>) {
    rank.Keys == t && forall a, b :: a in t && b in t && Joined(g, a, b) ==> rank[b] < rank[a]
  }

  /** Without a circle some member leads to none, and can be ranked lowest. */
  lemma {:induction false} RankAcyclic<T(!new)>(g: Adjacency<T>, t: set<T>) returns (rank: map<T, nat>)
    requires Acyclic(g)
    ensures RanksOn(g, t, rank)
    decreases t
  {
    if t == {} {
      rank := map[];
    } else {
      var low := FindLow(g, t);
      var r := RankAcyclic(g, t - {low});
      rank := map a | a in t :: if a == low then 0 else r[a] + 1;
    }
  }

  lemma FindLow<T(!new)>(g: Adjacency<T>, t: set<T>) returns (low: T)
    requires Acyclic(g) && t != {}
    ensures low in t && forall b :: b in t ==> !Joined(g, low, b)
  {
    if AllLeadInto(g, t) {
      var any :| any in t;
      var c := FindCircle(g, t, [any]);
      assert false;
    }
    low :| low in t && !LeadsInto(g, t, low);
  }

  lemma {:induction false} RankBoundsDepth<T(!new)>(g: Adjacency<T>, rank: map<T, nat>, a: T)
    requires Ranks(g, rank) && a in g && a in rank
    ensures EndsWithin(g, a, rank[a] + 1)
    decreases rank[a]
  {
    forall b | Joined(g, a, b)
      ensures EndsWithin(g, b, rank[a])
    {
      if b in g {
        RankBoundsDepth(g, rank, b);
        EndsLater(g, b, rank[b] + 1, rank[a]);
      }
    }
  }

  lemma {:induction false} EndsLater<T(!new)>(g: Adjacency<T>, a: T, m: nat, n: nat)
    requires EndsWithin(g, a, m) && m <= n
    ensures EndsWithin(g, a, n)
    decreases n
  {
    forall b | Joined(g, a, b)
      ensures n > 0 && EndsWithin(g, b, n - 1)
    {
      EndsLater(g, b, m - 1, n - 1);
    }
  }

  lemma {:induction false} EndsAlong<T(!new)>(g: Adjacency<T>, c: seq<T>, i: nat, n: nat)
    requires Chain(g, c) && i < |c| && EndsWithin(g, c[0], n)
    ensures i <= n && EndsWithin(g, c[i], n - i)
  {
    if i > 0 {
      EndsAlong(g, c, i - 1, n);
      assert Joined(g, c[i - 1], c[i]);
    }
  }

  lemma {:induction false} CircleNeverEnds<T(!new)>(g: Adjacency<T>, c: seq<T>, n: nat)
    requires Circle(g, c)
    ensures !EndsWithin(g, c[0], n)
    decreases n
  {
    if EndsWithin(g, c[0], n) {
      EndsAlong(g, c, |c| - 1, n);
      CircleNeverEnds(g, c, n - (|c| - 1));
    }
  }

  lemma RanksIffAcyclic<T(!new)>(g: Adjacency<T>)
    ensures (exists rank :: Ranks(g, rank)) <==> Acyclic(g)
  {
    if rank :| Ranks(g, rank) {
      forall c
        ensures !Circle(g, c)
      {
        if Circle(g, c) {
          assert Joined(g, c[0], c[1]);
          RankFalls(g, rank, c);
        }
      }
    }
    if Acyclic(g) {
      var rank := RankAcyclic(g, g.Keys);
      assert Ranks(g, rank);
    }
  }

  lemma AlwaysEndsIffAcyclic<T(!new)>(g: Adjacency<T>)
    ensures AlwaysEnds(g) <==> Acyclic(g)
  {
    if Acyclic(g) {
      var rank := RankAcyclic(g, g.Keys);
      forall a | a in g
        ensures exists n :: EndsWithin(g, a, n)
      {
        RankBoundsDepth(g, rank, a);
      }
    }
    if c :| Circle(g, c) {
      assert Joined(g, c[0], c[1]);
      forall n
        ensures !EndsWithin(g, c[0], n)
      {
        CircleNeverEnds(g, c, n);
      }
    }
  }
}
