/** Facts about sequences and finite sets that several modules use. */
module Collections {

  predicate Distinct<T(==)>(s: seq<T>) {
    forall i, j :: 0 <= i < j < |s| ==> s[i] != s[j]
  }

  function Elements<T(!new)>(s: seq<T>): (r: set<T>)
    ensures forall x :: x in r <==> x in s
  {
    set x | x in s
  }

  function FirstIndex<T(==)>(s: seq<T>, x: T): (k: nat)
    requires x in s
    ensures k < |s| && s[k] == x && x !in s[..k]
  {
    if s[0] == x then 0
    else
      assert s == [s[0]] + s[1..];
      var k := FirstIndex(s[1..], x) + 1;
      assert s[..k] == [s[0]] + s[1..][..k - 1];
      k
  }

  lemma FirstIndexAt<T>(s: seq<T>, k: nat)
    requires k < |s| && s[k] !in s[..k]
    ensures FirstIndex(s, s[k]) == k
  {}

  // x occurs in s before y does.
  predicate Precedes<T(==)>(s: seq<T>, x: T, y: T) {
    x in s && y in s && FirstIndex(s, x) < FirstIndex(s, y)
  }

  // Marking one more member leaves fewer to mark.
  lemma OneLess<T>(all: set<T>, done: set<T>, n: T)
    requires n in all && n !in done
    ensures |all - (done + {n})| < |all - done|
  {
    assert all - (done + {n}) == (all - done) - {n};
  }

  lemma {:induction false} SubsetSize<T>(a: set<T>, b: set<T>)
    requires a <= b
    ensures |a| <= |b|
  {
    if a != {} {
      var x :| x in a;
      SubsetSize(a - {x}, b - {x});
    }
  }
}
