/**
 * `findInnermostBrackets`: the contents of the angle-bracket pairs of a demangled name that
 * hold no other pair, `->` not counting as a closing bracket.
 *
 * What a matched pair is, is defined without the stack: between its ends the nesting depth
 * never falls below zero and is zero at the end.
 */
module Brackets {

  predicate Opens(s: string, i: nat) {
    i < |s| && s[i] == '<'
  }

  predicate Closes(s: string, i: nat) {
    0 < i < |s| && s[i] == '>' && s[i - 1] != '-'
  }

  function Weight(s: string, i: nat): int {
    if Opens(s, i) then 1 else if Closes(s, i) then -1 else 0
  }

  // Opening minus closing brackets at the positions from `a` up to `b`.
  function Depth(s: string, a: nat, b: nat): int
    decreases b
  {
    if b <= a then 0 else Depth(s, a, b - 1) + Weight(s, b - 1)
  }

  ghost predicate NeverBelow(s: string, a: nat, b: nat) {
    forall k: nat :: a <= k <= b ==> Depth(s, a, k) >= 0
  }

  ghost predicate Matched(s: string, i: nat, j: nat) {
    i < j && Opens(s, i) && Closes(s, j) && Depth(s, i + 1, j) == 0 && NeverBelow(s, i + 1, j)
  }

  ghost predicate Innermost(s: string, i: nat, j: nat) {
    Matched(s, i, j) && !exists a: nat, b: nat :: i < a && b < j && Matched(s, a, b)
  }

  lemma DepthSplit(s: string, a: nat, m: nat, b: nat)
    requires a <= m <= b
    ensures Depth(s, a, b) == Depth(s, a, m) + Depth(s, m, b)
    decreases b
  {
    if m < b { DepthSplit(s, a, m, b - 1); }
  }

  // Two matched pairs do not cross, and an opening bracket has one partner.
  lemma NoCrossing(s: string, i: nat, j: nat, a: nat, b: nat)
    requires Matched(s, i, j) && Matched(s, a, b) && b < j
    ensures b < i || i < a
  {
    if i < b {
      assert Depth(s, i + 1, b + 1) == Depth(s, i + 1, b) - 1 && Depth(s, i + 1, b + 1) >= 0;
      if a < i {
        DepthSplit(s, a + 1, i, b);
        DepthSplit(s, i, i + 1, b);
      }
    }
  }

  // Every opening bracket inside a matched pair is matched inside it.
  lemma MatchedInside(s: string, i: nat, j: nat, o: nat) returns (e: nat)
    requires Matched(s, i, j) && i < o < j && Opens(s, o)
    ensures e < j && Matched(s, o, e)
  {
    DepthSplit(s, i + 1, o, j);
    DepthSplit(s, o, o + 1, j);
    e := o + 1;
    assert Depth(s, o + 1, j) < 0;
    while Depth(s, o + 1, e + 1) >= 0
      invariant o < e < j && NeverBelow(s, o + 1, e)
      decreases j - e
    {
      e := e + 1;
    }
    assert Depth(s, o + 1, e + 1) == Depth(s, o + 1, e) + Weight(s, e);
  }

  lemma InnermostInside(s: string, i: nat, j: nat) returns (a: nat, b: nat)
    requires Matched(s, i, j)
    ensures i <= a && b <= j && Innermost(s, a, b)
    decreases j - i
  {
    a, b := i, j;
    if !Innermost(s, i, j) {
      var c: nat, d: nat :| i < c && d < j && Matched(s, c, d);
      a, b := InnermostInside(s, c, d);
    }
  }

  // No opening bracket lies between the ends of an innermost pair.
  lemma InnermostIsPlain(s: string, i: nat, j: nat)
    requires Innermost(s, i, j)
    ensures j < |s| && '<' !in s[i + 1..j]
  {
    forall o: nat | i < o < j
      ensures !Opens(s, o)
    {
      if Opens(s, o) {
        var e := MatchedInside(s, i, j, o);
        assert false;
      }
    }
    var text := s[i + 1..j];
    forall k | 0 <= k < |text|
      ensures text[k] != '<'
    {
      assert !Opens(s, i + 1 + k);
    }
  }

  lemma InnermostDisjoint(s: string, i: nat, j: nat, a: nat, b: nat)
    requires Innermost(s, i, j) && Innermost(s, a, b) && b < j
    ensures b < i
  {
    NoCrossing(s, i, j, a, b);
  }

  // ---------------------------------------------------------------- the stack

  // The stack holds the opening brackets before `i` that nothing has closed yet.
  ghost predicate StackFits(s: string, i: nat, stack: seq<nat>) {
    && (forall t :: 0 <= t < |stack| ==> stack[t] < i && Opens(s, stack[t]))
    && (forall t, u :: 0 <= t < u < |stack| ==> stack[t] < stack[u])
    && (forall t :: 0 <= t < |stack| ==> Depth(s, stack[t] + 1, i) == |stack| - 1 - t && NeverBelow(s, stack[t] + 1, i))
    && forall o: nat :: o < i && Opens(s, o) && o !in stack ==> !NeverBelow(s, o + 1, i)
  }

  lemma NeverBelowStep(s: string, a: nat, i: nat)
    requires a <= i
    ensures NeverBelow(s, a, i + 1) <==> NeverBelow(s, a, i) && Depth(s, a, i + 1) >= 0
  {}

  lemma DepthStep(s: string, a: nat, i: nat)
    requires a <= i
    ensures Depth(s, a, i + 1) == Depth(s, a, i) + Weight(s, i)
    ensures NeverBelow(s, a, i + 1) <==> NeverBelow(s, a, i) && Depth(s, a, i) + Weight(s, i) >= 0
  {
    NeverBelowStep(s, a, i);
  }

  // Three ways for the stack to go on from position `i`.
  lemma StackKept(s: string, i: nat, stack: seq<nat>)
    requires StackFits(s, i, stack) && i < |s| && !Opens(s, i) && (Closes(s, i) ==> stack == [])
    ensures StackFits(s, i + 1, stack)
  {
    forall o: nat | o < i && Opens(s, o)
      ensures Depth(s, o + 1, i + 1) == Depth(s, o + 1, i) + Weight(s, i)
      ensures NeverBelow(s, o + 1, i + 1) <==> NeverBelow(s, o + 1, i) && Depth(s, o + 1, i) + Weight(s, i) >= 0
    {
      DepthStep(s, o + 1, i);
    }
  }

  lemma StackPushed(s: string, i: nat, stack: seq<nat>)
    requires StackFits(s, i, stack) && Opens(s, i)
    ensures StackFits(s, i + 1, stack + [i])
  {
    var next := stack + [i];
    forall t | 0 <= t < |next|
      ensures Depth(s, next[t] + 1, i + 1) == |next| - 1 - t && NeverBelow(s, next[t] + 1, i + 1)
    {
      if t < |stack| { DepthStep(s, stack[t] + 1, i); }
    }
    forall o: nat | o < i + 1 && Opens(s, o) && o !in next
      ensures !NeverBelow(s, o + 1, i + 1)
    {
      assert i in next && (o in stack ==> o in next);
      DepthStep(s, o + 1, i);
    }
  }

  lemma StackPopped(s: string, i: nat, stack: seq<nat>)
    requires StackFits(s, i, stack) && Closes(s, i) && stack != []
    ensures StackFits(s, i + 1, stack[..|stack| - 1])
  {
    var next := stack[..|stack| - 1];
    forall t | 0 <= t < |next|
      ensures Depth(s, next[t] + 1, i + 1) == |next| - 1 - t && NeverBelow(s, next[t] + 1, i + 1)
    {
      DepthStep(s, stack[t] + 1, i);
    }
    forall o: nat | o < i + 1 && Opens(s, o) && o !in next
      ensures !NeverBelow(s, o + 1, i + 1)
    {
      PoppedBelow(s, i, stack, o);
    }
  }

  lemma PoppedBelow(s: string, i: nat, stack: seq<nat>, o: nat)
    requires StackFits(s, i, stack) && Closes(s, i) && stack != []
    requires o < i + 1 && Opens(s, o) && o !in stack[..|stack| - 1]
    ensures !NeverBelow(s, o + 1, i + 1)
  {
    DepthStep(s, o + 1, i);
    if o in stack { OnlyLast(stack, o); }
  }

  lemma OnlyLast(stack: seq<nat>, o: nat)
    requires o in stack && o !in stack[..|stack| - 1]
    ensures o == stack[|stack| - 1]
  {
    assert stack == stack[..|stack| - 1] + [stack[|stack| - 1]];
  }

  // A closing bracket is matched with the top of the stack and with nothing else.
  lemma TopIsMatched(s: string, i: nat, stack: seq<nat>)
    requires StackFits(s, i, stack) && Closes(s, i)
    ensures forall o: nat :: Matched(s, o, i) <==> stack != [] && o == stack[|stack| - 1]
  {
    forall o: nat
      ensures Matched(s, o, i) <==> stack != [] && o == stack[|stack| - 1]
    {
      if o in stack {
        var t :| 0 <= t < |stack| && stack[t] == o;
      }
    }
  }

  datatype Pair = Pair(open: nat, close: nat)

  // The innermost pairs that close before `i`, in closing order; `used` marks their ends.
  ghost predicate PairsFit(s: string, i: nat, pairs: seq<Pair>, used: seq<bool>) {
    && |used| == |s|
    && (forall a: nat, b: nat :: Pair(a, b) in pairs <==> b < i && Innermost(s, a, b))
    && (forall t, u :: 0 <= t < u < |pairs| ==> pairs[t].close < pairs[u].close)
    && forall k :: 0 <= k < |s| ==> (used[k] <==> exists p <- pairs :: p.open == k || p.close == k)
  }

  // Scanning the marks between the ends tells whether a matched pair is innermost.
  lemma MarksTell(s: string, i: nat, j: nat, pairs: seq<Pair>, used: seq<bool>)
    requires Matched(s, i, j) && PairsFit(s, j, pairs, used)
    ensures Innermost(s, i, j) <==> forall k :: i < k < j ==> !used[k]
  {
    if !Innermost(s, i, j) {
      var a: nat, b: nat :| i < a && b < j && Matched(s, a, b);
      var c, d := InnermostInside(s, a, b);
      assert Pair(c, d) in pairs;
      assert used[c];
    }
    if k :| i < k < j && used[k] {
      var p :| p in pairs && (p.open == k || p.close == k);
      assert Pair(p.open, p.close) == p;
      NoCrossing(s, i, j, p.open, p.close);
    }
  }

  lemma PairAdded(s: string, o: nat, i: nat, pairs: seq<Pair>, used: seq<bool>)
    requires PairsFit(s, i, pairs, used) && Innermost(s, o, i)
    requires forall a: nat :: Matched(s, a, i) ==> a == o
    ensures PairsFit(s, i + 1, pairs + [Pair(o, i)], used[o := true][i := true])
  {
    var more := pairs + [Pair(o, i)];
    forall t, u | 0 <= t < u < |more|
      ensures more[t].close < more[u].close
    {
      if u == |pairs| {
        assert Pair(pairs[t].open, pairs[t].close) in pairs;
      }
    }
    var marks := used[o := true][i := true];
    forall k | 0 <= k < |s|
      ensures marks[k] <==> exists p <- more :: p.open == k || p.close == k
    {
      if marks[k] && k != o && k != i {
        var p :| p in pairs && (p.open == k || p.close == k);
        assert p in more;
      }
      assert Pair(o, i) in more;
    }
  }

  lemma NoPairAdded(s: string, i: nat, pairs: seq<Pair>, used: seq<bool>)
    requires PairsFit(s, i, pairs, used) && forall o: nat :: !Innermost(s, o, i)
    ensures PairsFit(s, i + 1, pairs, used)
  {}

  function Text(s: string, p: Pair): string
    requires p.open < p.close < |s|
  {
    s[p.open + 1..p.close]
  }

  // The answer: the contents of the innermost pairs, in closing order.
  ghost predicate IsAnswer(s: string, ans: seq<string>, pairs: seq<Pair>) {
    && |ans| == |pairs|
    && (forall a: nat, b: nat :: Pair(a, b) in pairs <==> Innermost(s, a, b))
    && (forall t, u :: 0 <= t < u < |pairs| ==> pairs[t].close < pairs[u].open)
    && forall t :: 0 <= t < |pairs| ==>
      pairs[t].open < pairs[t].close < |s| && ans[t] == Text(s, pairs[t]) && '<' !in ans[t]
  }

  // Each content is all that lies between the ends of its pair, character by character.
  lemma AnswerLies(s: string, ans: seq<string>, pairs: seq<Pair>, t: nat, k: nat)
    requires IsAnswer(s, ans, pairs) && t < |pairs|
    ensures pairs[t].open + |ans[t]| + 1 == pairs[t].close < |s|
    ensures k < |ans[t]| ==> ans[t][k] == s[pairs[t].open + 1 + k]
    ensures s[pairs[t].open] == '<' && s[pairs[t].close] == '>'
  {
    assert pairs[t] == Pair(pairs[t].open, pairs[t].close);
    assert Innermost(s, pairs[t].open, pairs[t].close);
  }

  // Whether nothing between the ends is marked.
  method NothingUsed(used: array<bool>, openIndex: nat, i: nat) returns (isInnermost: bool)
    requires openIndex < i <= used.Length
    ensures isInnermost <==> forall k :: openIndex < k < i ==> !used[k]
  {
    isInnermost := true;
    var j := openIndex + 1;
    while j < i && isInnermost
      invariant openIndex < j <= i
      invariant isInnermost <==> forall k :: openIndex < k < j ==> !used[k]
    {
      if used[j] {
        isInnermost := false;
      }
      j := j + 1;
    }
  }

  // A closing bracket meets the opening bracket on top of the stack.
  method Close(s: string, i: nat, ghost stack: seq<nat>, openIndex: nat, innerMostPairs: seq<Pair>, used: array<bool>)
    returns (pairs: seq<Pair>)
    requires StackFits(s, i, stack) && stack != [] && openIndex == stack[|stack| - 1] && Closes(s, i)
    requires PairsFit(s, i, innerMostPairs, used[..])
    modifies used
    ensures PairsFit(s, i + 1, pairs, used[..])
  {
    pairs := innerMostPairs;
    TopIsMatched(s, i, stack);
    MarksTell(s, openIndex, i, pairs, used[..]);
    var isInnermost := NothingUsed(used, openIndex, i);
    if isInnermost {
      PairAdded(s, openIndex, i, pairs, used[..]);
      pairs := pairs + [Pair(openIndex, i)];
      used[openIndex] := true;
      used[i] := true;
    } else {
      NoPairAdded(s, i, pairs, used[..]);
    }
  }

  method Scan(s: string) returns (innerMostPairs: seq<Pair>, ghost marks: seq<bool>)
    ensures PairsFit(s, |s|, innerMostPairs, marks)
  {
    var stack: seq<nat> := [];
    innerMostPairs := [];
    var used := new bool[|s|](_ => false);
    for i := 0 to |s|
      invariant StackFits(s, i, stack)
      invariant PairsFit(s, i, innerMostPairs, used[..])
    {
      if s[i] == '<' {
        StackPushed(s, i, stack);
        NoPairAdded(s, i, innerMostPairs, used[..]);
        stack := stack + [i];
      } else if s[i] == '>' && i > 0 && s[i - 1] != '-' && stack != [] {
        StackPopped(s, i, stack);
        innerMostPairs := Close(s, i, stack, stack[|stack| - 1], innerMostPairs, used);
        stack := stack[..|stack| - 1];
      } else {
        if Closes(s, i) { TopIsMatched(s, i, stack); }
        StackKept(s, i, stack);
        NoPairAdded(s, i, innerMostPairs, used[..]);
      }
    }
    marks := used[..];
  }

  method FindInnermostBrackets(s: string) returns (ans: seq<string>)
    ensures exists pairs :: IsAnswer(s, ans, pairs)
  {
    var innerMostPairs, _ := Scan(s);
    ghost var pairs := innerMostPairs;
    forall t | 0 <= t < |pairs|
      ensures Innermost(s, pairs[t].open, pairs[t].close)
    {
      assert Pair(pairs[t].open, pairs[t].close) in pairs;
    }
    ans := [];
    for t := 0 to |innerMostPairs|
      invariant |ans| == t
      invariant forall u :: 0 <= u < t ==> pairs[u].open < pairs[u].close < |s| && ans[u] == Text(s, pairs[u])
    {
      ans := ans + [Text(s, innerMostPairs[t])];
    }
    forall t | 0 <= t < |pairs|
      ensures '<' !in ans[t]
    {
      InnermostIsPlain(s, pairs[t].open, pairs[t].close);
    }
    forall t, u | 0 <= t < u < |pairs|
      ensures pairs[t].close < pairs[u].open
    {
      InnermostDisjoint(s, pairs[u].open, pairs[u].close, pairs[t].open, pairs[t].close);
    }
    assert IsAnswer(s, ans, pairs);
  }
}
