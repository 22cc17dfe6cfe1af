/**
 * The control flow of a program as the ICFG builder sees it, and
 * `LLVMUtil::getNextInsts`, which steps over intrinsic calls.
 *
 * An instruction is named by its function, block and position. Its immediate
 * control successors are the next instruction of its block or, for the last
 * instruction, the first instructions of the block's successors. `getNextInsts`
 * follows intrinsic instructions until it lands on others; `DrainsIff` shows that
 * it ends exactly when no cycle of control runs through intrinsic instructions
 * only, which `Drains` states by a rank.
 *
 * A predicate that matches on a datatype with one constructor is unfolded by the
 * solver only where its parts are needed.
 */
module ControlFlow {
  import opened Collections
  import opened Options
  import G = Graphs

  datatype Loc = Loc(fun: nat, block: nat, index: nat)

  // The callee of a call: a function with a body, a function without one (which may
  // start a thread running a function with a body), or an unknown one.
  datatype Callee = Defined(fun: nat) | External(routine: Option<nat>) | Indirect

  // `Switch` holds, for a block that exactly one case leads to, that case's value.
  datatype Kind = Plain | Return | Branch(conditional: bool) | Switch(cases: map<nat, int>) | Call(callee: Callee)

  datatype Inst = Inst(kind: Kind, intrinsic: bool)

  datatype Block = Block(insts: seq<Inst>, succs: seq<nat>)

  // A function with a body; block 0 is its entry block. `unreachable` holds the blocks
  // that no control path from the entry block enters.
  datatype Function = Function(blocks: seq<Block>, unreachable: set<nat>)

  // The functions with a body, in module order, and the program entry of each module that has one.
  datatype Program = Program(funs: seq<Function>, mains: seq<nat>)

  function Target(callee: Callee): Option<nat> {
    match callee
    case Defined(g) => Some(g)
    case External(routine) => routine
    case Indirect => None
  }

  // A path in the control-flow graph of blocks, from the entry block.
  ghost predicate IsPath(f: Function, path: seq<nat>)
    decreases |path|
  {
    match |path|
    case 0 => false
    case 1 => path[0] == 0 && |f.blocks| > 0
    case n =>
      && IsPath(f, path[..n - 1])
      && path[n - 2] < |f.blocks|
      && path[n - 1] in f.blocks[path[n - 2]].succs
  }

  ghost predicate Reached(f: Function, b: nat) {
    exists path :: IsPath(f, path) && path[|path| - 1] == b
  }

  ghost predicate UnreachableIsExact(f: Function) {
    forall b: nat :: b < |f.blocks| ==> (b in f.unreachable <==> !Reached(f, b))
  }

  predicate ValidFunction(f: Function, funs: nat) {
    && |f.blocks| > 0
    && (forall b <- f.blocks :: |b.insts| > 0 && forall s <- b.succs :: s < |f.blocks|)
    && (forall b <- f.blocks, i <- b.insts :: i.intrinsic ==> i.kind.Call?)
    && (forall b <- f.blocks, i <- b.insts :: i.kind.Call? ==>
          Target(i.kind.callee).Some? ==> Target(i.kind.callee).value < funs)
  }

  ghost predicate Valid(p: Program) {
    match p
    case Program(funs, mains) =>
      && (forall f <- funs :: ValidFunction(f, |funs|) && UnreachableIsExact(f))
      && (forall m <- mains :: m < |funs|)
      && forall m, n :: 0 <= m < n < |mains| ==> mains[m] != mains[n]
  }

  predicate In(p: Program, at: Loc) {
    && at.fun < |p.funs|
    && at.block < |p.funs[at.fun].blocks|
    && at.index < |p.funs[at.fun].blocks[at.block].insts|
  }

  function At(p: Program, at: Loc): Inst
    requires In(p, at)
  {
    p.funs[at.fun].blocks[at.block].insts[at.index]
  }

  function Insts(p: Program): (r: set<Loc>)
    ensures forall at :: at in r <==> In(p, at)
  {
    set f: nat, b: nat, i: nat | f < |p.funs| && b < |p.funs[f].blocks| && i < |p.funs[f].blocks[b].insts| ::
      Loc(f, b, i)
  }

  // The immediate control successors of an instruction.
  function Steps(p: Program, at: Loc): (r: seq<Loc>)
    requires Valid(p) && In(p, at)
    ensures forall s <- r :: In(p, s) && s.fun == at.fun
  {
    var block := p.funs[at.fun].blocks[at.block];
    assert ValidFunction(p.funs[at.fun], |p.funs|);
    assert forall b <- block.succs :: b < |p.funs[at.fun].blocks| && |p.funs[at.fun].blocks[b].insts| > 0;
    if at.index + 1 < |block.insts| then [at.(index := at.index + 1)]
    else seq(|block.succs|, k requires 0 <= k < |block.succs| => Loc(at.fun, block.succs[k], 0))
  }

  // A rank that falls along every step between intrinsic instructions.
  ghost predicate Ranked(p: Program, rank: map<Loc, nat>)
    requires Valid(p)
  {
    && (forall at :: In(p, at) && At(p, at).intrinsic ==> at in rank)
    && forall at, s :: In(p, at) && At(p, at).intrinsic && s in Steps(p, at) && At(p, s).intrinsic ==>
         rank[s] < rank[at]
  }

  ghost predicate Drains(p: Program)
    requires Valid(p)
  {
    match p
    case Program(_, _) => exists rank :: Ranked(p, rank)
  }

  // The calls that the recursion of `getNextInsts` makes: from each intrinsic instruction
  // to the intrinsic ones among its successors.
  ghost function Recursion(p: Program): (g: G.Adjacency<Loc>)
    requires Valid(p)
    ensures forall at, s :: G.Joined(g, at, s) <==>
      In(p, at) && At(p, at).intrinsic && s in Steps(p, at) && At(p, s).intrinsic
    ensures forall at :: at in g <==> In(p, at) && At(p, at).intrinsic
  {
    map at | at in Insts(p) && At(p, at).intrinsic :: set s | s in Steps(p, at) && At(p, s).intrinsic
  }

  lemma RankedIsRanks(p: Program, rank: map<Loc, nat>)
    requires Valid(p) && Ranked(p, rank)
    ensures G.Ranks(Recursion(p), rank)
  {
    forall at, s | G.Joined(Recursion(p), at, s)
      ensures at in rank && s in rank && rank[s] < rank[at]
    {}
  }

  lemma RanksIsRanked(p: Program, rank: map<Loc, nat>)
    requires Valid(p) && G.Ranks(Recursion(p), rank)
    ensures Drains(p)
  {
    var all := map at | at in Recursion(p) :: if at in rank then rank[at] else 0;
    forall at, s | In(p, at) && At(p, at).intrinsic && s in Steps(p, at) && At(p, s).intrinsic
      ensures all[s] < all[at]
    {
      assert G.Joined(Recursion(p), at, s);
    }
    assert Ranked(p, all);
  }

  // Following intrinsic instructions ends, wherever it starts, exactly when control cannot
  // go round through intrinsic instructions only.
  lemma DrainsIff(p: Program)
    requires Valid(p)
    ensures Drains(p) <==> G.Acyclic(Recursion(p))
    ensures Drains(p) <==> G.AlwaysEnds(Recursion(p))
  {
    if rank :| Ranked(p, rank) { RankedIsRanks(p, rank); }
    if rank :| G.Ranks(Recursion(p), rank) { RanksIsRanked(p, rank); }
    G.RanksIffAcyclic(Recursion(p));
    G.AlwaysEndsIffAcyclic(Recursion(p));
  }

  // A block whose only instruction is an intrinsic invoke that leads back to it.
  function SelfInvoke(): Program {
    Program([Function([Block([Inst(Call(External(None)), true)], [0])], {})], [])
  }

  lemma SelfInvokeNeverEnds(n: nat)
    ensures Valid(SelfInvoke()) && !Drains(SelfInvoke())
    ensures !G.EndsWithin(Recursion(SelfInvoke()), Loc(0, 0, 0), n)
  {
    var p, at := SelfInvoke(), Loc(0, 0, 0);
    assert IsPath(p.funs[0], [0]);
    assert Steps(p, at)[0] == at;
    assert G.Joined(Recursion(p), at, at);
    assert G.Circle(Recursion(p), [at, at]);
    DrainsIff(p);
    G.CircleNeverEnds(Recursion(p), [at, at], n);
  }

  ghost function RankOf(p: Program): (rank: map<Loc, nat>)
    requires Valid(p) && Drains(p)
    ensures Ranked(p, rank)
  {
    var rank :| Ranked(p, rank); rank
  }

  ghost function Height(p: Program, at: Loc): nat
    requires Valid(p) && Drains(p) && In(p, at)
  {
    if At(p, at).intrinsic then RankOf(p)[at] else 0
  }

  function Concat<T(!new)>(parts: seq<seq<T>>): (r: seq<T>)
    ensures forall x :: x in r <==> exists part <- parts :: x in part
  {
    if parts == [] then []
    else
      assert forall part :: part in parts <==> part == parts[0] || part in parts[1..];
      parts[0] + Concat(parts[1..])
  }

  // The instructions control comes to next, intrinsic ones stepped over.
  function NextInsts(p: Program, at: Loc): (r: seq<Loc>)
    requires Valid(p) && Drains(p) && In(p, at)
    ensures forall x <- r :: In(p, x) && !At(p, x).intrinsic && x.fun == at.fun
    decreases !At(p, at).intrinsic, Height(p, at)
  {
    var steps := Steps(p, at);
    var parts := seq(|steps|, k requires 0 <= k < |steps| =>
      if At(p, steps[k]).intrinsic then NextInsts(p, steps[k]) else [steps[k]]);
    Concat(parts)
  }

  // The instructions control comes to on entering at an instruction.
  function Land(p: Program, at: Loc): (r: seq<Loc>)
    requires Valid(p) && Drains(p) && In(p, at)
    ensures forall x <- r :: In(p, x) && !At(p, x).intrinsic && x.fun == at.fun
  {
    if At(p, at).intrinsic then NextInsts(p, at) else [at]
  }

  // A predicate with its own name, so that the solver instantiates it only on request.
  ghost predicate Within(part: seq<Loc>, whole: set<Loc>) {
    forall x <- part :: x in whole
  }

  // Every instruction that follows a member of `done` is in `seen`.
  ghost predicate Closed(p: Program, done: set<Loc>, seen: set<Loc>)
    requires Valid(p) && Drains(p)
  {
    forall at <- done :: In(p, at) && Within(NextInsts(p, at), seen)
  }

  ghost function Parts(p: Program, at: Loc): (parts: seq<seq<Loc>>)
    requires Valid(p) && Drains(p) && In(p, at)
  {
    seq(|Steps(p, at)|, k requires 0 <= k < |Steps(p, at)| => Land(p, Steps(p, at)[k]))
  }

  lemma NextIsConcat(p: Program, at: Loc)
    requires Valid(p) && Drains(p) && In(p, at)
    ensures NextInsts(p, at) == Concat(Parts(p, at))
  {
    var steps := Steps(p, at);
    var parts := seq(|steps|, i requires 0 <= i < |steps| =>
      if At(p, steps[i]).intrinsic then NextInsts(p, steps[i]) else [steps[i]]);
    assert Parts(p, at) == parts;
  }

  lemma NextInBlock(p: Program, at: Loc)
    requires Valid(p) && Drains(p) && In(p, at) && In(p, at.(index := at.index + 1))
    ensures NextInsts(p, at) == Land(p, at.(index := at.index + 1))
    ensures At(p, at).intrinsic && At(p, at.(index := at.index + 1)).intrinsic ==>
      Height(p, at.(index := at.index + 1)) < Height(p, at)
  {
    NextIsConcat(p, at);
    assert at.(index := at.index + 1) in Steps(p, at);
    assert Parts(p, at) == [Land(p, at.(index := at.index + 1))];
  }

  lemma LandsInNext(p: Program, at: Loc, k: nat, x: Loc)
    requires Valid(p) && Drains(p) && In(p, at)
    requires k < |Steps(p, at)| && x in Land(p, Steps(p, at)[k])
    ensures x in NextInsts(p, at)
  {
    NextIsConcat(p, at);
    assert Parts(p, at)[k] in Parts(p, at);
  }

  lemma NextLands(p: Program, at: Loc, x: Loc) returns (s: Loc)
    requires Valid(p) && Drains(p) && In(p, at) && x in NextInsts(p, at)
    ensures s in Steps(p, at) && x in Land(p, s)
  {
    NextIsConcat(p, at);
    var part :| part in Parts(p, at) && x in part;
    var k :| 0 <= k < |Parts(p, at)| && Parts(p, at)[k] == part;
    s := Steps(p, at)[k];
  }

  // `getNextInsts` gives what entering at each immediate successor gives.
  lemma InNextInsts(p: Program, at: Loc, x: Loc)
    requires Valid(p) && Drains(p) && In(p, at)
    ensures x in NextInsts(p, at) <==> exists s <- Steps(p, at) :: x in Land(p, s)
  {
    if x in NextInsts(p, at) {
      var _ := NextLands(p, at, x);
    }
    if s :| s in Steps(p, at) && x in Land(p, s) {
      var k :| 0 <= k < |Steps(p, at)| && Steps(p, at)[k] == s;
      LandsInNext(p, at, k, x);
    }
  }

  function LastOf(p: Program, f: nat, b: nat): (at: Loc)
    requires Valid(p) && f < |p.funs| && b < |p.funs[f].blocks|
    ensures In(p, at)
  {
    assert ValidFunction(p.funs[f], |p.funs|);
    Loc(f, b, |p.funs[f].blocks[b].insts| - 1)
  }

  lemma EntersSuccessor(p: Program, f: nat, b: nat, c: nat)
    requires Valid(p) && f < |p.funs| && b < |p.funs[f].blocks| && c in p.funs[f].blocks[b].succs
    ensures Loc(f, c, 0) in Steps(p, LastOf(p, f, b)) && In(p, Loc(f, c, 0))
  {
    var succs := p.funs[f].blocks[b].succs;
    var k :| 0 <= k < |succs| && succs[k] == c;
    assert Steps(p, LastOf(p, f, b))[k] == Loc(f, c, 0);
  }

  lemma LandsWithin(p: Program, at: Loc, s: Loc, seen: set<Loc>)
    requires Valid(p) && Drains(p) && In(p, at) && s in Steps(p, at)
    requires Within(NextInsts(p, at), seen)
    ensures Within(Land(p, s), seen)
  {
    forall x | x in Land(p, s)
      ensures x in seen
    {
      InNextInsts(p, at, x);
    }
  }

  // Control that enters a block visits all of it, the intrinsic instructions apart.
  lemma {:induction false} BlockIsSeen(p: Program, at: Loc, seen: set<Loc>)
    requires Valid(p) && Drains(p) && In(p, at) && Closed(p, seen, seen)
    requires at.(index := 0) in seen || Within(Land(p, at.(index := 0)), seen)
    ensures !At(p, at).intrinsic ==> at in seen
    ensures Within(NextInsts(p, at), seen)
    decreases at.index
  {
    if at.index > 0 {
      var before := at.(index := at.index - 1);
      BlockIsSeen(p, before, seen);
      assert before.(index := before.index + 1) == at;
      NextInBlock(p, before);
    }
  }

  lemma {:induction false} PathIsSeen(p: Program, f: nat, path: seq<nat>, seen: set<Loc>)
    requires Valid(p) && Drains(p) && f < |p.funs| && Closed(p, seen, seen)
    requires IsPath(p.funs[f], path)
    requires In(p, Loc(f, 0, 0)) && Within(Land(p, Loc(f, 0, 0)), seen)
    ensures In(p, Loc(f, path[|path| - 1], 0)) && Within(Land(p, Loc(f, path[|path| - 1], 0)), seen)
    decreases |path|
  {
    var n := |path|;
    if n > 1 {
      PathIsSeen(p, f, path[..n - 1], seen);
      assert path[..n - 1][n - 2] == path[n - 2];
      BlockIsSeen(p, LastOf(p, f, path[n - 2]), seen);
      EntersSuccessor(p, f, path[n - 2], path[n - 1]);
      LandsWithin(p, LastOf(p, f, path[n - 2]), Loc(f, path[n - 1], 0), seen);
    }
  }

  // From the end of a block control goes on at the beginning of its successors, in their order.
  lemma NextInOrder(p: Program, f: nat, b: nat, x: nat, y: nat)
    requires Valid(p) && Drains(p) && f < |p.funs| && b < |p.funs[f].blocks| && p.funs[f].blocks[b].succs == [x, y]
    ensures In(p, LastOf(p, f, b)) && In(p, Loc(f, x, 0)) && In(p, Loc(f, y, 0))
    ensures NextInsts(p, LastOf(p, f, b)) == Land(p, Loc(f, x, 0)) + Land(p, Loc(f, y, 0))
  {
    var at := LastOf(p, f, b);
    assert Steps(p, at) == [Loc(f, x, 0), Loc(f, y, 0)];
    assert Loc(f, x, 0) in Steps(p, at) && Loc(f, y, 0) in Steps(p, at);
    NextIsConcat(p, at);
    assert Parts(p, at) == [Land(p, Loc(f, x, 0)), Land(p, Loc(f, y, 0))];
    ConcatTwo(Land(p, Loc(f, x, 0)), Land(p, Loc(f, y, 0)));
  }

  lemma ConcatTwo<T(!new)>(a: seq<T>, b: seq<T>)
    ensures Concat([a, b]) == a + b
  {
    assert [a, b][1..] == [b] && [b][1..] == [];
    assert Concat([b]) == b + Concat([]);
  }

  // What the builder visits: every instruction that is not intrinsic, and the first
  // instruction of every unreachable block even when it is.
  predicate Covered(p: Program, at: Loc) {
    && In(p, at)
    && (At(p, at).intrinsic ==> at.index == 0 && at.block in p.funs[at.fun].unreachable)
  }

  // A set that holds where control enters the function and the first instruction of every
  // unreachable block, and is closed under `getNextInsts`, covers the function.
  lemma FunctionIsSeen(p: Program, f: nat, seen: set<Loc>)
    requires Valid(p) && Drains(p) && f < |p.funs| && Closed(p, seen, seen)
    requires In(p, Loc(f, 0, 0)) && Within(Land(p, Loc(f, 0, 0)), seen)
    requires forall b <- p.funs[f].unreachable :: b < |p.funs[f].blocks| ==> Loc(f, b, 0) in seen
    ensures forall at :: Covered(p, at) && at.fun == f ==> at in seen
  {
    forall at | Covered(p, at) && at.fun == f
      ensures at in seen
    {
      var fun := p.funs[f];
      assert UnreachableIsExact(fun);
      if at.block !in fun.unreachable {
        var path :| IsPath(fun, path) && path[|path| - 1] == at.block;
        PathIsSeen(p, f, path, seen);
      }
      BlockIsSeen(p, at, seen);
    }
  }

  // ---------------------------------------------------------------- getNextInsts as it runs

  lemma ConcatOneMore<T(!new)>(parts: seq<seq<T>>, k: nat)
    requires k < |parts|
    ensures Concat(parts[..k + 1]) == Concat(parts[..k]) + parts[k]
  {
    if k > 0 {
      ConcatOneMore(parts[1..], k - 1);
      assert parts[1..][..k] == parts[..k + 1][1..];
      assert parts[1..][..k - 1] == parts[..k][1..];
    }
  }

  // The list after the first `k` successors of a terminator.
  ghost function After(p: Program, at: Loc, k: nat, list: seq<Loc>): seq<Loc>
    requires Valid(p) && Drains(p) && In(p, at) && k <= |Parts(p, at)|
  {
    list + Concat(Parts(p, at)[..k])
  }

  // The step taken by the loop over successors.
  lemma EnterSuccessor(p: Program, at: Loc, k: nat, list: seq<Loc>) returns (next: Loc)
    requires Valid(p) && Drains(p) && In(p, at) && !In(p, at.(index := at.index + 1))
    requires k < |p.funs[at.fun].blocks[at.block].succs|
    ensures next == Loc(at.fun, p.funs[at.fun].blocks[at.block].succs[k], 0) && In(p, next)
    ensures |Parts(p, at)| == |p.funs[at.fun].blocks[at.block].succs|
    ensures After(p, at, k + 1, list) == After(p, at, k, list) + Land(p, next)
    ensures At(p, at).intrinsic && At(p, next).intrinsic ==> Height(p, next) < Height(p, at)
  {
    next := Steps(p, at)[k];
    assert next in Steps(p, at);
    ConcatOneMore(Parts(p, at), k);
  }

  method GetNextInsts(p: Program, at: Loc, list: seq<Loc>) returns (insts: seq<Loc>)
    requires Valid(p) && Drains(p) && In(p, at)
    ensures insts == list + NextInsts(p, at)
    decreases !At(p, at).intrinsic, Height(p, at)
  {
    insts := list;
    var block := p.funs[at.fun].blocks[at.block];
    if at.index + 1 < |block.insts| {
      var next := at.(index := at.index + 1);
      NextInBlock(p, at);
      if At(p, next).intrinsic {
        insts := GetNextInsts(p, next, insts);
      } else {
        insts := insts + [next];
      }
    } else {
      NextIsConcat(p, at);
      for k := 0 to |block.succs|
        invariant insts == After(p, at, k, list)
      {
        ghost var _ := EnterSuccessor(p, at, k, list);
        var next := Loc(at.fun, block.succs[k], 0);
        if At(p, next).intrinsic {
          insts := GetNextInsts(p, next, insts);
        } else {
          insts := insts + [next];
        }
      }
      assert Parts(p, at)[..|block.succs|] == Parts(p, at);
    }
  }

  // ---------------------------------------------------------------- what the builder relies on

  // Following intrinsic instructions ends, enters no function twice at one instruction,
  // and leaves a branch by two ways at most.
  ghost predicate Accepted(p: Program)
    requires Valid(p)
  {
    && Drains(p)
    && (forall f: nat :: f < |p.funs| && In(p, Loc(f, 0, 0)) ==> Distinct(Land(p, Loc(f, 0, 0))))
    && forall at :: In(p, at) && At(p, at).kind.Branch? ==> |NextInsts(p, at)| <= 2
  }

  // No block ends with an intrinsic call, and a branch has two successors at most.
  ghost predicate PlainTerminators(p: Program)
    requires Valid(p)
  {
    && (forall f: nat, b: nat :: f < |p.funs| && b < |p.funs[f].blocks| ==> !At(p, LastOf(p, f, b)).intrinsic)
    && forall at :: In(p, at) && At(p, at).kind.Branch? ==> |Steps(p, at)| <= 2
  }

  lemma PlainDrain(p: Program)
    requires Valid(p) && PlainTerminators(p)
    ensures Drains(p)
  {
    var rank := map at | at in Insts(p) :: |p.funs[at.fun].blocks[at.block].insts| - at.index as nat;
    forall at, s | In(p, at) && At(p, at).intrinsic && s in Steps(p, at) && At(p, s).intrinsic
      ensures rank[s] < rank[at]
    {
      assert at != LastOf(p, at.fun, at.block);
    }
    assert Ranked(p, rank);
  }

  lemma {:induction false} PlainLandsOnce(p: Program, at: Loc)
    requires Valid(p) && PlainTerminators(p) && Drains(p) && In(p, at)
    ensures |Land(p, at)| == 1
    decreases |p.funs[at.fun].blocks[at.block].insts| - at.index
  {
    if At(p, at).intrinsic {
      assert at != LastOf(p, at.fun, at.block);
      NextInBlock(p, at);
      PlainLandsOnce(p, at.(index := at.index + 1));
    }
  }

  lemma ConcatSingles<T(!new)>(parts: seq<seq<T>>)
    requires forall part <- parts :: |part| == 1
    ensures |Concat(parts)| == |parts|
  {}

  lemma PlainSteps(p: Program, at: Loc)
    requires Valid(p) && PlainTerminators(p) && Drains(p) && In(p, at)
    ensures |NextInsts(p, at)| == |Steps(p, at)|
  {
    NextIsConcat(p, at);
    var parts := Parts(p, at);
    forall k | 0 <= k < |parts|
      ensures |parts[k]| == 1
    {
      PlainLandsOnce(p, Steps(p, at)[k]);
    }
    ConcatSingles(parts);
  }

  // When no terminator is an intrinsic call, the builder's assertions cannot fail.
  lemma PlainIsAccepted(p: Program)
    requires Valid(p) && PlainTerminators(p)
    ensures Accepted(p)
  {
    PlainDrain(p);
    forall f: nat | f < |p.funs| && In(p, Loc(f, 0, 0))
      ensures Distinct(Land(p, Loc(f, 0, 0)))
    {
      PlainLandsOnce(p, Loc(f, 0, 0));
    }
    forall at | In(p, at) && At(p, at).kind.Branch?
      ensures |NextInsts(p, at)| <= 2
    {
      PlainSteps(p, at);
    }
  }

  // ---------------------------------------------------------------- programs that the builder does not accept

  lemma EntryReached(f: Function)
    requires |f.blocks| > 0
    ensures Reached(f, 0)
  {
    assert IsPath(f, [0]);
  }

  lemma ReachedNext(f: Function, a: nat, b: nat)
    requires Reached(f, a) && a < |f.blocks| && b in f.blocks[a].succs
    ensures Reached(f, b)
  {
    var path :| IsPath(f, path) && path[|path| - 1] == a;
    assert (path + [b])[..|path|] == path;
    assert IsPath(f, path + [b]) && (path + [b])[|path|] == b;
  }

  // Block 0 leads to 1 and 2, and block 1 to 3 and to the last.
  lemma AllReached(f: Function)
    requires 4 <= |f.blocks| <= 5 && f.unreachable == {}
    requires 1 in f.blocks[0].succs && 2 in f.blocks[0].succs && 3 in f.blocks[1].succs
    requires |f.blocks| == 5 ==> 4 in f.blocks[1].succs
    ensures UnreachableIsExact(f)
  {
    EntryReached(f);
    ReachedNext(f, 0, 1);
    ReachedNext(f, 0, 2);
    ReachedNext(f, 1, 3);
    if |f.blocks| == 5 { ReachedNext(f, 1, 4); }
  }

  // No intrinsic instruction leads to another, except the first of block 0 to that of block 1.
  lemma OneStepDrains(p: Program)
    requires Valid(p)
    requires forall at, s :: In(p, at) && At(p, at).intrinsic && s in Steps(p, at) && At(p, s).intrinsic ==>
      at == Loc(0, 0, 0) && s == Loc(0, 1, 0)
    ensures Drains(p)
  {
    var rank := map at | at in Insts(p) :: if at == Loc(0, 0, 0) then 1 else 0;
    assert Ranked(p, rank);
  }

  // Two intrinsic invokes in a row that unwind to one block.
  function SharedPad(): Program {
    var invoke, last := Inst(Call(External(None)), true), Inst(Return, false);
    Program([Function([Block([invoke], [1, 2]), Block([invoke], [3, 2]),
                       Block([last], []), Block([last], [])], {})], [])
  }

  lemma SharedPadIsValid()
    ensures Valid(SharedPad())
  {
    var f := SharedPad().funs[0];
    assert f.blocks[0].succs[0] == 1 && f.blocks[0].succs[1] == 2 && f.blocks[1].succs[0] == 3;
    AllReached(f);
  }

  lemma SharedPadDrains()
    requires Valid(SharedPad())
    ensures Drains(SharedPad())
  {
    OneStepDrains(SharedPad());
  }

  lemma SharedPadLands()
    ensures Valid(SharedPad()) && Drains(SharedPad())
    ensures Land(SharedPad(), Loc(0, 0, 0)) == [Loc(0, 3, 0), Loc(0, 2, 0), Loc(0, 2, 0)]
  {
    SharedPadIsValid();
    SharedPadDrains();
    NextInOrder(SharedPad(), 0, 0, 1, 2);
    NextInOrder(SharedPad(), 0, 1, 3, 2);
  }

  // Control enters the function at the shared block's instruction by two ways: the source's
  // assertion that an instruction has no node yet fails at the second.
  lemma SharedPadIsMetTwice()
    ensures Valid(SharedPad()) && Drains(SharedPad())
    ensures Land(SharedPad(), Loc(0, 0, 0)) == [Loc(0, 3, 0), Loc(0, 2, 0), Loc(0, 2, 0)]
    ensures !Accepted(SharedPad())
  {
    SharedPadLands();
    var list := Land(SharedPad(), Loc(0, 0, 0));
    assert list[1] == list[2];
    assert !Distinct(list) && In(SharedPad(), Loc(0, 0, 0));
  }

  // A branch to an invoke of an intrinsic.
  function SplitBranch(): Program {
    var invoke, last := Inst(Call(External(None)), true), Inst(Return, false);
    Program([Function([Block([Inst(Branch(true), false)], [1, 2]), Block([invoke], [3, 4]),
                       Block([last], []), Block([last], []), Block([last], [])], {})], [])
  }

  lemma SplitBranchIsValid()
    ensures Valid(SplitBranch())
  {
    var f := SplitBranch().funs[0];
    assert f.blocks[0].succs[0] == 1 && f.blocks[0].succs[1] == 2;
    assert f.blocks[1].succs[0] == 3 && f.blocks[1].succs[1] == 4;
    AllReached(f);
  }

  lemma SplitBranchDrains()
    requires Valid(SplitBranch())
    ensures Drains(SplitBranch())
  {
    OneStepDrains(SplitBranch());
  }

  // The branch has three ways: the source's assertion that it has two at most fails.
  lemma SplitBranchHasThreeWays()
    ensures Valid(SplitBranch()) && Drains(SplitBranch())
    ensures NextInsts(SplitBranch(), Loc(0, 0, 0)) == [Loc(0, 3, 0), Loc(0, 4, 0), Loc(0, 2, 0)]
    ensures !Accepted(SplitBranch())
  {
    var p := SplitBranch();
    SplitBranchIsValid();
    SplitBranchDrains();
    NextInOrder(p, 0, 0, 1, 2);
    NextInOrder(p, 0, 1, 3, 4);
    assert At(p, Loc(0, 0, 0)).kind.Branch?;
  }
}
