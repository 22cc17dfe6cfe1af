/** The worklist that drives the conversions: it ends, and it leaves nothing to convert.

    A predicate that matches on a datatype with one constructor is unfolded by the solver only where
    its parts are needed. */
module BreakConstantsPass {
  import opened ConstantExprs
  import opened BreakConstants

  // ---------------------------------------------------------------- the measure

  /** The number of constant expressions in a constant. */
  ghost function Size(c: Const): nat {
    match c
    case Leaf(_) => 0
    case CE(_, args) => 1 + SizeAll(args)
  }

  ghost function SizeAll(args: seq<Const>): nat {
    if args == [] then 0 else Size(args[0]) + SizeAll(args[1..])
  }

  ghost function Weight(v: Operand): nat {
    if Convertible(v) then Size(v.c) else 0
  }

  ghost function WeightAll(vals: seq<Operand>): nat {
    if vals == [] then 0 else Weight(vals[0]) + WeightAll(vals[1..])
  }

  /** The total size of the convertible operands of a table of instructions. */
  ghost function Total(instrs: seq<Instr>): nat {
    if instrs == [] then 0 else Total(instrs[..|instrs| - 1]) + WeightAll(instrs[|instrs| - 1].vals)
  }

  lemma {:induction false} TotalUpdate(instrs: seq<Instr>, i: nat, x: Instr)
    requires i < |instrs|
    ensures Total(instrs[i := x]) + WeightAll(instrs[i].vals) == Total(instrs) + WeightAll(x.vals)
  {
    var n := |instrs| - 1;
    if i == n {
      assert instrs[i := x][..n] == instrs[..n];
    } else {
      TotalUpdate(instrs[..n], i, x);
      assert instrs[i := x][..n] == instrs[..n][i := x];
    }
  }

  lemma {:induction false} WeightOfKonst(args: seq<Const>)
    ensures WeightAll(KonstArgs(args)) <= SizeAll(args)
  {
    if args != [] {
      WeightOfKonst(args[1..]);
      assert KonstArgs(args)[1..] == KonstArgs(args[1..]);
    }
  }

  /** Replacing convertible operands by registers takes their weight away. */
  lemma {:induction false} WeightDrops(vals: seq<Operand>, vals': seq<Operand>, ce: Const, j: nat)
    requires |vals| == |vals'| && HasConstantExpr(ce)
    requires forall i :: 0 <= i < |vals| ==> vals'[i] == vals[i] || vals'[i].Reg?
    ensures WeightAll(vals') <= WeightAll(vals)
    ensures j < |vals| && vals[j] == Konst(ce) && vals'[j].Reg? ==> WeightAll(vals') + Size(ce) <= WeightAll(vals)
  {
    if vals != [] {
      WeightDrops(vals[1..], vals'[1..], ce, if j > 0 then j - 1 else |vals|);
    }
  }

  /** Every conversion makes the total smaller, the new instruction included. */
  lemma ConversionShrinks(f: Func, id: Id, vals: seq<Operand>, ce: Const, b: nat, k: nat)
    requires Conversion(f, id, vals, ce, b, k)
    ensures Total(Hoisted(f, id, vals, ce, b, k).instrs) < Total(f.instrs)
  {
    var x := f.instrs[id];
    var updated := f.instrs[id := x.(vals := vals)];
    var j :| 0 <= j < |vals| && Hit(x, j, ce, b);
    WeightDrops(x.vals, vals, ce, j);
    TotalUpdate(f.instrs, id, x.(vals := vals));
    var added := Inst(Pure(ce.op), KonstArgs(ce.args), b);
    assert (updated + [added])[..|updated|] == updated;
    WeightOfKonst(ce.args);
  }

  // ---------------------------------------------------------------- the worklist

  /** Nothing to convert in the operands up to i. */
  ghost predicate NormalTo(vals: seq<Operand>, i: nat) {
    forall k :: 0 <= k < i && k < |vals| ==> !Convertible(vals[k])
  }

  ghost predicate Normal(x: Instr) {
    NormalTo(x.vals, |x.vals|)
  }

  /** Every instruction that still has something to convert is on the worklist, or is cur. */
  ghost predicate Listed(f: Func, list: seq<Id>, cur: Id) {
    match f
    case Func(_, instrs) =>
      && (forall i :: 0 <= i < |list| ==> list[i] < |instrs|)
      && forall id :: 0 <= id < |instrs| && !Normal(instrs[id]) ==> id in list || id == cur
  }

  lemma ListedAfter(f: Func, list: seq<Id>, cur: Id, vals: seq<Operand>, ce: Const, b: nat, k: nat)
    requires Conversion(f, cur, vals, ce, b, k) && Listed(f, list, cur)
    ensures Listed(Hoisted(f, cur, vals, ce, b, k), list + [|f.instrs|], cur)
  {
    var g := Hoisted(f, cur, vals, ce, b, k);
    forall id | 0 <= id < |g.instrs| && !Normal(g.instrs[id]) && id != cur
      ensures id in list + [|f.instrs|]
    {
      if id < |f.instrs| { assert g.instrs[id] == f.instrs[id]; }
    }
  }

  lemma ListedPop(f: Func, list: seq<Id>)
    requires list != [] && Listed(f, list, |f.instrs|)
    ensures list[|list| - 1] < |f.instrs| && Listed(f, list[..|list| - 1], list[|list| - 1])
  {
    assert list == list[..|list| - 1] + [list[|list| - 1]];
  }

  lemma ListedDone(f: Func, list: seq<Id>, cur: Id)
    requires cur < |f.instrs| && Normal(f.instrs[cur]) && Listed(f, list, cur)
    ensures Listed(f, list, |f.instrs|)
  {
  }

  method IndexOf(s: seq<Id>, x: Id) returns (k: nat)
    requires x in s
    ensures k < |s| && s[k] == x
  {
    k := 0;
    while s[k] != x
      invariant k < |s| && x in s[k..]
      decreases |s| - k
    {
      assert s[k..] == [s[k]] + s[k + 1..];
      k := k + 1;
    }
  }

  ghost predicate Kept(f: Func, id: Id, g: Func) {
    id < |f.instrs| <= |g.instrs| && |g.instrs[id].vals| == |f.instrs[id].vals| && |g.blocks| == |f.blocks|
  }

  /** Convert the entry at index of a phi: the new instruction goes before the terminator of the
      entry's block, and all later entries of that block use it. */
  method ConvertEntry(f: Func, id: Id, index: nat) returns (g: Func)
    requires Valid(f) && id < |f.instrs| && f.instrs[id].PhiNode?
    requires index < |f.instrs[id].vals| && Convertible(f.instrs[id].vals[index]) && NormalTo(f.instrs[id].vals, index)
    ensures Converts(f, id, g) && Kept(f, id, g) && NormalTo(g.instrs[id].vals, index + 1)
  {
    assert ValidInstr(f, id);
    var x := f.instrs[id];
    var expr, block := x.vals[index].c, x.blocks[index];
    var pos := |f.blocks[block].body| - 1;
    assert ValidBlock(f, block);
    var vs := seq(|x.vals|, i requires 0 <= i < |x.vals| =>
      if index <= i && x.blocks[i] == block then Reg(|f.instrs|) else x.vals[i]);
    g := Hoisted(f, id, vs, expr, block, pos);
    assert Hit(x, index, expr, block);
    assert Conversion(f, id, vs, expr, block, pos);
  }

  /** Convert the operand at index of any other instruction: the new one goes right before it, and
      all its operands that are this expression use it. */
  method ConvertOperand(f: Func, id: Id, index: nat) returns (g: Func)
    requires Valid(f) && id < |f.instrs| && f.instrs[id].Inst?
    requires index < |f.instrs[id].vals| && Convertible(f.instrs[id].vals[index]) && NormalTo(f.instrs[id].vals, index)
    ensures Converts(f, id, g) && Kept(f, id, g) && NormalTo(g.instrs[id].vals, index + 1)
  {
    assert ValidInstr(f, id);
    var x := f.instrs[id];
    var expr, block := x.vals[index].c, x.parent;
    var pos := IndexOf(f.blocks[block].body, id);
    var vs := seq(|x.vals|, i requires 0 <= i < |x.vals| =>
      if x.vals[i] == Konst(expr) then Reg(|f.instrs|) else x.vals[i]);
    g := Hoisted(f, id, vs, expr, block, pos);
    assert Hit(x, index, expr, block);
    assert Conversion(f, id, vs, expr, block, pos);
  }

  /** What every conversion keeps. */
  lemma Converted(f0: Func, f: Func, id: Id, g: Func, list: seq<Id>)
    requires Valid(f) && Derives(f0, f) && Listed(f, list, id) && Converts(f, id, g)
    ensures Valid(g) && Derives(f0, g) && Listed(g, list + [|f.instrs|], id) && Total(g.instrs) < Total(f.instrs)
  {
    var vals, ce, b, k :| Conversion(f, id, vals, ce, b, k) && g == Hoisted(f, id, vals, ce, b, k);
    ConversionShrinks(f, id, vals, ce, b, k);
    HoistedValid(f, id, vals, ce, b, k);
    ListedAfter(f, list, id, vals, ce, b, k);
    DerivesThen(f0, f, g);
  }

  /** Convert the operand at index if it needs to be. */
  method ConvertAt(ghost f0: Func, f: Func, id: Id, list: seq<Id>, index: nat) returns (g: Func, list': seq<Id>)
    requires Valid(f) && id < |f.instrs| && Derives(f0, f) && Listed(f, list, id)
    requires index < |f.instrs[id].vals| && NormalTo(f.instrs[id].vals, index)
    ensures Valid(g) && Derives(f0, g) && Listed(g, list', id)
    ensures Kept(f, id, g) && NormalTo(g.instrs[id].vals, index + 1)
    ensures Total(g.instrs) < Total(f.instrs) || (g == f && list' == list)
  {
    g, list' := f, list;
    if Convertible(f.instrs[id].vals[index]) {
      if f.instrs[id].PhiNode? {
        g := ConvertEntry(f, id, index);
      } else {
        g := ConvertOperand(f, id, index);
      }
      Converted(f0, f, id, g, list);
      list' := list + [|f.instrs|];
    }
  }

  /** Convert all operands of one instruction. */
  method ConvertAll(ghost f0: Func, f: Func, id: Id, list: seq<Id>) returns (g: Func, list': seq<Id>)
    requires Valid(f) && id < |f.instrs| && Derives(f0, f) && Listed(f, list, id)
    ensures Valid(g) && Derives(f0, g) && Listed(g, list', id) && id < |g.instrs| && Normal(g.instrs[id])
    ensures Total(g.instrs) < Total(f.instrs) || (g == f && list' == list)
    ensures |g.blocks| == |f.blocks|
  {
    g, list' := f, list;
    for index := 0 to |f.instrs[id].vals|
      invariant Valid(g) && Derives(f0, g) && Listed(g, list', id)
      invariant |g.blocks| == |f.blocks|
      invariant id < |g.instrs| && |g.instrs[id].vals| == |f.instrs[id].vals| && NormalTo(g.instrs[id].vals, index)
      invariant Total(g.instrs) < Total(f.instrs) || (g == f && list' == list)
    {
      g, list' := ConvertAt(f0, g, id, list', index);
    }
  }

  /** Run the pass on one function.  What it makes of the function has the same meaning, and no
      operand in it, of an old or a new instruction, can be converted any more. */
  method RunOnFunction(f: Func) returns (g: Func, modified: bool)
    requires Valid(f)
    ensures Valid(g) && Derives(f, g) && |g.blocks| == |f.blocks|
    ensures forall id :: 0 <= id < |g.instrs| ==> Normal(g.instrs[id])
    ensures modified <==> exists id :: 0 <= id < |f.instrs| && !Normal(f.instrs[id])
    ensures !modified ==> g == f
  {
    var list := Collect(f);
    modified := list != [];
    g := f;
    DerivesSelf(f);
    while list != []
      invariant Valid(g) && Derives(f, g) && Listed(g, list, |g.instrs|) && |g.blocks| == |f.blocks|
      invariant !modified ==> g == f && list == []
      decreases Total(g.instrs), |list|
    {
      var id := list[|list| - 1];
      var rest := list[..|list| - 1];
      ListedPop(g, list);
      g, list := ConvertAll(f, g, id, rest);
      ListedDone(g, list, id);
    }
  }

  /** The instructions with something to convert, once for each such operand, block by block. */
  method Collect(f: Func) returns (list: seq<Id>)
    requires Valid(f)
    ensures Listed(f, list, |f.instrs|)
    ensures forall i :: 0 <= i < |list| ==> !Normal(f.instrs[list[i]])
  {
    list := [];
    for b := 0 to |f.blocks|
      invariant OnlyConvertible(f, list)
      invariant forall c, x ::
        0 <= c < b && x in f.blocks[c].phis + f.blocks[c].body && x < |f.instrs| && !Normal(f.instrs[x]) ==> x in list
    {
      assert ValidBlock(f, b);
      list := CollectIds(f, list, f.blocks[b].phis + f.blocks[b].body);
    }
    forall x | 0 <= x < |f.instrs| && !Normal(f.instrs[x])
      ensures x in list
    {
      assert ValidInstr(f, x);
      var c := f.instrs[x].parent;
      assert x in f.blocks[c].phis + f.blocks[c].body;
    }
  }

  ghost predicate OnlyConvertible(f: Func, list: seq<Id>) {
    forall i :: 0 <= i < |list| ==> list[i] < |f.instrs| && !Normal(f.instrs[list[i]])
  }

  method CollectIds(f: Func, list0: seq<Id>, ids: seq<Id>) returns (list: seq<Id>)
    requires OnlyConvertible(f, list0) && forall i :: 0 <= i < |ids| ==> ids[i] < |f.instrs|
    ensures OnlyConvertible(f, list) && list0 <= list
    ensures forall x :: x in ids && !Normal(f.instrs[x]) ==> x in list
  {
    list := list0;
    for i := 0 to |ids|
      invariant OnlyConvertible(f, list) && list0 <= list
      invariant forall k :: 0 <= k < i && !Normal(f.instrs[ids[k]]) ==> ids[k] in list
    {
      ghost var before := list;
      var vals := f.instrs[ids[i]].vals;
      for index := 0 to |vals|
        invariant before <= list && OnlyConvertible(f, list)
        invariant !NormalTo(vals, index) ==> ids[i] in list
      {
        if Convertible(vals[index]) {
          list := list + [ids[i]];
        }
      }
    }
  }

  // ---------------------------------------------------------------- the module

  class Module {
    var functions: seq<Func>

    constructor (fs: seq<Func>)
      ensures functions == fs
    {
      functions := fs;
    }

    /** Run the pass on every function of the module. */
    method RunOnModule() returns (modified: bool)
      requires forall i :: 0 <= i < |functions| ==> Valid(functions[i])
      modifies this
      ensures |functions| == |old(functions)|
      ensures forall i :: 0 <= i < |functions| ==> Valid(functions[i]) && Derives(old(functions)[i], functions[i])
      ensures forall i, id :: 0 <= i < |functions| && 0 <= id < |functions[i].instrs| ==>
                Normal(functions[i].instrs[id])
      ensures modified <==> exists i, id :: 0 <= i < |old(functions)| && 0 <= id < |old(functions)[i].instrs|
                                            && !Normal(old(functions)[i].instrs[id])
    {
      modified := false;
      for i := 0 to |functions|
        invariant |functions| == |old(functions)|
        invariant forall k :: i <= k < |functions| ==> functions[k] == old(functions)[k]
        invariant forall k :: 0 <= k < i ==> Valid(functions[k]) && Derives(old(functions)[k], functions[k])
        invariant forall k, id :: 0 <= k < i && 0 <= id < |functions[k].instrs| ==> Normal(functions[k].instrs[id])
        invariant modified <==> exists k, id :: 0 <= k < i && 0 <= id < |old(functions)[k].instrs|
                                                && !Normal(old(functions)[k].instrs[id])
      {
        var g, m := RunOnFunction(functions[i]);
        functions := functions[i := g];
        modified := modified || m;
      }
    }
  }
}
