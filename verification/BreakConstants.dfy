/** The pass that turns constant expressions nested in operands into instructions.

    A predicate that matches on a datatype with one constructor is unfolded by the solver only where
    its parts are needed. */
module BreakConstants {
  import opened Collections
  import opened ConstantExprs

  // ---------------------------------------------------------------- one conversion

  function KonstArgs(args: seq<Const>): (r: seq<Operand>)
    ensures |r| == |args| && forall i :: 0 <= i < |args| ==> r[i] == Konst(args[i])
  {
    seq(|args|, i requires 0 <= i < |args| => Konst(args[i]))
  }

  function Inserted(body: seq<Id>, k: nat, n: Id): seq<Id>
    requires k <= |body|
  {
    body[..k] + [n] + body[k..]
  }

  /** The function after the expression was made instruction n at position k of block b and the
      operands of the instruction id were replaced. */
  function Hoisted(f: Func, id: Id, vals: seq<Operand>, ce: Const, b: nat, k: nat): Func
    requires id < |f.instrs| && ce.CE? && b < |f.blocks| && k <= |f.blocks[b].body|
  {
    var n := |f.instrs|;
    Func(f.blocks[b := f.blocks[b].(body := Inserted(f.blocks[b].body, k, n))],
         f.instrs[id := f.instrs[id].(vals := vals)] + [Inst(Pure(ce.op), KonstArgs(ce.args), b)])
  }

  /** The operands that a conversion replaces: for a phi the entries of one block, otherwise every use
      of the expression. */
  predicate Hit(x: Instr, i: nat, ce: Const, b: nat)
    requires i < |x.vals| && (x.PhiNode? ==> |x.blocks| == |x.vals|)
  {
    match x
    case PhiNode(blocks, _, _) => blocks[i] == b
    case Inst(_, vals, _) => vals[i] == Konst(ce)
  }

  ghost predicate Conversion(f: Func, id: Id, vals: seq<Operand>, ce: Const, b: nat, k: nat) {
    match f
    case Func(blocks, instrs) =>
      && id < |instrs| && b < |blocks| && k < |blocks[b].body|
      && var x := instrs[id];
      && (x.PhiNode? ==> |x.blocks| == |x.vals| && k == |blocks[b].body| - 1)
      && (x.Inst? ==> x.parent == b && blocks[b].body[k] == id)
      && ce.CE? && HasConstantExpr(ce)
      && |vals| == |x.vals|
      && (forall i :: 0 <= i < |vals| ==> vals[i] == if Hit(x, i, ce, b) then Reg(|instrs|) else x.vals[i])
      && (forall i :: 0 <= i < |vals| && Hit(x, i, ce, b) ==> x.vals[i] == Konst(ce))
      && exists i :: 0 <= i < |vals| && Hit(x, i, ce, b)
  }

  /** g is f with one expression in the operands of id converted. */
  ghost predicate Converts(f: Func, id: Id, g: Func) {
    match f
    case Func(_, _) => exists vals, ce, b, k :: Conversion(f, id, vals, ce, b, k) && g == Hoisted(f, id, vals, ce, b, k)
  }

  ghost predicate Step(f: Func, g: Func) {
    exists id :: Converts(f, id, g)
  }

  ghost predicate Link(fs: seq<Func>, i: nat)
    requires i + 1 < |fs|
  {
    Valid(fs[i]) && Step(fs[i], fs[i + 1])
  }

  /** A function, converted one expression at a time. */
  ghost predicate Derivation(fs: seq<Func>) {
    |fs| > 0 && forall i :: 0 <= i < |fs| - 1 ==> Link(fs, i)
  }

  ghost predicate Derives(f: Func, g: Func) {
    match f
    case Func(_, _) => exists fs :: Derivation(fs) && fs[0] == f && fs[|fs| - 1] == g
  }

  lemma DerivesSelf(f: Func)
    ensures Derives(f, f)
  {
    assert Derivation([f]);
  }

  lemma DerivesThen(f: Func, g: Func, h: Func)
    requires Derives(f, g) && Valid(g) && Step(g, h)
    ensures Derives(f, h)
  {
    var fs :| Derivation(fs) && fs[0] == f && fs[|fs| - 1] == g;
    var hs := fs + [h];
    forall i | 0 <= i < |hs| - 1
      ensures Link(hs, i)
    {
      assert hs[i] == fs[i];
      if i < |fs| - 1 { assert Link(fs, i); }
    }
    assert Derivation(hs) && hs[0] == f && hs[|hs| - 1] == h;
  }

  // ---------------------------------------------------------------- a conversion keeps validity

  lemma InsertedAt(body: seq<Id>, k: nat, n: Id)
    requires k <= |body|
    ensures |Inserted(body, k, n)| == |body| + 1
    ensures forall i :: 0 <= i <= |body| ==>
              Inserted(body, k, n)[i] == if i < k then body[i] else if i == k then n else body[i - 1]
    ensures forall x :: x in Inserted(body, k, n) <==> x == n || x in body
    ensures Distinct(body) && n !in body ==> Distinct(Inserted(body, k, n))
  {
    var r := Inserted(body, k, n);
    forall x | x in body
      ensures x in r
    {
      var i :| 0 <= i < |body| && body[i] == x;
      assert r[if i < k then i else i + 1] == x;
    }
    assert r[k] == n;
  }

  lemma HoistedBlockValid(f: Func, id: Id, vals: seq<Operand>, ce: Const, b: nat, k: nat, c: nat)
    requires Valid(f) && Conversion(f, id, vals, ce, b, k) && c < |f.blocks|
    ensures ValidBlock(Hoisted(f, id, vals, ce, b, k), c)
  {
    var g := Hoisted(f, id, vals, ce, b, k);
    assert ValidBlock(f, c);
    InsertedAt(f.blocks[b].body, k, |f.instrs|);
    if c == b {
      forall i | 0 <= i < |g.blocks[b].body|
        ensures var x := g.blocks[b].body[i]; x < |g.instrs| && g.instrs[x].Inst? && g.instrs[x].parent == b
      {
      }
    }
  }

  lemma HoistedInstrValid(f: Func, id: Id, vals: seq<Operand>, ce: Const, b: nat, k: nat, x: Id)
    requires Valid(f) && Conversion(f, id, vals, ce, b, k) && x <= |f.instrs|
    ensures ValidInstr(Hoisted(f, id, vals, ce, b, k), x)
  {
    InsertedAt(f.blocks[b].body, k, |f.instrs|);
    if x < |f.instrs| {
      assert ValidInstr(f, x);
    }
  }

  lemma HoistedValid(f: Func, id: Id, vals: seq<Operand>, ce: Const, b: nat, k: nat)
    requires Valid(f) && Conversion(f, id, vals, ce, b, k)
    ensures Valid(Hoisted(f, id, vals, ce, b, k))
  {
    var g := Hoisted(f, id, vals, ce, b, k);
    forall c | 0 <= c < |g.blocks| ensures ValidBlock(g, c) { HoistedBlockValid(f, id, vals, ce, b, k, c); }
    forall x | 0 <= x < |g.instrs| ensures ValidInstr(g, x) { HoistedInstrValid(f, id, vals, ce, b, k, x); }
  }

  // ---------------------------------------------------------------- a conversion keeps the meaning

  lemma BelowRecord<V, W>(s: State<V, W>, id: Id, vals: seq<V>, result: V, world: W, n: nat)
    ensures id < n ==> Below(Record(s, id, vals, result, world), n) == Record(Below(s, n), id, vals, result, world)
    ensures id >= n && world == s.world ==> Below(Record(s, id, vals, result, world), n) == Below(s, n)
  {
    var e := Event(id, vals, result);
    assert (s.log + [e])[..|s.log|] == s.log;
  }

  lemma BelowVals<V, W>(m: Machine<V, W>, s: State<V, W>, t: State<V, W>, n: nat, vals: seq<Operand>)
    requires Below(s, n) == Below(t, n)
    requires forall i :: 0 <= i < |vals| && vals[i].Reg? ==> vals[i].id < n
    ensures Vals(m, s.env, vals) == Vals(m, t.env, vals)
  {
    forall i | 0 <= i < |vals|
      ensures Val(m, s.env, vals[i]) == Val(m, t.env, vals[i])
    {
      BelowVal(m, s, t, n, vals[i]);
    }
  }

  lemma BelowVal<V, W>(m: Machine<V, W>, s: State<V, W>, t: State<V, W>, n: nat, v: Operand)
    requires Below(s, n) == Below(t, n)
    requires v.Reg? ==> v.id < n
    ensures Val(m, s.env, v) == Val(m, t.env, v)
  {
    if v.Reg? {
      assert v.id in s.env <==> v.id in Below(s, n).env;
      assert v.id in t.env <==> v.id in Below(t, n).env;
      assert v.id in s.env ==> s.env[v.id] == Below(s, n).env[v.id] == t.env[v.id];
    }
  }

  /** Executing an instruction that both functions hold, from states that look the same. */
  lemma SameExec<V, W>(m: Machine<V, W>, f: Func, g: Func, id: Id, s: State<V, W>, t: State<V, W>)
    requires var n := |f.instrs|; Below(s, n) == Below(t, n)
    requires id < |f.instrs| <= |g.instrs| && g.instrs[id] == f.instrs[id] && f.instrs[id].Inst?
    requires ClosedVals(f, f.instrs[id].vals)
    ensures Below(Exec(m, g, id, t), |f.instrs|) == Below(Exec(m, f, id, s), |f.instrs|)
    ensures forall n :: n >= |f.instrs| && n in t.env ==>
              n in Exec(m, g, id, t).env && Exec(m, g, id, t).env[n] == t.env[n]
  {
    var n := |f.instrs|;
    var x := f.instrs[id];
    BelowVals(m, s, t, n, x.vals);
    var vals := Vals(m, s.env, x.vals);
    match x.op
    case Pure(op) =>
      BelowRecord(s, id, vals, m.fold(op, vals), s.world, n);
      BelowRecord(t, id, vals, m.fold(op, vals), t.world, n);
      assert s.world == Below(s, n).world == t.world;
    case Tagged(tag) =>
      assert s.world == Below(s, n).world == t.world;
      var r := m.effect(tag, vals, s.world);
      BelowRecord(s, id, vals, r.0, r.1, n);
      BelowRecord(t, id, vals, r.0, r.1, n);
  }

  lemma {:induction false} RunBodyAppend<V, W>(m: Machine<V, W>, f: Func, a: seq<Id>, c: seq<Id>, s: State<V, W>)
    ensures RunBody(m, f, a + c, s) == RunBody(m, f, c, RunBody(m, f, a, s))
  {
    if c == [] {
      assert a + c == a;
    } else {
      assert (a + c)[..|a + c| - 1] == a + c[..|c| - 1];
      RunBodyAppend(m, f, a, c[..|c| - 1], s);
    }
  }

  /** A stretch of instructions that both functions hold. */
  lemma {:induction false} SameBody<V, W>(m: Machine<V, W>, f: Func, g: Func, body: seq<Id>,
                                          s: State<V, W>, t: State<V, W>)
    requires Below(s, |f.instrs|) == Below(t, |f.instrs|) && |f.instrs| <= |g.instrs|
    requires forall i :: 0 <= i < |body| ==>
      body[i] < |f.instrs| && g.instrs[body[i]] == f.instrs[body[i]] && f.instrs[body[i]].Inst?
      && ClosedVals(f, f.instrs[body[i]].vals)
    ensures Below(RunBody(m, g, body, t), |f.instrs|) == Below(RunBody(m, f, body, s), |f.instrs|)
    ensures forall n :: n >= |f.instrs| && n in t.env ==>
      n in RunBody(m, g, body, t).env && RunBody(m, g, body, t).env[n] == t.env[n]
  {
    if body != [] {
      var rest := body[..|body| - 1];
      SameBody(m, f, g, rest, s, t);
      SameExec(m, f, g, body[|body| - 1], RunBody(m, f, rest, s), RunBody(m, g, rest, t));
    }
  }

  /** The new instruction computes the value of the expression and shows nothing else. */
  lemma ExecHoisted<V, W>(m: Machine<V, W>, f: Func, id: Id, vals: seq<Operand>, ce: Const, b: nat, k: nat,
                          t: State<V, W>)
    requires Conversion(f, id, vals, ce, b, k)
    ensures var g, n := Hoisted(f, id, vals, ce, b, k), |f.instrs|;
      var u := Exec(m, g, n, t);
      Below(u, n) == Below(t, n) && n in u.env && u.env[n] == ConstVal(m, ce)
  {
    var g, n := Hoisted(f, id, vals, ce, b, k), |f.instrs|;
    var vs := Vals(m, t.env, KonstArgs(ce.args));
    assert vs == seq(|ce.args|, i requires 0 <= i < |ce.args| => ConstVal(m, ce.args[i]));
    BelowRecord(t, n, vs, m.fold(ce.op, vs), t.world, n);
  }

  /** The instruction whose operands were replaced computes what it did. */
  lemma ExecReplaced<V, W>(m: Machine<V, W>, f: Func, id: Id, vals: seq<Operand>, ce: Const, b: nat, k: nat,
                           s: State<V, W>, t: State<V, W>)
    requires Valid(f) && Conversion(f, id, vals, ce, b, k) && f.instrs[id].Inst?
    requires var n := |f.instrs|; Below(s, n) == Below(t, n) && n in t.env && t.env[n] == ConstVal(m, ce)
    ensures var g, n := Hoisted(f, id, vals, ce, b, k), |f.instrs|;
      var u := Exec(m, g, id, t);
      Below(u, n) == Below(Exec(m, f, id, s), n) && n in u.env && u.env[n] == ConstVal(m, ce)
  {
    var g, n := Hoisted(f, id, vals, ce, b, k), |f.instrs|;
    var x := f.instrs[id];
    assert ValidInstr(f, id);
    forall i | 0 <= i < |vals|
      ensures Val(m, t.env, vals[i]) == Val(m, s.env, x.vals[i])
    {
      if !Hit(x, i, ce, b) { BelowVal(m, s, t, n, x.vals[i]); }
    }
    var vs := Vals(m, s.env, x.vals);
    assert Vals(m, t.env, vals) == vs;
    assert s.world == Below(s, n).world == t.world;
    match x.op
    case Pure(op) =>
      BelowRecord(s, id, vs, m.fold(op, vs), s.world, n);
      BelowRecord(t, id, vs, m.fold(op, vs), t.world, n);
    case Tagged(tag) =>
      var r := m.effect(tag, vs, s.world);
      BelowRecord(s, id, vs, r.0, r.1, n);
      BelowRecord(t, id, vs, r.0, r.1, n);
  }

  /** The rest of the block after the new instruction. */
  lemma HoistedTail<V, W>(m: Machine<V, W>, f: Func, id: Id, vals: seq<Operand>, ce: Const, b: nat, k: nat,
                          s: State<V, W>, t: State<V, W>)
    requires Valid(f) && Conversion(f, id, vals, ce, b, k)
    requires var n := |f.instrs|; Below(s, n) == Below(t, n) && n in t.env && t.env[n] == ConstVal(m, ce)
    ensures var g, n := Hoisted(f, id, vals, ce, b, k), |f.instrs|;
      var u := RunBody(m, g, f.blocks[b].body[k..], t);
      Below(u, n) == Below(RunBody(m, f, f.blocks[b].body[k..], s), n) && n in u.env && u.env[n] == ConstVal(m, ce)
  {
    var g, body := Hoisted(f, id, vals, ce, b, k), f.blocks[b].body;
    assert ValidBlock(f, b);
    assert forall i :: 0 <= i < |body| ==> ValidInstr(f, body[i]);
    if f.instrs[id].PhiNode? {
      SameBody(m, f, g, body[k..], s, t);
    } else {
      HoistedTailInst(m, f, id, vals, ce, b, k, s, t);
    }
  }

  /** The same when the instruction after the new one is the one whose operand it holds. */
  lemma HoistedTailInst<V, W>(m: Machine<V, W>, f: Func, id: Id, vals: seq<Operand>, ce: Const, b: nat, k: nat,
                              s: State<V, W>, t: State<V, W>)
    requires Valid(f) && Conversion(f, id, vals, ce, b, k) && f.instrs[id].Inst?
    requires var n := |f.instrs|; Below(s, n) == Below(t, n) && n in t.env && t.env[n] == ConstVal(m, ce)
    ensures var g, n := Hoisted(f, id, vals, ce, b, k), |f.instrs|;
      var u := RunBody(m, g, f.blocks[b].body[k..], t);
      Below(u, n) == Below(RunBody(m, f, f.blocks[b].body[k..], s), n) && n in u.env && u.env[n] == ConstVal(m, ce)
  {
    var g, body := Hoisted(f, id, vals, ce, b, k), f.blocks[b].body;
    assert body[k..] == [id] + body[k + 1..];
    TailKept(f, id, vals, ce, b, k);
    ExecReplaced(m, f, id, vals, ce, b, k, s, t);
    RunFirst(m, g, id, body[k + 1..], t);
    RunFirst(m, f, id, body[k + 1..], s);
    SameBody(m, f, g, body[k + 1..], Exec(m, f, id, s), Exec(m, g, id, t));
  }

  /** The instructions after the one whose operand is replaced are as they were. */
  lemma TailKept(f: Func, id: Id, vals: seq<Operand>, ce: Const, b: nat, k: nat)
    requires Valid(f) && Conversion(f, id, vals, ce, b, k) && f.instrs[id].Inst?
    ensures var g, rest := Hoisted(f, id, vals, ce, b, k), f.blocks[b].body[k + 1..];
      forall i :: 0 <= i < |rest| ==>
        rest[i] < |f.instrs| && g.instrs[rest[i]] == f.instrs[rest[i]] && f.instrs[rest[i]].Inst?
        && ClosedVals(f, f.instrs[rest[i]].vals)
  {
    var body := f.blocks[b].body;
    assert ValidBlock(f, b);
    assert forall i :: 0 <= i < |body| ==> ValidInstr(f, body[i]);
  }

  lemma RunFirst<V, W>(m: Machine<V, W>, f: Func, id: Id, rest: seq<Id>, s: State<V, W>)
    ensures RunBody(m, f, [id] + rest, s) == RunBody(m, f, rest, Exec(m, f, id, s))
  {
    RunBodyAppend(m, f, [id], rest, s);
    RunOne(m, f, id, s);
  }

  lemma RunOne<V, W>(m: Machine<V, W>, f: Func, id: Id, s: State<V, W>)
    ensures RunBody(m, f, [id], s) == Exec(m, f, id, s)
  {
    assert [id][..0] == [];
  }

  lemma RunInserted<V, W>(m: Machine<V, W>, f: Func, body: seq<Id>, k: nat, n: Id, s: State<V, W>)
    requires k <= |body|
    ensures RunBody(m, f, Inserted(body, k, n), s)
         == RunBody(m, f, body[k..], Exec(m, f, n, RunBody(m, f, body[..k], s)))
  {
    RunBodyAppend(m, f, body[..k] + [n], body[k..], s);
    RunBodyAppend(m, f, body[..k], [n], s);
    RunOne(m, f, n, RunBody(m, f, body[..k], s));
  }

  /** The block that the new instruction was inserted into. */
  lemma HoistedBody<V, W>(m: Machine<V, W>, f: Func, id: Id, vals: seq<Operand>, ce: Const, b: nat, k: nat,
                          s: State<V, W>, t: State<V, W>)
    requires Valid(f) && Conversion(f, id, vals, ce, b, k) && Below(s, |f.instrs|) == Below(t, |f.instrs|)
    ensures var g, n := Hoisted(f, id, vals, ce, b, k), |f.instrs|;
      var u := RunBody(m, g, g.blocks[b].body, t);
      Below(u, n) == Below(RunBody(m, f, f.blocks[b].body, s), n) && n in u.env && u.env[n] == ConstVal(m, ce)
  {
    var g, n, body := Hoisted(f, id, vals, ce, b, k), |f.instrs|, f.blocks[b].body;
    var s1, t1 := RunBody(m, f, body[..k], s), RunBody(m, g, body[..k], t);
    HoistedUpTo(m, f, id, vals, ce, b, k, s, t);
    RunInserted(m, g, body, k, n, t);
    RunSplit(m, f, body, k, s);
    HoistedTail(m, f, id, vals, ce, b, k, s1, Exec(m, g, n, t1));
  }

  lemma RunSplit<V, W>(m: Machine<V, W>, f: Func, body: seq<Id>, k: nat, s: State<V, W>)
    requires k <= |body|
    ensures RunBody(m, f, body, s) == RunBody(m, f, body[k..], RunBody(m, f, body[..k], s))
  {
    assert body == body[..k] + body[k..];
    RunBodyAppend(m, f, body[..k], body[k..], s);
  }

  /** Up to the new instruction, itself included. */
  lemma HoistedUpTo<V, W>(m: Machine<V, W>, f: Func, id: Id, vals: seq<Operand>, ce: Const, b: nat, k: nat,
                          s: State<V, W>, t: State<V, W>)
    requires Valid(f) && Conversion(f, id, vals, ce, b, k) && Below(s, |f.instrs|) == Below(t, |f.instrs|)
    ensures var g, n, head := Hoisted(f, id, vals, ce, b, k), |f.instrs|, f.blocks[b].body[..k];
      var u := Exec(m, g, n, RunBody(m, g, head, t));
      Below(u, n) == Below(RunBody(m, f, head, s), n) && n in u.env && u.env[n] == ConstVal(m, ce)
  {
    HoistedHead(m, f, id, vals, ce, b, k, s, t);
    ExecHoisted(m, f, id, vals, ce, b, k, RunBody(m, Hoisted(f, id, vals, ce, b, k), f.blocks[b].body[..k], t));
  }

  lemma HoistedHead<V, W>(m: Machine<V, W>, f: Func, id: Id, vals: seq<Operand>, ce: Const, b: nat, k: nat,
                          s: State<V, W>, t: State<V, W>)
    requires Valid(f) && Conversion(f, id, vals, ce, b, k) && Below(s, |f.instrs|) == Below(t, |f.instrs|)
    ensures Below(RunBody(m, Hoisted(f, id, vals, ce, b, k), f.blocks[b].body[..k], t), |f.instrs|)
         == Below(RunBody(m, f, f.blocks[b].body[..k], s), |f.instrs|)
  {
    var body := f.blocks[b].body;
    assert ValidBlock(f, b);
    assert forall i :: 0 <= i < |body| ==> ValidInstr(f, body[i]);
    SameBody(m, f, Hoisted(f, id, vals, ce, b, k), body[..k], s, t);
  }

  /** Any block: afterwards the states look the same, and if it was the one inserted into, the new
      instruction has its value. */
  lemma StepBody<V, W>(m: Machine<V, W>, f: Func, id: Id, vals: seq<Operand>, ce: Const, b: nat, k: nat, c: nat,
                       s: State<V, W>, t: State<V, W>)
    requires Valid(f) && Conversion(f, id, vals, ce, b, k) && Below(s, |f.instrs|) == Below(t, |f.instrs|)
    requires c < |f.blocks|
    ensures var g, n := Hoisted(f, id, vals, ce, b, k), |f.instrs|;
      var u := RunBody(m, g, g.blocks[c].body, t);
      Below(u, n) == Below(RunBody(m, f, f.blocks[c].body, s), n)
      && (c == b ==> n in u.env && u.env[n] == ConstVal(m, ce))
  {
    if c == b {
      HoistedBody(m, f, id, vals, ce, b, k, s, t);
    } else {
      var body := f.blocks[c].body;
      assert ValidBlock(f, c);
      assert forall i :: 0 <= i < |body| ==> ValidInstr(f, body[i]);
      SameBody(m, f, Hoisted(f, id, vals, ce, b, k), body, s, t);
    }
  }

  /** Choosing an entry of a phi after all entries of block b were replaced. */
  lemma {:induction false} IncomingReplaced(blocks: seq<nat>, vals: seq<Operand>, vals': seq<Operand>, b: nat,
                                            ce: Const, n: Id, pred: nat)
    requires |blocks| == |vals| == |vals'|
    requires forall i :: 0 <= i < |vals| ==> vals'[i] == if blocks[i] == b then Reg(n) else vals[i]
    requires forall i :: 0 <= i < |vals| && blocks[i] == b ==> vals[i] == Konst(ce)
    ensures pred != b || b !in blocks ==> Incoming(blocks, vals', pred) == Incoming(blocks, vals, pred)
    ensures pred == b && b in blocks ==>
              Incoming(blocks, vals', pred) == Reg(n) && Incoming(blocks, vals, pred) == Konst(ce)
  {
    if blocks != [] && blocks[0] != pred {
      IncomingReplaced(blocks[1..], vals[1..], vals'[1..], b, ce, n, pred);
    }
  }

  lemma {:induction false} IncomingClosed(f: Func, blocks: seq<nat>, vals: seq<Operand>, pred: nat)
    requires |blocks| == |vals| && ClosedVals(f, vals)
    ensures Incoming(blocks, vals, pred).Reg? ==> Incoming(blocks, vals, pred).id < |f.instrs|
  {
    if blocks != [] && blocks[0] != pred {
      IncomingClosed(f, blocks[1..], vals[1..], pred);
    }
  }

  /** One phi, entered from pred: the entry read after the conversion has the value of the one read
      before it. */
  lemma StepPhi<V, W>(m: Machine<V, W>, f: Func, id: Id, vals: seq<Operand>, ce: Const, b: nat, k: nat,
                      x: Id, pred: nat, s: State<V, W>, t: State<V, W>)
    requires Valid(f) && Conversion(f, id, vals, ce, b, k) && Below(s, |f.instrs|) == Below(t, |f.instrs|)
    requires pred == b ==> |f.instrs| in t.env && t.env[|f.instrs|] == ConstVal(m, ce)
    requires x < |f.instrs| && f.instrs[x].PhiNode?
    ensures var g, p := Hoisted(f, id, vals, ce, b, k), f.instrs[x];
      && |p.blocks| == |p.vals| && g.instrs[x].PhiNode? && g.instrs[x].blocks == p.blocks
      && |g.instrs[x].vals| == |p.vals|
      && Val(m, t.env, Incoming(p.blocks, g.instrs[x].vals, pred)) == Val(m, s.env, Incoming(p.blocks, p.vals, pred))
  {
    var g, p := Hoisted(f, id, vals, ce, b, k), f.instrs[x];
    assert ValidInstr(f, x);
    IncomingClosed(f, p.blocks, p.vals, pred);
    if x == id {
      IncomingReplaced(p.blocks, p.vals, vals, b, ce, |f.instrs|, pred);
      if pred != b {
        BelowVal(m, s, t, |f.instrs|, Incoming(p.blocks, p.vals, pred));
      } else {
        var i :| 0 <= i < |vals| && Hit(p, i, ce, b);
        assert p.blocks[i] == b;
      }
    } else {
      BelowVal(m, s, t, |f.instrs|, Incoming(p.blocks, p.vals, pred));
    }
  }

  lemma {:induction false} StepPhis<V, W>(m: Machine<V, W>, f: Func, id: Id, vals: seq<Operand>, ce: Const, b: nat,
                                          k: nat, phis: seq<Id>, pred: nat, s: State<V, W>, t: State<V, W>)
    requires Valid(f) && Conversion(f, id, vals, ce, b, k) && Below(s, |f.instrs|) == Below(t, |f.instrs|)
    requires pred == b ==> |f.instrs| in t.env && t.env[|f.instrs|] == ConstVal(m, ce)
    requires forall i :: 0 <= i < |phis| ==> phis[i] < |f.instrs| && f.instrs[phis[i]].PhiNode?
    ensures var g := Hoisted(f, id, vals, ce, b, k);
      Below(RunPhis(m, g, phis, pred, t), |f.instrs|) == Below(RunPhis(m, f, phis, pred, s), |f.instrs|)
  {
    if phis != [] {
      var g, n := Hoisted(f, id, vals, ce, b, k), |f.instrs|;
      var rest, x := phis[..|phis| - 1], phis[|phis| - 1];
      StepPhis(m, f, id, vals, ce, b, k, rest, pred, s, t);
      StepPhi(m, f, id, vals, ce, b, k, x, pred, s, t);
      var s1, t1 := RunPhis(m, f, rest, pred, s), RunPhis(m, g, rest, pred, t);
      var v := Val(m, s.env, Incoming(f.instrs[x].blocks, f.instrs[x].vals, pred));
      BelowRecord(s1, x, [v], v, s1.world, n);
      BelowRecord(t1, x, [v], v, t1.world, n);
      assert s1.world == Below(s1, n).world == t1.world;
    }
  }

  lemma StepEnter<V, W>(m: Machine<V, W>, f: Func, id: Id, vals: seq<Operand>, ce: Const, b: nat, k: nat,
                        c: nat, path: seq<nat>, s: State<V, W>, t: State<V, W>)
    requires Valid(f) && Conversion(f, id, vals, ce, b, k) && Below(s, |f.instrs|) == Below(t, |f.instrs|)
    requires c < |f.blocks|
    requires path != [] && path[|path| - 1] == b ==> |f.instrs| in t.env && t.env[|f.instrs|] == ConstVal(m, ce)
    ensures var g := Hoisted(f, id, vals, ce, b, k);
      Below(Enter(m, g, c, path, t), |f.instrs|) == Below(Enter(m, f, c, path, s), |f.instrs|)
  {
    assert ValidBlock(f, c);
    if path != [] {
      StepPhis(m, f, id, vals, ce, b, k, f.blocks[c].phis, path[|path| - 1], s, t);
    }
  }

  /** One conversion changes nothing that the old instructions show, along any path. */
  lemma {:induction false} StepKeepsRun<V, W>(m: Machine<V, W>, f: Func, id: Id, vals: seq<Operand>, ce: Const, b: nat,
                                              k: nat, path: seq<nat>, s: State<V, W>)
    requires Valid(f) && Conversion(f, id, vals, ce, b, k)
    ensures var g, n := Hoisted(f, id, vals, ce, b, k), |f.instrs|;
      var u := Run(m, g, path, s);
      Below(u, n) == Below(Run(m, f, path, s), n)
      && (path != [] && path[|path| - 1] == b ==> n in u.env && u.env[n] == ConstVal(m, ce))
  {
    if path != [] {
      var g, init, c := Hoisted(f, id, vals, ce, b, k), path[..|path| - 1], path[|path| - 1];
      StepKeepsRun(m, f, id, vals, ce, b, k, init, s);
      if c < |f.blocks| {
        var s1, t1 := Run(m, f, init, s), Run(m, g, init, s);
        StepEnter(m, f, id, vals, ce, b, k, c, init, s1, t1);
        StepBody(m, f, id, vals, ce, b, k, c, Enter(m, f, c, init, s1), Enter(m, g, c, init, t1));
      }
    }
  }

  lemma {:induction false} LogBelowBelow<V>(log: seq<Event<V>>, n: nat, k: nat)
    requires n <= k
    ensures LogBelow(LogBelow(log, k), n) == LogBelow(log, n)
  {
    if log != [] {
      var rest, e := log[..|log| - 1], log[|log| - 1];
      LogBelowBelow(rest, n, k);
      var r := LogBelow(rest, k);
      assert r + [] == r;
      assert (r + [e])[..|r + [e]| - 1] == r;
    }
  }

  lemma BelowBelow<V, W>(s: State<V, W>, n: nat, k: nat)
    requires n <= k
    ensures Below(Below(s, k), n) == Below(s, n)
  {
    LogBelowBelow(s.log, n, k);
  }

  /** Any number of conversions change nothing that the original instructions show: along every path,
      they execute in the same order, on the same operand values, with the same results and the same
      effects. */
  lemma {:induction false} DerivationKeepsRun<V, W>(m: Machine<V, W>, fs: seq<Func>, path: seq<nat>, s: State<V, W>)
    requires Derivation(fs)
    ensures |fs[0].instrs| <= |fs[|fs| - 1].instrs|
    ensures Below(Run(m, fs[|fs| - 1], path, s), |fs[0].instrs|) == Below(Run(m, fs[0], path, s), |fs[0].instrs|)
    decreases |fs|
  {
    if |fs| > 1 {
      var f, g, n := fs[|fs| - 2], fs[|fs| - 1], |fs[0].instrs|;
      var init := fs[..|fs| - 1];
      forall i | 0 <= i < |init| - 1 ensures Link(init, i) { assert Link(fs, i); }
      DerivationKeepsRun(m, init, path, s);
      assert Link(fs, |fs| - 2);
      LinkKeepsRun(m, f, g, path, s, n);
    }
  }

  /** One conversion changes nothing that the first n instructions show. */
  lemma LinkKeepsRun<V, W>(m: Machine<V, W>, f: Func, g: Func, path: seq<nat>, s: State<V, W>, n: nat)
    requires Valid(f) && Step(f, g) && n <= |f.instrs|
    ensures n <= |g.instrs| && Below(Run(m, g, path, s), n) == Below(Run(m, f, path, s), n)
  {
    var id :| Converts(f, id, g);
    var vals, ce, b, k :| Conversion(f, id, vals, ce, b, k) && g == Hoisted(f, id, vals, ce, b, k);
    StepKeepsRun(m, f, id, vals, ce, b, k, path, s);
    BelowBelow(Run(m, g, path, s), n, |f.instrs|);
    BelowBelow(Run(m, f, path, s), n, |f.instrs|);
  }

  lemma MeaningPreserved<V, W>(m: Machine<V, W>, f: Func, g: Func, path: seq<nat>, s: State<V, W>)
    requires Derives(f, g)
    ensures Below(Run(m, g, path, s), |f.instrs|) == Below(Run(m, f, path, s), |f.instrs|)
  {
    var fs :| Derivation(fs) && fs[0] == f && fs[|fs| - 1] == g;
    DerivationKeepsRun(m, fs, path, s);
  }
}
