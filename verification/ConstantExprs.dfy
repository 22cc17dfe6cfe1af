/** Constant expressions, the functions that carry them in their operands, and what both mean.

    A predicate that matches on a datatype with one constructor is unfolded by the solver only where
    its parts are needed. */
module ConstantExprs {
  import opened Collections

  type Id = nat

  datatype Opcode = Gep | BinaryOp(code: nat) | UnaryOp(code: nat) | OtherOp(code: nat)

  /** Leaf stands for every constant that is not a constant expression, aggregates included. */
  datatype Const = Leaf(name: nat) | CE(op: Opcode, args: seq<Const>)

  datatype Operand = Reg(id: Id) | Arg(pos: nat) | Konst(c: Const)

  /** A pure operation can be the opcode of a constant expression; a tagged one may have any effect. */
  datatype Operation = Pure(op: Opcode) | Tagged(tag: nat)

  /** An instruction's id is its index in the function's table; parent is the block that lists it. */
  datatype Instr =
    | Inst(op: Operation, vals: seq<Operand>, parent: nat)
    | PhiNode(blocks: seq<nat>, vals: seq<Operand>, parent: nat)

  /** The last id of a body is the block's terminator. */
  datatype Block = Block(phis: seq<Id>, body: seq<Id>)

  datatype Func = Func(blocks: seq<Block>, instrs: seq<Instr>)

  // ---------------------------------------------------------------- the recursive tests

  predicate HasConstantGEP(c: Const) {
    match c
    case Leaf(_) => false
    case CE(op, args) => op.Gep? || exists a :: a in args && HasConstantGEP(a)
  }

  predicate HasConstantBinaryOrUnaryOp(c: Const) {
    match c
    case Leaf(_) => false
    case CE(op, args) => op.BinaryOp? || op.UnaryOp? || exists a :: a in args && HasConstantBinaryOrUnaryOp(a)
  }

  predicate HasConstantExpr(c: Const) {
    HasConstantGEP(c) || HasConstantBinaryOrUnaryOp(c)
  }

  predicate Convertible(v: Operand) {
    v.Konst? && HasConstantExpr(v.c)
  }

  /** The constants nested in c through operands, c included. */
  ghost function Nested(c: Const): set<Const> {
    match c
    case Leaf(_) => {c}
    case CE(_, args) => {c} + set a, n | a in args && n in Nested(a) :: n
  }

  /** The tests together find exactly the constants in which an address computation or an operator is
      nested at any depth. */
  lemma {:induction false} HasConstantExprIff(c: Const)
    ensures HasConstantExpr(c) <==>
            exists n :: n in Nested(c) && n.CE? && (n.op.Gep? || n.op.BinaryOp? || n.op.UnaryOp?)
  {
    match c
    case Leaf(_) =>
    case CE(op, args) =>
      forall a | a in args
        ensures HasConstantExpr(a) <==>
                exists n :: n in Nested(a) && n.CE? && (n.op.Gep? || n.op.BinaryOp? || n.op.UnaryOp?)
      {
        HasConstantExprIff(a);
      }
      assert c in Nested(c);
      if HasConstantExpr(c) && op.OtherOp? {
        var a :| a in args && HasConstantExpr(a);
        var n :| n in Nested(a) && n.CE? && (n.op.Gep? || n.op.BinaryOp? || n.op.UnaryOp?);
        assert n in Nested(c);
      }
  }

  // ---------------------------------------------------------------- well-formed functions

  ghost predicate ClosedVals(f: Func, vals: seq<Operand>) {
    forall i :: 0 <= i < |vals| && vals[i].Reg? ==> vals[i].id < |f.instrs|
  }

  /** Entries of a phi that name the same block carry the same value. */
  ghost predicate Uniform(blocks: seq<nat>, vals: seq<Operand>)
    requires |blocks| == |vals|
  {
    forall i, j :: 0 <= i < |vals| && 0 <= j < |vals| && blocks[i] == blocks[j] ==> vals[i] == vals[j]
  }

  ghost predicate ValidInstr(f: Func, id: Id)
    requires id < |f.instrs|
  {
    var x := f.instrs[id];
    && x.parent < |f.blocks| && ClosedVals(f, x.vals)
    && match x
       case Inst(_, _, b) => id in f.blocks[b].body
       case PhiNode(blocks, vals, b) =>
         id in f.blocks[b].phis && |blocks| == |vals| && Uniform(blocks, vals)
         && forall i :: 0 <= i < |blocks| ==> blocks[i] < |f.blocks|
  }

  ghost predicate ValidBlock(f: Func, b: nat)
    requires b < |f.blocks|
  {
    && f.blocks[b].body != [] && Distinct(f.blocks[b].body)
    && (forall k :: 0 <= k < |f.blocks[b].body| ==>
          var id := f.blocks[b].body[k]; id < |f.instrs| && f.instrs[id].Inst? && f.instrs[id].parent == b)
    && (forall k :: 0 <= k < |f.blocks[b].phis| ==>
          var id := f.blocks[b].phis[k]; id < |f.instrs| && f.instrs[id].PhiNode?)
  }

  ghost predicate Valid(f: Func) {
    match f
    case Func(blocks, instrs) =>
      && (forall id :: 0 <= id < |instrs| ==> ValidInstr(f, id))
      && (forall b :: 0 <= b < |blocks| ==> ValidBlock(f, b))
  }

  // ---------------------------------------------------------------- what they mean

  /** The meaning of leaves, opcodes, arguments and effects, over any values and any world. */
  datatype Machine<!V, !W> = Machine(
    leaf: nat -> V,
    fold: (Opcode, seq<V>) -> V,
    arg: nat -> V,
    undef: Id -> V,
    effect: (nat, seq<V>, W) -> (V, W))

  datatype Event<V> = Event(id: Id, vals: seq<V>, result: V)

  /** log records every executed instruction with the values of its operands and its result. */
  datatype State<V, W> = State(env: map<Id, V>, world: W, log: seq<Event<V>>)

  ghost function ConstVal<V, W>(m: Machine<V, W>, c: Const): V {
    match c
    case Leaf(name) => m.leaf(name)
    case CE(op, args) => m.fold(op, seq(|args|, i requires 0 <= i < |args| => ConstVal(m, args[i])))
  }

  ghost function Val<V, W>(m: Machine<V, W>, env: map<Id, V>, v: Operand): V {
    match v
    case Reg(id) => if id in env then env[id] else m.undef(id)
    case Arg(pos) => m.arg(pos)
    case Konst(c) => ConstVal(m, c)
  }

  ghost function Vals<V, W>(m: Machine<V, W>, env: map<Id, V>, vals: seq<Operand>): seq<V> {
    seq(|vals|, i requires 0 <= i < |vals| => Val(m, env, vals[i]))
  }

  ghost function Record<V, W>(s: State<V, W>, id: Id, vals: seq<V>, result: V, world: W): State<V, W> {
    State(s.env[id := result], world, s.log + [Event(id, vals, result)])
  }

  ghost function Exec<V, W>(m: Machine<V, W>, f: Func, id: Id, s: State<V, W>): State<V, W> {
    if id >= |f.instrs| || !f.instrs[id].Inst? then s else
    var x := f.instrs[id];
    var vals := Vals(m, s.env, x.vals);
    match x.op
    case Pure(op) => Record(s, id, vals, m.fold(op, vals), s.world)
    case Tagged(tag) =>
      var r := m.effect(tag, vals, s.world);
      Record(s, id, vals, r.0, r.1)
  }

  ghost function RunBody<V, W>(m: Machine<V, W>, f: Func, body: seq<Id>, s: State<V, W>): State<V, W> {
    if body == [] then s
    else Exec(m, f, body[|body| - 1], RunBody(m, f, body[..|body| - 1], s))
  }

  /** The entry of a phi for the block that control came from. */
  ghost function Incoming(blocks: seq<nat>, vals: seq<Operand>, pred: nat): Operand
    requires |blocks| == |vals|
  {
    if blocks == [] then Konst(Leaf(0))
    else if blocks[0] == pred then vals[0]
    else Incoming(blocks[1..], vals[1..], pred)
  }

  /** All phis of a block read the values that were current at its entry. */
  ghost function RunPhis<V, W>(m: Machine<V, W>, f: Func, phis: seq<Id>, pred: nat, s: State<V, W>): State<V, W> {
    if phis == [] then s else
    var t := RunPhis(m, f, phis[..|phis| - 1], pred, s);
    var id := phis[|phis| - 1];
    if id >= |f.instrs| || !f.instrs[id].PhiNode? || |f.instrs[id].blocks| != |f.instrs[id].vals| then t else
    var v := Val(m, s.env, Incoming(f.instrs[id].blocks, f.instrs[id].vals, pred));
    Record(t, id, [v], v, t.world)
  }

  /** Entering block c at the end of a path. */
  ghost function Enter<V, W>(m: Machine<V, W>, f: Func, c: nat, path: seq<nat>, s: State<V, W>): State<V, W>
    requires c < |f.blocks|
  {
    if path == [] then s else RunPhis(m, f, f.blocks[c].phis, path[|path| - 1], s)
  }

  /** Run the blocks of a control path in turn. */
  ghost function Run<V, W>(m: Machine<V, W>, f: Func, path: seq<nat>, s: State<V, W>): State<V, W> {
    if path == [] then s else
    var init, c := path[..|path| - 1], path[|path| - 1];
    var t := Run(m, f, init, s);
    if c >= |f.blocks| then t else RunBody(m, f, f.blocks[c].body, Enter(m, f, c, init, t))
  }

  /** What a state shows of the instructions with ids below n. */
  ghost function LogBelow<V>(log: seq<Event<V>>, n: nat): seq<Event<V>> {
    if log == [] then [] else
    LogBelow(log[..|log| - 1], n) + if log[|log| - 1].id < n then [log[|log| - 1]] else []
  }

  ghost function Below<V, W>(s: State<V, W>, n: nat): State<V, W> {
    State(map id | id in s.env && id < n :: s.env[id], s.world, LogBelow(s.log, n))
  }
}
