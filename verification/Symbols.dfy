/**
 * Symbol collection (`SymbolTableBuilder`) against symbol use (`SVFIRBuilder::processCE`).
 *
 * Both recurse over constant expressions, each in its own way: collection also follows the
 * users and the initialiser of every global it meets, use follows the pointer operands only
 * but looks up every index. `Processable` lists the lookups of use; collection keeps it
 * true of everything it has collected.
 *
 * A predicate that matches on a datatype with one constructor is unfolded by the
 * solver only where its parts are needed.
 */
module Symbols {
  import opened Collections
  import opened Options

  datatype Shape = ArrayShape | StructShape | VectorShape

  datatype SimpleOp = Trunc | Cmp | Binary | Unary

  // Constants are equal when they are the same object; `ty` keeps apart constants that
  // differ in their type only.
  datatype Const =
    | Null(ty: nat)
    | Undef(ty: nat, single: bool)
    | Global(id: nat)
    | Function(id: nat)
    | Alias(id: nat)
    | Data(ty: nat, bits: int)
    | BlockAddress(fun: nat, block: nat)
    | Zero(ty: nat, single: bool)
    | Aggregate(shape: Shape, ty: nat, elems: seq<Const>)
    | DataSequential(vector: bool, ty: nat, elems: seq<Const>)
    | Gep(ty: nat, base: Const, indices: seq<Const>)
    | Cast(ty: nat, op: Const)
    | Select(cond: Const, yes: Const, no: Const)
    | IntToPtr(ty: nat, op: Const)
    | PtrToInt(ty: nat, op: Const)
    | Simple(kind: SimpleOp, ty: nat, operands: seq<Const>)
    | OtherExpr(ty: nat, operands: seq<Const>)

  datatype Type = ArrayTy(elem: Type) | StructTy | OtherTy

  datatype User = Instruction | ConstantUser(c: Const)

  datatype GlobalVar = GlobalVar(ty: Type, users: seq<User>, init: Option<Const>)

  datatype Program = Program(globals: seq<GlobalVar>, modelConsts: bool)

  type Table = map<Const, nat>

  predicate IsConstantExpr(v: Const) {
    v.Gep? || v.Cast? || v.Select? || v.IntToPtr? || v.PtrToInt? || v.Simple? || v.OtherExpr?
  }

  predicate IsSingleValue(v: Const) {
    match v
    case Undef(_, single) => single
    case Zero(_, single) => single
    case Aggregate(shape, _, _) => shape.VectorShape?
    case DataSequential(vector, _, _) => vector
    case _ => true
  }

  // ---------------------------------------------------------------- what use looks up

  predicate HasValueNode(sym: Table, v: Const) {
    v.Null? || v.Undef? || v in sym
  }

  // Whether `processCE` finds every symbol it looks up, at any depth.
  predicate Processable(sym: Table, v: Const)
    decreases v
  {
    match v
    case Gep(_, base, indices) =>
      && Processable(sym, base) && HasValueNode(sym, base)
      && (forall i <- indices :: HasValueNode(sym, i)) && HasValueNode(sym, v)
    case Cast(_, op) => Processable(sym, op) && HasValueNode(sym, op) && HasValueNode(sym, v)
    case Select(cond, yes, no) =>
      && Processable(sym, yes) && Processable(sym, no)
      && HasValueNode(sym, cond) && HasValueNode(sym, yes) && HasValueNode(sym, no) && HasValueNode(sym, v)
    case IntToPtr(_, op) => Processable(sym, op) && HasValueNode(sym, op) && HasValueNode(sym, v)
    case PtrToInt(_, op) => Processable(sym, op) && HasValueNode(sym, op) && HasValueNode(sym, v)
    case Simple(_, _, _) => HasValueNode(sym, v)
    case BlockAddress(_, _) => HasValueNode(sym, v)
    case OtherExpr(_, _) => false
    case _ => true
  }

  predicate Handled(sym: Table, v: Const) {
    HasValueNode(sym, v) && Processable(sym, v)
  }

  // Whether the same holds of everything that writing an initialiser looks up.
  predicate InitProcessable(p: Program, sym: Table, init: Const)
    decreases init
  {
    if IsSingleValue(init) then Handled(sym, init)
    else if init.Aggregate? then forall e <- init.elems :: InitProcessable(p, sym, e)
    else if init.DataSequential? && p.modelConsts then forall e <- init.elems :: InitProcessable(p, sym, e)
    else true
  }

  predicate IsArrayOrStruct(t: Type) {
    !t.OtherTy?
  }

  // A global is settled when its initialiser can be written and, for an array or a
  // structure, every constant that uses it can be processed.
  predicate GlobalSettled(p: Program, sym: Table, id: nat)
    requires id < |p.globals|
  {
    var g := p.globals[id];
    && (IsArrayOrStruct(g.ty) ==> forall u <- g.users :: u.ConstantUser? ==> Handled(sym, u.c))
    && (g.init.Some? ==> InitProcessable(p, sym, g.init.value))
  }

  predicate ValueSettled(p: Program, sym: Table, v: Const) {
    && Processable(sym, v)
    && (v.Global? ==> v.id < |p.globals| && GlobalSettled(p, sym, v.id))
  }

  // Everything collected is settled, but for the values still being worked on.
  ghost predicate Settled(p: Program, sym: Table, pending: set<Const>) {
    match p
    case Program(_, _) => forall v <- sym :: v !in pending ==> ValueSettled(p, sym, v)
  }

  // ---------------------------------------------------------------- what collection supports

  // No unsupported constant expression among those that `handleCE` descends into.
  predicate Supported(p: Program, v: Const)
    decreases v
  {
    match v
    case Global(id) => id < |p.globals|
    case Gep(_, base, indices) => Supported(p, base) && forall i <- indices :: Supported(p, i)
    case Cast(_, op) => Supported(p, op)
    case Select(cond, yes, no) => Supported(p, cond) && Supported(p, yes) && Supported(p, no)
    case IntToPtr(_, op) => Supported(p, op)
    case PtrToInt(_, op) => Supported(p, op)
    case OtherExpr(_, _) => false
    case _ => true
  }

  predicate InitSupported(p: Program, init: Const)
    decreases init
  {
    if IsSingleValue(init) then Supported(p, init)
    else if init.Aggregate? then forall e <- init.elems :: InitSupported(p, e)
    else if init.DataSequential? && p.modelConsts then forall e <- init.elems :: InitSupported(p, e)
    else true
  }

  ghost predicate Valid(p: Program) {
    match p
    case Program(globals, _) => forall g <- globals ::
      && (forall u <- g.users :: u.ConstantUser? ==> Supported(p, u.c))
      && (g.init.Some? ==> InitSupported(p, g.init.value))
  }

  // ---------------------------------------------------------------- growing tables

  predicate Extends(a: Table, b: Table) {
    forall v <- a :: v in b && b[v] == a[v]
  }

  lemma ProcessableGrows(a: Table, b: Table, v: Const)
    requires Extends(a, b) && Processable(a, v)
    ensures Processable(b, v)
    decreases v
  {}

  lemma InitGrows(p: Program, a: Table, b: Table, init: Const)
    requires Extends(a, b) && InitProcessable(p, a, init)
    ensures InitProcessable(p, b, init)
    decreases init
  {
    if IsSingleValue(init) {
      ProcessableGrows(a, b, init);
    } else if init.Aggregate? || (init.DataSequential? && p.modelConsts) {
      forall e | e in init.elems
        ensures InitProcessable(p, b, e)
      {
        InitGrows(p, a, b, e);
      }
    }
  }

  lemma GlobalGrows(p: Program, a: Table, b: Table, id: nat)
    requires id < |p.globals| && Extends(a, b) && GlobalSettled(p, a, id)
    ensures GlobalSettled(p, b, id)
  {
    var g := p.globals[id];
    if IsArrayOrStruct(g.ty) {
      forall u <- g.users | u.ConstantUser?
        ensures Handled(b, u.c)
      {
        ProcessableGrows(a, b, u.c);
      }
    }
    if g.init.Some? { InitGrows(p, a, b, g.init.value); }
  }

  lemma SettledGrows(p: Program, a: Table, b: Table, v: Const)
    requires Extends(a, b) && ValueSettled(p, a, v)
    ensures ValueSettled(p, b, v)
  {
    ProcessableGrows(a, b, v);
    if v.Global? { GlobalGrows(p, a, b, v.id); }
  }

  // A new symbol is pending until it is shown settled.
  lemma Inserted(p: Program, a: Table, b: Table, v: Const, pending: set<Const>)
    requires Settled(p, a, pending) && Extends(a, b) && b.Keys == a.Keys + {v}
    ensures Settled(p, b, pending + {v})
  {
    forall x <- b | x !in pending + {v}
      ensures ValueSettled(p, b, x)
    {
      SettledGrows(p, a, b, x);
    }
  }

  lemma Discharged(p: Program, sym: Table, v: Const, pending: set<Const>)
    requires Settled(p, sym, pending + {v}) && ValueSettled(p, sym, v)
    ensures Settled(p, sym, pending)
  {}

  // ---------------------------------------------------------------- termination

  function Uncollected(p: Program, sym: Table): (r: set<nat>)
  {
    set id | 0 <= id < |p.globals| && Global(id) !in sym
  }

  lemma UncollectedShrinks(p: Program, a: Table, b: Table)
    requires Extends(a, b)
    ensures |Uncollected(p, b)| <= |Uncollected(p, a)|
    ensures (exists id :: 0 <= id < |p.globals| && Global(id) !in a && Global(id) in b) ==>
        |Uncollected(p, b)| < |Uncollected(p, a)|
  {
    var x, y := Uncollected(p, a), Uncollected(p, b);
    assert y <= x;
    SubsetSize(y, x);
    if id :| 0 <= id < |p.globals| && Global(id) !in a && Global(id) in b {
      assert id in x && id !in y;
      SubsetSize(y, x - {id});
    }
  }

  // ---------------------------------------------------------------- collection

  // Symbols have pairwise distinct ids, all handed out already.
  ghost predicate Numbered(sym: Table, next: nat) {
    && (forall v <- sym :: sym[v] < next)
    && forall u, v :: u in sym && v in sym && u != v ==> sym[u] != sym[v]
  }

  predicate AllHandled(sym: Table, vs: seq<Const>) {
    forall v <- vs :: Handled(sym, v)
  }

  lemma HandledGrow(a: Table, b: Table, vs: seq<Const>)
    requires Extends(a, b) && AllHandled(a, vs)
    ensures AllHandled(b, vs)
  {
    forall v <- vs
      ensures Handled(b, v)
    {
      ProcessableGrows(a, b, v);
    }
  }

  predicate UsersHandled(sym: Table, users: seq<User>) {
    forall u <- users :: u.ConstantUser? ==> Handled(sym, u.c)
  }

  lemma UsersGrow(a: Table, b: Table, users: seq<User>)
    requires Extends(a, b)
    ensures UsersHandled(a, users) ==> UsersHandled(b, users)
  {
    if UsersHandled(a, users) {
      forall u <- users | u.ConstantUser?
        ensures Handled(b, u.c)
      {
        ProcessableGrows(a, b, u.c);
      }
    }
  }

  predicate InitsProcessable(p: Program, sym: Table, cs: seq<Const>) {
    forall c <- cs :: InitProcessable(p, sym, c)
  }

  lemma InitsGrow(p: Program, a: Table, b: Table, cs: seq<Const>)
    requires Extends(a, b) && InitsProcessable(p, a, cs)
    ensures InitsProcessable(p, b, cs)
  {
    forall c <- cs
      ensures InitProcessable(p, b, c)
    {
      InitGrows(p, a, b, c);
    }
  }

  function WithExpr(pending: set<Const>, v: Const): set<Const> {
    if IsConstantExpr(v) then pending + {v} else pending
  }

  lemma AnyOrder(pending: set<Const>, a: Const, b: Const, c: Const)
    ensures WithExpr(WithExpr(WithExpr(pending, a), b), c) == WithExpr(WithExpr(WithExpr(pending, c), b), a)
  {}

  lemma GepProcessable(sym: Table, v: Const)
    requires v.Gep? && v in sym && AllHandled(sym, [v.base] + v.indices)
    ensures Processable(sym, v)
  {
    var operands := [v.base] + v.indices;
    assert operands[0] in operands;
    forall i <- v.indices
      ensures HasValueNode(sym, i)
    {
      var k :| 0 <= k < |v.indices| && v.indices[k] == i;
      assert operands[k + 1] in operands;
    }
  }

  lemma Weaken(p: Program, sym: Table, v: Const, pending: set<Const>)
    requires Settled(p, sym, pending)
    ensures Settled(p, sym, WithExpr(pending, v)) && Settled(p, sym, pending + {v})
  {}

  class SymbolTableBuilder {
    const p: Program
    var valSymMap: Table
    var nextId: nat

    constructor (p: Program)
      ensures this.p == p && valSymMap == map[] && nextId == 0
    {
      this.p := p;
      valSymMap, nextId := map[], 0;
    }

    ghost predicate Ready(pending: set<Const>)
      reads this
    {
      Valid(p) && Numbered(valSymMap, nextId) && Settled(p, valSymMap, pending)
    }

    method AddSymbol(v: Const, ghost pending: set<Const>)
      requires Ready(pending) && v !in valSymMap
      modifies this
      ensures Ready(pending + {v}) && Extends(old(valSymMap), valSymMap)
      ensures valSymMap.Keys == old(valSymMap).Keys + {v}
    {
      valSymMap := valSymMap[v := nextId];
      nextId := nextId + 1;
      Inserted(p, old(valSymMap), valSymMap, v, pending);
    }

    method CollectVal(v: Const, ghost pending: set<Const>)
      requires Ready(pending) && (v.Global? ==> v.id < |p.globals|)
      modifies this
      ensures Ready(WithExpr(pending, v)) && Extends(old(valSymMap), valSymMap)
      ensures HasValueNode(valSymMap, v)
      decreases |Uncollected(p, valSymMap)|, 0, 0
    {
      if v.Null? || v.Undef? {
        return;
      }
      Weaken(p, valSymMap, v, pending);
      if v !in valSymMap {
        AddSymbol(v, pending);
        if v.Global? {
          UncollectedShrinks(p, old(valSymMap), valSymMap);
          HandleGlobalCE(v.id, pending);
        } else if !IsConstantExpr(v) {
          Discharged(p, valSymMap, v, pending);
        }
      }
    }

    // Every branch of the source collects the constant itself first.
    method HandleCE(v: Const, ghost pending: set<Const>)
      requires Ready(WithExpr(pending, v)) && Supported(p, v)
      modifies this
      ensures Ready(pending) && Extends(old(valSymMap), valSymMap)
      ensures Handled(valSymMap, v)
      decreases |Uncollected(p, valSymMap)|, 1, v, 2
    {
      ghost var inner := WithExpr(pending, v);
      CollectVal(v, inner);
      assert WithExpr(inner, v) == inner;
      UncollectedShrinks(p, old(valSymMap), valSymMap);
      match v
      case Gep(_, base, indices) =>
        HandleGep(v, inner);
      case Cast(_, op) =>
        CollectAndHandle(op, inner);
      case Select(cond, yes, no) =>
        HandleSelect(v, inner);
      case IntToPtr(_, op) =>
        Weaken(p, valSymMap, op, inner);
        HandleCE(op, inner);
      case PtrToInt(_, op) =>
        Weaken(p, valSymMap, op, inner);
        HandleCE(op, inner);
      case _ =>
        if IsConstantExpr(v) {
          Discharged(p, valSymMap, v, pending);
        }
    }

    method CollectAndHandle(op: Const, ghost pending: set<Const>)
      requires Ready(pending) && Supported(p, op)
      modifies this
      ensures Ready(pending) && Extends(old(valSymMap), valSymMap)
      ensures Handled(valSymMap, op)
      decreases |Uncollected(p, valSymMap)|, 1, op, 3
    {
      CollectVal(op, pending);
      UncollectedShrinks(p, old(valSymMap), valSymMap);
      HandleCE(op, pending);
    }

    method HandleGep(v: Const, ghost pending: set<Const>)
      requires v.Gep? && Ready(pending) && Supported(p, v) && v in valSymMap
      modifies this
      ensures Ready(pending) && Extends(old(valSymMap), valSymMap)
      ensures Processable(valSymMap, v)
      decreases |Uncollected(p, valSymMap)|, 1, v, 1
    {
      var operands := [v.base] + v.indices;
      for i := 0 to |operands|
        invariant Ready(pending) && Extends(old(valSymMap), valSymMap)
        invariant AllHandled(valSymMap, operands[..i])
      {
        ghost var before := valSymMap;
        UncollectedShrinks(p, old(valSymMap), valSymMap);
        assert operands[i] < v && Supported(p, operands[i]);
        CollectAndHandle(operands[i], pending);
        HandledGrow(before, valSymMap, operands[..i]);
        assert operands[..i + 1] == operands[..i] + [operands[i]];
      }
      assert operands[..|operands|] == operands;
      GepProcessable(valSymMap, v);
    }

    method HandleSelect(v: Const, ghost pending: set<Const>)
      requires v.Select? && Ready(pending) && Supported(p, v) && v in valSymMap
      modifies this
      ensures Ready(pending) && Extends(old(valSymMap), valSymMap)
      ensures Processable(valSymMap, v)
      decreases |Uncollected(p, valSymMap)|, 1, v, 1
    {
      CollectThree(v.cond, v.yes, v.no, pending);
      UncollectedShrinks(p, old(valSymMap), valSymMap);
      HandleCE(v.cond, WithExpr(WithExpr(pending, v.no), v.yes));
      UncollectedShrinks(p, old(valSymMap), valSymMap);
      HandleCE(v.yes, WithExpr(pending, v.no));
      ghost var before := valSymMap;
      UncollectedShrinks(p, old(valSymMap), valSymMap);
      HandleCE(v.no, pending);
      ProcessableGrows(before, valSymMap, v.yes);
    }

    method CollectThree(a: Const, b: Const, c: Const, ghost pending: set<Const>)
      requires Ready(pending) && Supported(p, a) && Supported(p, b) && Supported(p, c)
      modifies this
      ensures Ready(WithExpr(WithExpr(WithExpr(pending, c), b), a)) && Extends(old(valSymMap), valSymMap)
      ensures HasValueNode(valSymMap, a) && HasValueNode(valSymMap, b) && HasValueNode(valSymMap, c)
      decreases |Uncollected(p, valSymMap)|, 0, 1
    {
      CollectVal(a, pending);
      UncollectedShrinks(p, old(valSymMap), valSymMap);
      CollectVal(b, WithExpr(pending, a));
      UncollectedShrinks(p, old(valSymMap), valSymMap);
      CollectVal(c, WithExpr(WithExpr(pending, a), b));
      AnyOrder(pending, a, b, c);
    }

    method HandleGlobalCE(id: nat, ghost pending: set<Const>)
      requires id < |p.globals| && Ready(pending + {Global(id)}) && Global(id) in valSymMap
      modifies this
      ensures Ready(pending) && Extends(old(valSymMap), valSymMap)
      decreases |Uncollected(p, valSymMap)|, 3
    {
      var g := p.globals[id];
      ghost var inner := pending + {Global(id)};
      var t, isArray := g.ty, false;
      while t.ArrayTy?
        invariant isArray || t == g.ty
        invariant isArray ==> IsArrayOrStruct(g.ty)
        decreases t
      {
        t, isArray := t.elem, true;
      }
      if t.StructTy? || isArray {
        HandleUsers(g.users, inner);
      }
      ghost var before := valSymMap;
      if g.init.Some? {
        UncollectedShrinks(p, old(valSymMap), valSymMap);
        HandleGlobalInitializerCE(g.init.value, inner);
      }
      UsersGrow(before, valSymMap, g.users);
      Discharged(p, valSymMap, Global(id), pending);
    }

    method HandleUsers(users: seq<User>, ghost pending: set<Const>)
      requires Ready(pending) && forall u <- users :: u.ConstantUser? ==> Supported(p, u.c)
      modifies this
      ensures Ready(pending) && Extends(old(valSymMap), valSymMap)
      ensures UsersHandled(valSymMap, users)
      decreases |Uncollected(p, valSymMap)|, 2
    {
      for i := 0 to |users|
        invariant Ready(pending) && Extends(old(valSymMap), valSymMap)
        invariant UsersHandled(valSymMap, users[..i])
      {
        ghost var before := valSymMap;
        UncollectedShrinks(p, old(valSymMap), valSymMap);
        if users[i].ConstantUser? {
          Weaken(p, valSymMap, users[i].c, pending);
          HandleCE(users[i].c, pending);
        }
        UsersGrow(before, valSymMap, users[..i]);
        assert users[..i + 1] == users[..i] + [users[i]];
      }
      assert users[..|users|] == users;
    }

    method HandleGlobalInitializerCE(c: Const, ghost pending: set<Const>)
      requires Ready(pending) && InitSupported(p, c)
      modifies this
      ensures Ready(pending) && Extends(old(valSymMap), valSymMap)
      ensures InitProcessable(p, valSymMap, c)
      decreases |Uncollected(p, valSymMap)|, 2, c, 1
    {
      if IsSingleValue(c) {
        Weaken(p, valSymMap, c, pending);
        if IsConstantExpr(c) {
          HandleCE(c, pending);
        } else {
          CollectVal(c, pending);
        }
      } else if c.Aggregate? {
        HandleElements(c, c.elems, pending);
      } else if c.DataSequential? && p.modelConsts {
        HandleElements(c, c.elems, pending);
      }
    }

    method HandleElements(whole: Const, elems: seq<Const>, ghost pending: set<Const>)
      requires Ready(pending) && (forall e <- elems :: e < whole && InitSupported(p, e))
      modifies this
      ensures Ready(pending) && Extends(old(valSymMap), valSymMap)
      ensures InitsProcessable(p, valSymMap, elems)
      decreases |Uncollected(p, valSymMap)|, 2, whole, 0
    {
      for i := 0 to |elems|
        invariant Ready(pending) && Extends(old(valSymMap), valSymMap)
        invariant InitsProcessable(p, valSymMap, elems[..i])
      {
        ghost var before := valSymMap;
        UncollectedShrinks(p, old(valSymMap), valSymMap);
        assert elems[i] in elems && elems[i] < whole;
        HandleGlobalInitializerCE(elems[i], pending);
        InitsGrow(p, before, valSymMap, elems[..i]);
        assert elems[..i + 1] == elems[..i] + [elems[i]];
      }
      assert elems[..|elems|] == elems;
    }

    method CollectSym(c: Const)
      requires Ready({}) && Supported(p, c)
      modifies this
      ensures Ready({}) && Extends(old(valSymMap), valSymMap)
      ensures Handled(valSymMap, c)
    {
      Weaken(p, valSymMap, c, {});
      HandleCE(c, {});
      ghost var before := valSymMap;
      CollectVal(c, {});
      ProcessableGrows(before, valSymMap, c);
      Discharged(p, valSymMap, c, {});
    }

    // Everything that is collected afterwards, the constants met on the way included, can be processed.
    method CollectSyms(cs: seq<Const>)
      requires Ready({}) && forall c <- cs :: Supported(p, c)
      modifies this
      ensures Ready({}) && Extends(old(valSymMap), valSymMap)
      ensures AllHandled(valSymMap, cs)
      ensures forall v <- valSymMap :: ValueSettled(p, valSymMap, v)
    {
      for i := 0 to |cs|
        invariant Ready({}) && Extends(old(valSymMap), valSymMap)
        invariant AllHandled(valSymMap, cs[..i])
      {
        ghost var before := valSymMap;
        CollectSym(cs[i]);
        HandledGrow(before, valSymMap, cs[..i]);
        assert cs[..i + 1] == cs[..i] + [cs[i]];
      }
      assert cs[..|cs|] == cs;
    }
  }

  // ---------------------------------------------------------------- use

  datatype StmtKind = GepStmt | BitCast | SelectStmt | IntToPtrCopy | PtrToIntCopy | BlackHoleAddr | ConstantAddr

  // What one statement defines and what it takes its value from.
  datatype Stmt = Stmt(kind: StmtKind, from: seq<Const>, dst: Const, cond: seq<Const> := [])

  // The statements for a constant, operands first.
  function Statements(v: Const): seq<Stmt>
    decreases v
  {
    match v
    case Gep(_, base, _) => Statements(base) + [Stmt(GepStmt, [base], v)]
    case Cast(_, op) => Statements(op) + [Stmt(BitCast, [op], v)]
    case Select(cond, yes, no) => Statements(yes) + Statements(no) + [Stmt(SelectStmt, [yes, no], v, [cond])]
    case IntToPtr(_, op) => Statements(op) + [Stmt(IntToPtrCopy, [op], v)]
    case PtrToInt(_, op) => Statements(op) + [Stmt(PtrToIntCopy, [op], v)]
    case Simple(_, _, _) => [Stmt(BlackHoleAddr, [], v)]
    case BlockAddress(_, _) => [Stmt(ConstantAddr, [], v)]
    case _ => []
  }

  predicate Defined(stmts: seq<Stmt>, v: Const) {
    exists s <- stmts :: s.dst == v
  }

  predicate NeedsStatement(v: Const) {
    v.BlockAddress? || (IsConstantExpr(v) && !v.OtherExpr?)
  }

  // Every value that a statement takes is defined by an earlier one, if it needs one.
  predicate DefinedFirst(stmts: seq<Stmt>) {
    forall k, c :: 0 <= k < |stmts| && c in stmts[k].from && NeedsStatement(c) ==> Defined(stmts[..k], c)
  }

  lemma JoinedFirst(a: seq<Stmt>, b: seq<Stmt>)
    requires DefinedFirst(a) && DefinedFirst(b)
    ensures DefinedFirst(a + b)
    ensures forall v :: Defined(a, v) || Defined(b, v) ==> Defined(a + b, v)
  {
    var both := a + b;
    forall k, c | 0 <= k < |both| && c in both[k].from && NeedsStatement(c)
      ensures Defined(both[..k], c)
    {
      if k < |a| {
        assert both[..k] == a[..k];
      } else {
        assert both[..k] == a + b[..k - |a|];
      }
    }
  }

  lemma EndsFirst(a: seq<Stmt>, s: Stmt)
    requires DefinedFirst(a) && forall c <- s.from :: NeedsStatement(c) ==> Defined(a, c)
    ensures DefinedFirst(a + [s]) && Defined(a + [s], s.dst)
  {
    var all := a + [s];
    forall k, c | 0 <= k < |all| && c in all[k].from && NeedsStatement(c)
      ensures Defined(all[..k], c)
    {
      if k < |a| { assert all[..k] == a[..k]; } else { assert all[..k] == a; }
    }
    assert s in all;
  }

  lemma {:induction false} StatementsDefineFirst(v: Const)
    ensures DefinedFirst(Statements(v))
    ensures NeedsStatement(v) ==> Defined(Statements(v), v)
    decreases v
  {
    match v
    case Gep(_, base, _) =>
      StatementsDefineFirst(base);
      EndsFirst(Statements(base), Stmt(GepStmt, [base], v));
    case Cast(_, op) =>
      StatementsDefineFirst(op);
      EndsFirst(Statements(op), Stmt(BitCast, [op], v));
    case Select(cond, yes, no) =>
      StatementsDefineFirst(yes);
      StatementsDefineFirst(no);
      JoinedFirst(Statements(yes), Statements(no));
      EndsFirst(Statements(yes) + Statements(no), Stmt(SelectStmt, [yes, no], v, [cond]));
    case IntToPtr(_, op) =>
      StatementsDefineFirst(op);
      EndsFirst(Statements(op), Stmt(IntToPtrCopy, [op], v));
    case PtrToInt(_, op) =>
      StatementsDefineFirst(op);
      EndsFirst(Statements(op), Stmt(PtrToIntCopy, [op], v));
    case Simple(_, _, _) => EndsFirst([], Stmt(BlackHoleAddr, [], v));
    case BlockAddress(_, _) => EndsFirst([], Stmt(ConstantAddr, [], v));
    case _ =>
  }

  // The statement of each kind of constant, and what it takes.
  predicate IsStatement(s: Stmt) {
    match s.dst
    case Gep(_, base, _) => s == Stmt(GepStmt, [base], s.dst)
    case Cast(_, op) => s == Stmt(BitCast, [op], s.dst)
    case Select(cond, yes, no) => s == Stmt(SelectStmt, [yes, no], s.dst, [cond])
    case IntToPtr(_, op) => s == Stmt(IntToPtrCopy, [op], s.dst)
    case PtrToInt(_, op) => s == Stmt(PtrToIntCopy, [op], s.dst)
    case Simple(_, _, _) => s == Stmt(BlackHoleAddr, [], s.dst)
    case BlockAddress(_, _) => s == Stmt(ConstantAddr, [], s.dst)
    case _ => false
  }

  // x is v, or a value that a statement takes on the way to v.
  ghost predicate TakenBy(v: Const, x: Const)
    decreases v
  {
    x == v ||
    match v
    case Gep(_, base, _) => TakenBy(base, x)
    case Cast(_, op) => TakenBy(op, x)
    case Select(_, yes, no) => TakenBy(yes, x) || TakenBy(no, x)
    case IntToPtr(_, op) => TakenBy(op, x)
    case PtrToInt(_, op) => TakenBy(op, x)
    case _ => false
  }

  // The statements of a constant are those of the values taken on the way to it, each of its kind, and of
  // no others.
  lemma {:induction false} StatementsAre(v: Const)
    ensures forall s <- Statements(v) :: IsStatement(s) && TakenBy(v, s.dst)
    ensures forall x :: TakenBy(v, x) && NeedsStatement(x) ==> Defined(Statements(v), x)
    decreases v
  {
    StatementsDefineFirst(v);
    match v
    case Gep(_, base, _) => StatementsAre(base);
    case Cast(_, op) => StatementsAre(op);
    case Select(_, yes, no) =>
      StatementsAre(yes);
      StatementsAre(no);
    case IntToPtr(_, op) => StatementsAre(op);
    case PtrToInt(_, op) => StatementsAre(op);
    case _ =>
  }

  datatype Node = NullPtr | BlackHolePtr | Symbol(id: nat)

  // The source asserts that the symbol is found.
  function GetValueNode(sym: Table, v: Const): Node
    requires HasValueNode(sym, v)
  {
    if v.Null? then NullPtr else if v.Undef? then BlackHolePtr else Symbol(sym[v])
  }

  datatype Edge = Edge(kind: StmtKind, from: seq<Node>, dst: Node, cond: seq<Node> := [])

  predicate Found(sym: Table, stmts: seq<Stmt>) {
    forall s <- stmts ::
      && HasValueNode(sym, s.dst)
      && (forall c <- s.from :: HasValueNode(sym, c))
      && forall c <- s.cond :: HasValueNode(sym, c)
  }

  function Edges(sym: Table, stmts: seq<Stmt>): (r: seq<Edge>)
    requires Found(sym, stmts)
    ensures |r| == |stmts|
  {
    seq(|stmts|, k requires 0 <= k < |stmts| =>
      Edge(stmts[k].kind, Nodes(sym, stmts[k].from), GetValueNode(sym, stmts[k].dst), Nodes(sym, stmts[k].cond)))
  }

  function Nodes(sym: Table, cs: seq<Const>): seq<Node>
    requires forall c <- cs :: HasValueNode(sym, c)
  {
    seq(|cs|, k requires 0 <= k < |cs| => GetValueNode(sym, cs[k]))
  }

  lemma EdgesJoin(sym: Table, a: seq<Stmt>, b: seq<Stmt>)
    requires Found(sym, a) && Found(sym, b)
    ensures Found(sym, a + b) && Edges(sym, a + b) == Edges(sym, a) + Edges(sym, b)
  {
    assert forall s <- a + b :: s in a || s in b;
  }

  // The edges that a run of the builder appends are those of the statements.
  ghost predicate Appends(sym: Table, before: seq<Edge>, after: seq<Edge>, stmts: seq<Stmt>) {
    Found(sym, stmts) && after == before + Edges(sym, stmts)
  }

  lemma AppendsBoth(sym: Table, e0: seq<Edge>, e1: seq<Edge>, e2: seq<Edge>, a: seq<Stmt>, b: seq<Stmt>)
    requires Appends(sym, e0, e1, a) && Appends(sym, e1, e2, b)
    ensures Appends(sym, e0, e2, a + b)
  {
    EdgesJoin(sym, a, b);
  }

  class SVFIRBuilder {
    const sym: Table
    var edges: seq<Edge>
    var curVal: Option<Const>

    constructor (sym: Table)
      ensures this.sym == sym && edges == [] && curVal == None
    {
      this.sym := sym;
      edges, curVal := [], None;
    }

    // Adds one statement at the location of the constant it defines, then returns to the current location.
    method Add(kind: StmtKind, from: seq<Const>, v: Const, cond: seq<Const> := [])
      requires HasValueNode(sym, v) && forall c <- from :: HasValueNode(sym, c)
      requires forall c <- cond :: HasValueNode(sym, c)
      modifies this
      ensures curVal == old(curVal)
      ensures Appends(sym, old(edges), edges, [Stmt(kind, from, v, cond)])
    {
      var cval := curVal;
      curVal := Some(v);
      edges := edges + [Edge(kind, Nodes(sym, from), GetValueNode(sym, v), Nodes(sym, cond))];
      assert Edges(sym, [Stmt(kind, from, v, cond)]) ==
        [Edge(kind, Nodes(sym, from), GetValueNode(sym, v), Nodes(sym, cond))];
      curVal := cval;
    }

    // No lookup fails, and the current location is as before.
    method ProcessCE(v: Const)
      requires Processable(sym, v)
      modifies this
      ensures curVal == old(curVal)
      ensures Appends(sym, old(edges), edges, Statements(v))
      decreases v, 1
    {
      match v
      case Gep(_, base, indices) =>
        ProcessCE(base);
        ghost var mid := edges;
        for i := 0 to |indices| {
          var _ := GetValueNode(sym, indices[i]);
        }
        Add(GepStmt, [base], v);
        AppendsBoth(sym, old(edges), mid, edges, Statements(base), [Stmt(GepStmt, [base], v)]);
      case Cast(_, op) => ProcessWith(BitCast, op, v);
      case Select(cond, yes, no) =>
        ProcessCE(yes);
        ghost var afterYes := edges;
        ProcessCE(no);
        AppendsBoth(sym, old(edges), afterYes, edges, Statements(yes), Statements(no));
        ghost var afterNo := edges;
        var _ := GetValueNode(sym, cond);
        Add(SelectStmt, [yes, no], v, [cond]);
        AppendsBoth(sym, old(edges), afterNo, edges, Statements(yes) + Statements(no),
                    [Stmt(SelectStmt, [yes, no], v, [cond])]);
      case IntToPtr(_, op) => ProcessWith(IntToPtrCopy, op, v);
      case PtrToInt(_, op) => ProcessWith(PtrToIntCopy, op, v);
      case Simple(_, _, _) => Add(BlackHoleAddr, [], v);
      case BlockAddress(_, _) => Add(ConstantAddr, [], v);
      case _ =>
    }

    // Processes the one operand that a constant takes its value from, then adds the constant's statement.
    method ProcessWith(kind: StmtKind, op: Const, v: Const)
      requires op < v && Processable(sym, op) && HasValueNode(sym, op) && HasValueNode(sym, v)
      modifies this
      ensures curVal == old(curVal)
      ensures Appends(sym, old(edges), edges, Statements(op) + [Stmt(kind, [op], v)])
      decreases v, 0
    {
      ProcessCE(op);
      ghost var mid := edges;
      Add(kind, [op], v);
      AppendsBoth(sym, old(edges), mid, edges, Statements(op), [Stmt(kind, [op], v)]);
    }
  }
}
