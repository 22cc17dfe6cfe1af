/** The values that type inference walks over, as a finite table indexed by value id, and the edges
    that each of its three walks follows.  User lists, function bodies and the answers of name
    demangling are given data.

    A predicate that matches on a datatype with one constructor is unfolded by the solver only where
    its parts are needed. */
module ValueGraph {
  import opened Collections
  import opened Options

  type Id = nat
  type TypeId = nat

  datatype Value =
    | Alloca(ty: TypeId)
    | Global(ty: TypeId)
    | Function(ty: TypeId)
    | Argument(fun: Id, argNo: nat)
    | Load(ty: TypeId, ptr: Id)
    | Store(ty: TypeId, ptr: Id, val: Id)
    | Gep(ty: TypeId, ptr: Id)
    | BitCast(op: Id)
    | Phi(ops: seq<Id>)
    | Call(ty: TypeId, callee: Option<Id>, args: seq<Id>, heapAlloc: bool, noReturn: bool)
    | Return(fun: Id)
    | Other

  /** ret is the operand of the return instruction that ends the unique exit block, if there is one. */
  datatype FunInfo = FunInfo(isVarArg: bool, isDeclaration: bool, args: seq<Id>, ret: Option<Id>, insts: seq<Id>)

  datatype Type = ArrayTy(num: nat) | StructTy(num: nat, hasVTable: bool) | OtherTy

  datatype Program = Program(
    values: map<Id, Value>,
    users: map<Id, seq<Id>>,
    funs: map<Id, FunInfo>,
    parents: map<Id, Id>,
    vaargNamed: set<Id>,
    clsNameSources: set<Id>,
    types: map<TypeId, Type>,
    int8Ty: TypeId,
    ptrTy: TypeId,
    maxFieldLimit: nat)

  function ValueOf(p: Program, v: Id): Value {
    if v in p.values then p.values[v] else Other
  }

  /** The users of a value; a value without a use list has none. */
  function UsersOf(p: Program, v: Id): seq<Id> {
    if v in p.users then p.users[v] else []
  }

  function FunOf(p: Program, f: Id): FunInfo {
    if f in p.funs then p.funs[f] else FunInfo(false, true, [], None, [])
  }

  /** The values that a value mentions. */
  function Operands(v: Value): seq<Id> {
    match v
    case Argument(fun, _) => [fun]
    case Load(_, ptr) => [ptr]
    case Store(_, ptr, val) => [ptr, val]
    case Gep(_, ptr) => [ptr]
    case BitCast(op) => [op]
    case Phi(ops) => ops
    case Call(_, callee, args, _, _) => (if callee.Some? then [callee.value] else []) + args
    case Return(fun) => [fun]
    case _ => []
  }

  ghost predicate Known(p: Program, xs: seq<Id>) {
    forall x :: x in xs ==> x in p.values
  }

  ghost predicate WellFormed(p: Program) {
    match p
    case Program(values, users, funs, parents, _, _, types, _, _, maxFieldLimit) =>
      && (forall v :: v in values ==> Known(p, Operands(values[v])))
      && (forall v :: v in users ==> Known(p, users[v]))
      && (forall f :: f in funs ==> Known(p, funs[f].args) && Known(p, funs[f].insts)
                                    && (funs[f].ret.Some? ==> funs[f].ret.value in values))
      && (forall v :: v in parents ==> parents[v] in values)
      && (forall t :: t in types && !types[t].OtherTy? ==> types[t].num < 0x1_0000_0000)
      && maxFieldLimit < 0x1_0000_0000
  }

  function FlatMap(xs: seq<Id>, f: Id -> seq<Id>): (r: seq<Id>)
    ensures forall y :: y in r <==> exists x :: x in xs && y in f(x)
  {
    if xs == [] then [] else f(xs[0]) + FlatMap(xs[1..], f)
  }

  function When(b: bool, xs: seq<Id>): seq<Id> {
    if b then xs else []
  }

  function Loads(p: Program, xs: seq<Id>): (r: seq<Id>)
    ensures forall y :: y in r <==> y in xs && ValueOf(p, y).Load?
  {
    FlatMap(xs, x => When(ValueOf(p, x).Load?, [x]))
  }

  /** Stack, global, function or heap object. */
  predicate IsAlloc(p: Program, v: Id) {
    var x := ValueOf(p, v);
    x.Alloca? || x.Global? || x.Function? || (x.Call? && x.heapAlloc)
  }

  // ---------------------------------------------------------------- backward, to allocations

  /** The values stored to the location that a load reads. */
  function StoredValues(p: Program, ptr: Id): (r: seq<Id>)
    requires WellFormed(p)
    ensures Known(p, r)
  {
    var f := (u: Id) => var s := ValueOf(p, u); if s.Store? && s.ptr == ptr then [s.val] else [];
    assert forall u: Id, y: Id :: y in f(u) ==> y in Operands(ValueOf(p, u));
    FlatMap(UsersOf(p, ptr), f)
  }

  /** The actual arguments that direct calls pass for a formal one; a variadic function's formals all
      stand for the first actual. */
  function Actuals(p: Program, fun: Id, argNo: nat): (r: seq<Id>)
    requires WellFormed(p)
    ensures Known(p, r)
  {
    var pos := if FunOf(p, fun).isVarArg then 0 else argNo;
    var f := (u: Id) => var c := ValueOf(p, u);
      if c.Call? && c.callee == Some(fun) && pos < |c.args| then [c.args[pos]] else [];
    assert forall u: Id, y: Id :: y in f(u) ==> y in Operands(ValueOf(p, u));
    FlatMap(UsersOf(p, fun), f)
  }

  /** The value that a call to a defined function returns. */
  function Returned(p: Program, callee: Option<Id>): (r: seq<Id>)
    requires WellFormed(p)
    ensures Known(p, r)
  {
    if callee.Some? && !FunOf(p, callee.value).isDeclaration && FunOf(p, callee.value).ret.Some?
    then [FunOf(p, callee.value).ret.value]
    else []
  }

  function AllocOwn(p: Program, v: Id): set<Id> {
    if IsAlloc(p, v) then {v} else {}
  }

  function AllocSteps(p: Program, v: Id): (r: seq<Id>)
    requires WellFormed(p)
    ensures Known(p, r)
  {
    if IsAlloc(p, v) then [] else
    match ValueOf(p, v)
    case BitCast(op) => assert op in Operands(ValueOf(p, v)); [op]
    case Phi(ops) => assert ops == Operands(ValueOf(p, v)); ops
    case Load(_, ptr) => StoredValues(p, ptr)
    case Argument(fun, argNo) => Actuals(p, fun, argNo)
    case Call(_, callee, _, _, _) => Returned(p, callee)
    case _ => []
  }

  // ---------------------------------------------------------------- backward, to class names too

  function NameOwn(p: Program, v: Id): set<Id> {
    (if v in p.parents && p.parents[v] in p.clsNameSources then {p.parents[v]} else {})
    + (if IsAlloc(p, v) || v in p.clsNameSources then {v} else {})
  }

  /** Unlike the walk to allocations this one goes through address computations, and goes on from
      allocations. */
  function NameSteps(p: Program, v: Id): (r: seq<Id>)
    requires WellFormed(p)
    ensures Known(p, r)
  {
    match ValueOf(p, v)
    case Gep(_, ptr) => assert ptr in Operands(ValueOf(p, v)); [ptr]
    case BitCast(op) => assert op in Operands(ValueOf(p, v)); [op]
    case Phi(ops) => assert ops == Operands(ValueOf(p, v)); ops
    case Load(_, ptr) => StoredValues(p, ptr)
    case Argument(fun, argNo) => Actuals(p, fun, argNo)
    case Call(_, callee, _, _, _) => Returned(p, callee)
    case _ => []
  }

  // ---------------------------------------------------------------- forward, to infer sites

  /** The instructions whose types tell what v points to. */
  function SiteOwn(p: Program, v: Id): set<Id> {
    (if ValueOf(p, v).Gep? then {v} else {})
    + set u | u in UsersOf(p, v) && IsSiteOf(p, v, u)
  }

  predicate IsSiteOf(p: Program, v: Id, u: Id) {
    match ValueOf(p, u)
    case Load(_, _) => true
    case Store(_, ptr, _) => ptr == v
    case Gep(_, ptr) => ptr == v
    case _ => false
  }

  /** The loads from address computations that share a base with the one stored to. */
  function LoadsViaGeps(p: Program, base: Id): (r: seq<Id>)
    requires WellFormed(p)
    ensures Known(p, r)
  {
    FlatMap(UsersOf(p, base), g => When(ValueOf(p, g).Gep?, Loads(p, UsersOf(p, g))))
  }

  /** Where a stored value can be read back. */
  function ReadBacks(p: Program, ptr: Id): (r: seq<Id>)
    requires WellFormed(p)
    ensures Known(p, r)
  {
    Loads(p, UsersOf(p, ptr)) +
    if !ValueOf(p, ptr).Gep? then [] else
    var base := ValueOf(p, ptr).ptr;
    match ValueOf(p, base)
    case Load(_, q) =>
      LoadsViaOtherLoads(p, base, UsersOf(p, q))
    case Alloca(_) => LoadsViaGeps(p, base)
    case _ => []
  }

  function LoadsViaOtherLoads(p: Program, base: Id, ls: seq<Id>): (r: seq<Id>)
    requires WellFormed(p)
    ensures Known(p, r)
  {
    if ls == [] then [] else
    When(ls[0] != base && ValueOf(p, ls[0]).Load?, LoadsViaGeps(p, ls[0])) + LoadsViaOtherLoads(p, base, ls[1..])
  }

  /** The call sites that receive what a function returns. */
  function CallSites(p: Program, fun: Id): (r: seq<Id>)
    requires WellFormed(p)
    ensures Known(p, r)
  {
    FlatMap(UsersOf(p, fun), u => When(ValueOf(p, u).Call? && ValueOf(p, u).callee == Some(fun), [u]))
  }

  function VaargLoads(p: Program, f: Id): (r: seq<Id>)
    requires WellFormed(p)
    ensures Known(p, r)
  {
    var insts := FunOf(p, f).insts;
    assert Known(p, insts);
    FlatMap(insts, i => When(ValueOf(p, i).Load? && ValueOf(p, i).ptr in p.vaargNamed, [i]))
  }

  /** The formal that receives v at a call, or for a variadic callee every load of its va_arg slot. */
  function Formals(p: Program, v: Id, call: Value): (r: seq<Id>)
    requires WellFormed(p) && call.Call?
    ensures Known(p, r)
  {
    if v !in call.args || call.callee.None? then [] else
    var f := call.callee.value;
    if ValueOf(p, v).Function? && v == f then [] else
    var info := FunOf(p, f);
    if info.isVarArg then VaargLoads(p, f)
    else if !info.isDeclaration && FirstIndex(call.args, v) < |info.args| then
      [info.args[FirstIndex(call.args, v)]]
    else []
  }

  function SiteStepsVia(p: Program, v: Id, u: Id): (r: seq<Id>)
    requires WellFormed(p) && u in p.values
    ensures Known(p, r)
  {
    match ValueOf(p, u)
    case Store(_, ptr, _) => if ptr == v then [] else ReadBacks(p, ptr)
    case BitCast(_) => [u]
    case Phi(_) => [u]
    case Return(fun) => CallSites(p, fun)
    case Call(_, _, _, _, _) => Formals(p, v, ValueOf(p, u))
    case _ => []
  }

  function SiteStepsOver(p: Program, v: Id, us: seq<Id>): (r: seq<Id>)
    requires WellFormed(p) && Known(p, us)
    ensures Known(p, r)
  {
    if us == [] then [] else SiteStepsVia(p, v, us[0]) + SiteStepsOver(p, v, us[1..])
  }

  function SiteSteps(p: Program, v: Id): (r: seq<Id>)
    requires WellFormed(p)
    ensures Known(p, r)
  {
    SiteStepsOver(p, v, UsersOf(p, v))
  }

  // ---------------------------------------------------------------- types

  predicate HasSiteType(v: Value) {
    v.Load? || v.Store? || v.Gep? || v.Call? || v.Alloca? || v.Global? || v.Function?
  }

  /** The type that an infer site stands for. */
  function SiteType(p: Program, v: Id): TypeId
    requires HasSiteType(ValueOf(p, v))
  {
    ValueOf(p, v).ty
  }

  function ObjTyToNumFields(p: Program, ty: TypeId): (n: nat)
    requires WellFormed(p)
    ensures n < 0x1_0000_0000
  {
    if ty !in p.types then p.maxFieldLimit else
    match p.types[ty]
    case ArrayTy(num) => num
    case StructTy(num, hasVTable) => if hasVTable then p.maxFieldLimit else num
    case OtherTy => p.maxFieldLimit
  }

  /** An array counts its elements and a structure without a virtual table its fields; every other type
      counts as much as a type may. */
  lemma NumFieldsAre(p: Program, ty: TypeId, n: nat)
    requires WellFormed(p)
    ensures ty in p.types && (p.types[ty] == ArrayTy(n) || p.types[ty] == StructTy(n, false)) ==>
      ObjTyToNumFields(p, ty) == n
    ensures ty !in p.types || p.types[ty] == OtherTy || p.types[ty] == StructTy(n, true) ==>
      ObjTyToNumFields(p, ty) == p.maxFieldLimit
  {}

  /** Heap objects default to bytes, everything else to a pointer. */
  function DefaultType(p: Program, v: Id): TypeId {
    if ValueOf(p, v).Call? && ValueOf(p, v).heapAlloc then p.int8Ty else p.ptrTy
  }
}
