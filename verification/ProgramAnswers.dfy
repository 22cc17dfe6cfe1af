/** What the three walks of type inference find on a program, kind of value by kind of value.

    The walks collect what is reachable over the edges of ValueGraph.  Here the edges and the sources are
    relations on the program, and what a value comes from is defined by them as the least relation that
    is closed under these edges.  The walks are shown to find exactly that. */
module ProgramAnswers {
  import opened Collections
  import opened Options
  import opened ValueGraph
  import opened ObjTypeInference
  import W = CacheWalk
  import Q = MemoisedQuery

  // ---------------------------------------------------------------- how values pass

  /** Some store through a place writes u. */
  ghost predicate Stored(p: Program, place: Id, u: Id) {
    exists s :: s in UsersOf(p, place) && ValueOf(p, s).Store? && ValueOf(p, s).ptr == place && ValueOf(p, s).val == u
  }

  predicate CallsDirectly(p: Program, c: Id, fun: Id) {
    ValueOf(p, c).Call? && ValueOf(p, c).callee == Some(fun)
  }

  /** Some direct call of a function passes u at a position. */
  ghost predicate PassedAt(p: Program, fun: Id, pos: nat, u: Id) {
    exists c :: c in UsersOf(p, fun) && CallsDirectly(p, c, fun)
                && pos < |ValueOf(p, c).args| && ValueOf(p, c).args[pos] == u
  }

  /** u is the operand of the return that ends a defined function. */
  predicate ReturnedBy(p: Program, callee: Option<Id>, u: Id) {
    callee.Some? && !FunOf(p, callee.value).isDeclaration && FunOf(p, callee.value).ret == Some(u)
  }

  /** The backward steps, from v to u, that both backward walks take. */
  ghost predicate StepsBack(p: Program, v: Id, u: Id) {
    match ValueOf(p, v)
    case BitCast(op) => u == op
    case Phi(ops) => u in ops
    case Load(_, ptr) => Stored(p, ptr, u)
    case Argument(fun, argNo) => PassedAt(p, fun, if FunOf(p, fun).isVarArg then 0 else argNo, u)
    case Call(_, callee, _, _, _) => ReturnedBy(p, callee, u)
    case _ => false
  }

  /** A stack, global or function object, or a call that allocates. */
  predicate Allocates(p: Program, v: Id) {
    match ValueOf(p, v)
    case Alloca(_) => true
    case Global(_) => true
    case Function(_) => true
    case Call(_, _, _, heapAlloc, _) => heapAlloc
    case _ => false
  }

  // ---------------------------------------------------------------- where a value is read again

  predicate IsLoad(p: Program, y: Id) {
    ValueOf(p, y).Load?
  }

  predicate IsGep(p: Program, g: Id) {
    ValueOf(p, g).Gep?
  }

  /** y reads through an address computation on base. */
  ghost predicate ReadVia(p: Program, base: Id, y: Id) {
    IsLoad(p, y) && exists g :: g in UsersOf(p, base) && IsGep(p, g) && y in UsersOf(p, g)
  }

  /** y does so on what a load other than base reads. */
  ghost predicate ReadViaOther(p: Program, base: Id, l: Id, y: Id) {
    match p
    case Program(_, _, _, _, _, _, _, _, _, _) => l != base && IsLoad(p, l) && ReadVia(p, l, y)
  }

  /** y reads what was stored at a place: from the place itself, or, when that is part of an object found by
      a load or on the stack, by an address computation on another load of the same pointer or on that
      stack object. */
  ghost predicate ReadBack(p: Program, place: Id, y: Id) {
    || (IsLoad(p, y) && y in UsersOf(p, place))
    || (IsGep(p, place) &&
        var base := ValueOf(p, place).ptr;
        match ValueOf(p, base)
        case Load(_, q) => exists l :: l in UsersOf(p, q) && ReadViaOther(p, base, l, y)
        case Alloca(_) => ReadVia(p, base, y)
        case _ => false)
  }

  /** y is what v becomes in the callee of a direct call: the formal at the first position of v or, in a
      variadic function, any load of its va_arg slot. */
  ghost predicate Becomes(p: Program, v: Id, fun: Id, args: seq<Id>, y: Id) {
    && v in args && !(ValueOf(p, v).Function? && v == fun)
    && if FunOf(p, fun).isVarArg then
         y in FunOf(p, fun).insts && IsLoad(p, y) && ValueOf(p, y).ptr in p.vaargNamed
       else
         !FunOf(p, fun).isDeclaration && exists k :: IsFirst(args, v, k) && IsFormal(p, fun, k, y)
  }

  predicate IsFirst(args: seq<Id>, v: Id, k: int) {
    0 <= k < |args| && args[k] == v && v !in args[..k]
  }

  predicate IsFormal(p: Program, fun: Id, k: int, y: Id) {
    0 <= k < |FunOf(p, fun).args| && FunOf(p, fun).args[k] == y
  }

  /** The forward steps: what v flows to through its user u. */
  ghost predicate FlowsThrough(p: Program, v: Id, u: Id, y: Id) {
    match ValueOf(p, u)
    case BitCast(_) => y == u
    case Phi(_) => y == u
    case Store(_, ptr, _) => ptr != v && ReadBack(p, ptr, y)
    case Return(fun) => y in UsersOf(p, fun) && CallsDirectly(p, y, fun)
    case Call(_, callee, args, _, _) => callee.Some? && Becomes(p, v, callee.value, args, y)
    case _ => false
  }

  /** A user that tells the type of what v points to: a load, a store through v, or an address
      computation on v. */
  predicate TellsType(p: Program, v: Id, u: Id) {
    match ValueOf(p, u)
    case Load(_, _) => true
    case Store(_, ptr, _) => ptr == v
    case Gep(_, ptr) => ptr == v
    case _ => false
  }

  // ---------------------------------------------------------------- sources and edges of the walks

  ghost predicate Source(k: Kind, p: Program, v: Id, s: Id) {
    match k
    case Allocs => s == v && Allocates(p, v)
    case Names =>
      (s == v && (Allocates(p, v) || v in p.clsNameSources))
      || (v in p.parents && s == p.parents[v] && s in p.clsNameSources)
    case Sites => (s == v && IsGep(p, v)) || (s in UsersOf(p, v) && TellsType(p, v, s))
  }

  ghost predicate Edge(k: Kind, p: Program, v: Id, u: Id) {
    match k
    case Allocs => !Allocates(p, v) && StepsBack(p, v, u)
    case Names => StepsBack(p, v, u) || (IsGep(p, v) && u == ValueOf(p, v).ptr)
    case Sites => exists user :: user in UsersOf(p, v) && FlowsThrough(p, v, user, u)
  }

  /** v comes from s, or is told its type by s, in at most n steps. */
  ghost predicate Finds(k: Kind, p: Program, v: Id, s: Id, n: nat)
    decreases n
  {
    Source(k, p, v, s) || (n > 0 && exists u :: Edge(k, p, v, u) && Finds(k, p, u, s, n - 1))
  }

  ghost predicate Found(k: Kind, p: Program, v: Id, s: Id) {
    match p
    case Program(_, _, _, _, _, _, _, _, _, _) => exists n :: Finds(k, p, v, s, n)
  }

  // ---------------------------------------------------------------- the edges are those of the walks

  lemma StoredIs(p: Program, place: Id, u: Id)
    requires WellFormed(p)
    ensures u in StoredValues(p, place) <==> Stored(p, place, u)
  {}

  lemma PassedIs(p: Program, fun: Id, argNo: nat, u: Id)
    requires WellFormed(p)
    ensures u in Actuals(p, fun, argNo) <==> PassedAt(p, fun, if FunOf(p, fun).isVarArg then 0 else argNo, u)
  {}

  lemma BackIs(p: Program, v: Id, u: Id)
    requires WellFormed(p)
    ensures u in AllocSteps(p, v) <==> Edge(Allocs, p, v, u)
    ensures u in NameSteps(p, v) <==> Edge(Names, p, v, u)
  {
    match ValueOf(p, v)
    case Load(_, ptr) => StoredIs(p, ptr, u);
    case Argument(fun, argNo) => PassedIs(p, fun, argNo, u);
    case _ =>
  }

  lemma ReadViaIs(p: Program, base: Id, y: Id)
    requires WellFormed(p)
    ensures y in LoadsViaGeps(p, base) <==> ReadVia(p, base, y)
  {}

  ghost predicate SomeOther(p: Program, base: Id, ls: seq<Id>, y: Id) {
    match p
    case Program(_, _, _, _, _, _, _, _, _, _) => exists l :: l in ls && ReadViaOther(p, base, l, y)
  }

  lemma SomeOtherSplit(p: Program, base: Id, ls: seq<Id>, y: Id)
    requires ls != []
    ensures SomeOther(p, base, ls, y) <==> ReadViaOther(p, base, ls[0], y) || SomeOther(p, base, ls[1..], y)
  {
    assert ls == [ls[0]] + ls[1..];
  }

  lemma {:induction false} OtherLoadsIs(p: Program, base: Id, ls: seq<Id>, y: Id)
    requires WellFormed(p)
    ensures y in LoadsViaOtherLoads(p, base, ls) <==> SomeOther(p, base, ls, y)
  {
    if ls != [] {
      OtherLoadsIs(p, base, ls[1..], y);
      FirstLoadIs(p, base, ls[0], y);
      SomeOtherSplit(p, base, ls, y);
    }
  }

  lemma FirstLoadIs(p: Program, base: Id, l: Id, y: Id)
    requires WellFormed(p)
    ensures y in When(l != base && ValueOf(p, l).Load?, LoadsViaGeps(p, l)) <==> ReadViaOther(p, base, l, y)
  {
    ReadViaIs(p, l, y);
  }

  lemma ReadBackIs(p: Program, place: Id, y: Id)
    requires WellFormed(p)
    ensures y in ReadBacks(p, place) <==> ReadBack(p, place, y)
  {
    if IsGep(p, place) {
      var base := ValueOf(p, place).ptr;
      match ValueOf(p, base)
      case Load(_, q) => OtherLoadsIs(p, base, UsersOf(p, q), y);
      case Alloca(_) => ReadViaIs(p, base, y);
      case _ =>
    }
  }

  lemma FormalsIs(p: Program, v: Id, call: Value, y: Id)
    requires WellFormed(p) && call.Call?
    ensures y in Formals(p, v, call) <==> call.callee.Some? && Becomes(p, v, call.callee.value, call.args, y)
  {
    if v in call.args {
      assert IsFirst(call.args, v, FirstIndex(call.args, v));
      forall k | IsFirst(call.args, v, k)
        ensures k == FirstIndex(call.args, v)
      {
        FirstIndexAt(call.args, k);
      }
    }
  }

  lemma FlowsIs(p: Program, v: Id, u: Id, y: Id)
    requires WellFormed(p) && u in p.values
    ensures y in SiteStepsVia(p, v, u) <==> FlowsThrough(p, v, u, y)
  {
    match ValueOf(p, u)
    case Store(_, ptr, _) => ReadBackIs(p, ptr, y);
    case Call(_, _, _, _, _) => FormalsIs(p, v, ValueOf(p, u), y);
    case _ =>
  }

  lemma {:induction false} ForwardIs(p: Program, v: Id, us: seq<Id>, y: Id)
    requires WellFormed(p) && Known(p, us)
    ensures y in SiteStepsOver(p, v, us) <==> exists u :: u in us && FlowsThrough(p, v, u, y)
  {
    if us != [] {
      assert us == [us[0]] + us[1..];
      FlowsIs(p, v, us[0], y);
      ForwardIs(p, v, us[1..], y);
    }
  }

  lemma UsersKnown(p: Program, v: Id)
    requires WellFormed(p)
    ensures Known(p, UsersOf(p, v))
  {}

  lemma EdgesAre(k: Kind, p: Program, v: Id, u: Id)
    requires WellFormed(p)
    ensures u in Steps(k, p, v) <==> Edge(k, p, v, u)
  {
    match k
    case Allocs => BackIs(p, v, u);
    case Names => BackIs(p, v, u);
    case Sites =>
      UsersKnown(p, v);
      ForwardIs(p, v, UsersOf(p, v), u);
  }

  lemma SourcesAre(k: Kind, p: Program, v: Id, s: Id)
    ensures s in Own(k, p, v) <==> Source(k, p, v, s)
  {}

  // ---------------------------------------------------------------- what the walks find

  /** A walk finds s from v exactly when s is a source of v or is found from a value next to it. */
  lemma FoundIff(k: Kind, p: Program, f: W.Flow, v: Id, s: Id)
    requires WellFormed(p) && IsFlow(k, p, f) && v in p.values
    ensures W.Exact(f, v, s) <==> Source(k, p, v, s) || exists u :: Edge(k, p, v, u) && W.Exact(f, u, s)
  {
    assert Follows(k, p, f, v);
    W.ExactIff(f, v, s);
    SourcesAre(k, p, v, s);
    forall u
      ensures u in f.next[v] <==> Edge(k, p, v, u)
    {
      EdgesAre(k, p, v, u);
    }
  }

  /** Exactly what the program's edges lead to, in any number of steps, is what a walk finds. */
  lemma FindsExactly(k: Kind, p: Program, f: W.Flow, v: Id, s: Id)
    requires WellFormed(p) && IsFlow(k, p, f) && v in p.values
    ensures W.Exact(f, v, s) <==> Found(k, p, v, s)
  {
    if W.Exact(f, v, s) {
      var w :| W.Reaches(f, v, w) && w in f.own && s in f.own[w];
      var path :| W.Connects(f, path, v, w);
      PathFinds(k, p, f, path, s);
    }
    if Found(k, p, v, s) {
      var n :| Finds(k, p, v, s, n);
      FoundIsExact(k, p, f, v, s, n);
    }
  }

  lemma {:induction false} PathFinds(k: Kind, p: Program, f: W.Flow, path: seq<Id>, s: Id)
    requires WellFormed(p) && IsFlow(k, p, f) && W.IsPath(f, path)
    requires path[|path| - 1] in f.own && s in f.own[path[|path| - 1]]
    ensures Finds(k, p, path[0], s, |path| - 1)
    decreases |path|
  {
    assert Follows(k, p, f, path[0]);
    if |path| == 1 {
      SourcesAre(k, p, path[0], s);
    } else {
      assert path[1] in f.next[path[0]] && W.IsPath(f, path[1..]);
      EdgesAre(k, p, path[0], path[1]);
      PathFinds(k, p, f, path[1..], s);
    }
  }

  lemma {:induction false} FoundIsExact(k: Kind, p: Program, f: W.Flow, v: Id, s: Id, n: nat)
    requires WellFormed(p) && IsFlow(k, p, f) && v in p.values && Finds(k, p, v, s, n)
    ensures W.Exact(f, v, s)
    decreases n
  {
    FoundIff(k, p, f, v, s);
    if !Source(k, p, v, s) {
      var u :| Edge(k, p, v, u) && Finds(k, p, u, s, n - 1);
      EdgesAre(k, p, v, u);
      assert u in p.values;
      FoundIsExact(k, p, f, u, s, n - 1);
    }
  }

  /** A query on an empty cache returns exactly that. */
  lemma FreshAnswer(k: Kind, p: Program, f: W.Flow, v: Id)
    requires WellFormed(p) && IsFlow(k, p, f) && v in p.values
    ensures W.WellFormed(f) && v in f.next && v in W.Query(f, map[], v)
    ensures forall s :: s in W.Query(f, map[], v)[v] <==> Found(k, p, v, s)
  {
    assert Follows(k, p, f, v);
    AskedFirst(f, v);
    forall s
      ensures s in W.Query(f, map[], v)[v] <==> Found(k, p, v, s)
    {
      FindsExactly(k, p, f, v, s);
    }
  }

  lemma AskedFirst(f: W.Flow, v: Id)
    requires W.WellFormed(f) && v in f.next
    ensures var c := W.Query(f, map[], v); v in c && forall s :: s in c[v] <==> W.Exact(f, v, s)
  {
    Q.QueryAnswered(f, map[], v);
    W.AnsweredExactly(f, map[], v, W.Query(f, map[], v));
  }

  // ---------------------------------------------------------------- kind by kind

  /** The allocations that a value comes from: an object is its own; the others have those of the values
      they pass on, and whatever passes on no value has none. */
  lemma AllocAnswer(p: Program, f: W.Flow, v: Id, a: Id)
    requires WellFormed(p) && IsFlow(Allocs, p, f) && v in p.values
    ensures match ValueOf(p, v)
      case Alloca(_) => W.Exact(f, v, a) <==> a == v
      case Global(_) => W.Exact(f, v, a) <==> a == v
      case Function(_) => W.Exact(f, v, a) <==> a == v
      case BitCast(op) => W.Exact(f, v, a) <==> W.Exact(f, op, a)
      case Phi(ops) => W.Exact(f, v, a) <==> exists op :: op in ops && W.Exact(f, op, a)
      case Load(_, ptr) => W.Exact(f, v, a) <==>
        exists s :: s in UsersOf(p, ptr) && StoreTo(p, s, ptr) && W.Exact(f, ValueOf(p, s).val, a)
      case Argument(fun, argNo) => W.Exact(f, v, a) <==>
        exists c :: c in UsersOf(p, fun) && Passes(p, c, fun, argNo) && W.Exact(f, Passed(p, c, fun, argNo), a)
      case Call(_, callee, _, true, _) => W.Exact(f, v, a) <==> a == v
      case Call(_, callee, _, false, _) => W.Exact(f, v, a) <==>
        callee.Some? && !FunOf(p, callee.value).isDeclaration && FunOf(p, callee.value).ret.Some?
        && W.Exact(f, FunOf(p, callee.value).ret.value, a)
      case _ => !W.Exact(f, v, a)
  {
    FoundIff(Allocs, p, f, v, a);
    match ValueOf(p, v)
    case Load(_, ptr) =>
      forall s | s in UsersOf(p, ptr) && StoreTo(p, s, ptr)
        ensures Edge(Allocs, p, v, ValueOf(p, s).val)
      {}
    case Argument(fun, argNo) =>
      forall c | c in UsersOf(p, fun) && Passes(p, c, fun, argNo)
        ensures Edge(Allocs, p, v, Passed(p, c, fun, argNo))
      {}
    case _ =>
  }

  predicate StoreTo(p: Program, s: Id, place: Id) {
    ValueOf(p, s).Store? && ValueOf(p, s).ptr == place
  }

  /** The position of the actual that stands for a formal. */
  function Position(p: Program, fun: Id, argNo: nat): nat {
    if FunOf(p, fun).isVarArg then 0 else argNo
  }

  predicate Passes(p: Program, c: Id, fun: Id, argNo: nat) {
    CallsDirectly(p, c, fun) && Position(p, fun, argNo) < |ValueOf(p, c).args|
  }

  function Passed(p: Program, c: Id, fun: Id, argNo: nat): Id
    requires Passes(p, c, fun, argNo)
  {
    ValueOf(p, c).args[Position(p, fun, argNo)]
  }

  // ---------------------------------------------------------------- the inferred type

  ghost predicate SiteOfType(p: Program, v: Id, s: Id, ty: TypeId) {
    Found(Sites, p, v, s) && HasSiteType(ValueOf(p, s)) && ValueOf(p, s).ty == ty
  }

  /** What type inference gives a value that has no declared type, when no cached entry is partial: the type
      of a site that the value flows to, and of no smaller count than that of any other such site; or, if
      it flows to none, bytes for a call that allocates and a pointer for everything else. */
  lemma InferredOnProgram(i: Inference, c0: W.Cache, v: Id, ty: TypeId)
    requires i.SitesValid() && v in i.prog.values && W.Answered(i.siteFlow, c0, v, i.valueToInferSites)
    requires W.Sound(i.siteFlow, c0) && W.AllComplete(i.siteFlow, c0)
    requires !ValueOf(i.prog, v).Alloca? && !ValueOf(i.prog, v).Global? && !ValueOf(i.prog, v).Function?
    requires i.TypeFor(v) == Some(ty)
    ensures forall s :: Found(Sites, i.prog, v, s) ==> HasSiteType(ValueOf(i.prog, s))
    ensures if exists s :: Found(Sites, i.prog, v, s) then
        (exists s :: SiteOfType(i.prog, v, s, ty)) && Dominates(i.prog, v, ty)
      else
        match ValueOf(i.prog, v)
        case Call(_, _, _, true, _) => ty == i.prog.int8Ty
        case _ => ty == i.prog.ptrTy
  {
    var p, f := i.prog, i.siteFlow;
    W.AnsweredExactly(f, c0, v, i.valueToInferSites);
    forall s
      ensures s in i.valueToInferSites[v] <==> Found(Sites, p, v, s)
    {
      FindsExactly(Sites, p, f, v, s);
    }
    assert Agree(p, i.valueToInferSites[v], i.valueToType[v]);
    SelectedOf(p, i.valueToInferSites[v], i.valueToType[v], v);
  }

  /** No site of v has a type of a larger count, as the source compares counts. */
  ghost predicate Dominates(p: Program, v: Id, ty: TypeId)
    requires WellFormed(p)
  {
    forall s, t :: SiteOfType(p, v, s, t) ==> AsSigned(ObjTyToNumFields(p, t)) <= AsSigned(ObjTyToNumFields(p, ty))
  }

  lemma SelectedOf(p: Program, sites: set<Id>, ty: Option<TypeId>, v: Id)
    requires WellFormed(p) && Agree(p, sites, ty) && forall s :: s in sites <==> Found(Sites, p, v, s)
    ensures ty == None <==> forall s :: !Found(Sites, p, v, s)
    ensures ty.Some? ==> (exists s :: SiteOfType(p, v, s, ty.value)) && Dominates(p, v, ty.value)
  {
    forall s | s in sites
      ensures SiteType(p, s) in TypesOf(p, sites)
    {}
    if ty.Some? {
      var s :| s in sites && HasSiteType(ValueOf(p, s)) && SiteType(p, s) == ty.value;
      assert SiteOfType(p, v, s, ty.value);
      forall s, t | SiteOfType(p, v, s, t)
        ensures AsSigned(ObjTyToNumFields(p, t)) <= AsSigned(ObjTyToNumFields(p, ty.value))
      {
        assert s in sites && SiteType(p, s) == t && t in TypesOf(p, sites);
      }
    }
  }
}
