/** Object type inference: the persistent caches and the walks that fill them.

    A predicate that matches on a datatype with one constructor is unfolded by the solver only where
    its parts are needed. */
module ObjTypeInference {
  import opened Options
  import opened ValueGraph
  import W = CacheWalk
  import Q = MemoisedQuery

  /** The three walks.  A walk's graph holds, for every value, what it contributes and the values it
      draws on. */
  datatype Kind = Allocs | Names | Sites

  function Own(k: Kind, p: Program, v: Id): set<Id> {
    match k
    case Allocs => AllocOwn(p, v)
    case Names => NameOwn(p, v)
    case Sites => SiteOwn(p, v)
  }

  function Steps(k: Kind, p: Program, v: Id): (r: seq<Id>)
    requires WellFormed(p)
    ensures Known(p, r)
  {
    match k
    case Allocs => AllocSteps(p, v)
    case Names => NameSteps(p, v)
    case Sites => SiteSteps(p, v)
  }

  ghost predicate IsFlow(k: Kind, p: Program, f: W.Flow)
    requires WellFormed(p)
  {
    match f
    case Flow(own, _) =>
      && W.WellFormed(f)
      && own.Keys == p.values.Keys
      && forall v {:trigger Follows(k, p, f, v)} :: v in p.values ==> Follows(k, p, f, v)
  }

  ghost predicate Follows(k: Kind, p: Program, f: W.Flow, v: Id)
    requires WellFormed(p)
  {
    v in f.own && v in f.next && f.own[v] == Own(k, p, v) && f.next[v] == Steps(k, p, v)
  }

  ghost function FlowOf(k: Kind, p: Program): (f: W.Flow)
    requires WellFormed(p)
    ensures IsFlow(k, p, f)
  {
    W.Flow(map v | v in p.values :: Own(k, p, v), map v | v in p.values :: Steps(k, p, v))
  }

  /** No call on the way aborts the walk: every call returns, and a defined callee returns a value.
      The walk to allocations does not look into calls that allocate. */
  ghost predicate CallsReturn(p: Program, f: W.Flow, cached: set<Id>, v: Id, stopsAtAllocs: bool) {
    match f
    case Flow(_, _) =>
      forall w :: W.ReachesUncached(f, cached, v, w) && ValueOf(p, w).Call? && !(stopsAtAllocs && IsAlloc(p, w)) ==>
        var c := ValueOf(p, w);
        && !c.noReturn
        && (c.callee.Some? && !FunOf(p, c.callee.value).isDeclaration ==> FunOf(p, c.callee.value).ret.Some?)
  }

  // ---------------------------------------------------------------- the largest type

  /** The key order of the size table converts unsigned counts to signed ones. */
  function AsSigned(n: nat): int {
    if n < 0x8000_0000 then n else n - 0x1_0000_0000
  }

  /** r is the first type, in the order of ids, among those of the largest converted field count. */
  ghost predicate IsSelected(p: Program, tys: set<TypeId>, r: Option<TypeId>)
    requires WellFormed(p)
  {
    match r
    case None => tys == {}
    case Some(t) =>
      t in tys && forall u :: u in tys ==>
        && AsSigned(ObjTyToNumFields(p, u)) <= AsSigned(ObjTyToNumFields(p, t))
        && (ObjTyToNumFields(p, u) == ObjTyToNumFields(p, t) ==> t <= u)
  }

  lemma SelectedIsUnique(p: Program, tys: set<TypeId>, r: Option<TypeId>, q: Option<TypeId>)
    requires WellFormed(p) && IsSelected(p, tys, r) && IsSelected(p, tys, q)
    ensures r == q
  {
    if r.Some? && q.Some? {
      assert r.value in tys && q.value in tys;
    }
  }

  /** The selected type has the largest field count exactly when the counts do not straddle 2^31. */
  lemma SelectedIsLargestIff(p: Program, tys: set<TypeId>, t: TypeId)
    requires WellFormed(p) && IsSelected(p, tys, Some(t))
    ensures (forall u :: u in tys ==> ObjTyToNumFields(p, u) <= ObjTyToNumFields(p, t))
       <==> !(exists u, x :: u in tys && x in tys && ObjTyToNumFields(p, u) < 0x8000_0000 <= ObjTyToNumFields(p, x))
  {
    if u, x :| u in tys && x in tys && ObjTyToNumFields(p, u) < 0x8000_0000 <= ObjTyToNumFields(p, x) {
      assert ObjTyToNumFields(p, t) < 0x8000_0000;
    } else {
      forall u | u in tys
        ensures ObjTyToNumFields(p, u) <= ObjTyToNumFields(p, t)
      {
        assert t in tys;
      }
    }
  }

  /** Array types of one element and of 2^31 elements. */
  function TwoArrays(): (p: Program)
    ensures WellFormed(p)
  {
    Program(map[], map[], map[], map[], {}, {}, map[0 := ArrayTy(1), 1 := ArrayTy(0x8000_0000)], 2, 3, 512)
  }

  /** They straddle 2^31: the smaller one is selected. */
  lemma SmallerIsSelected()
    ensures IsSelected(TwoArrays(), {0, 1}, Some(0))
    ensures ObjTyToNumFields(TwoArrays(), 0) < ObjTyToNumFields(TwoArrays(), 1)
  {
    assert AsSigned(0x8000_0000) < 0 < AsSigned(1);
  }

  method SelectLargestSizedType(p: Program, tys: set<TypeId>) returns (r: Option<TypeId>)
    requires WellFormed(p)
    ensures IsSelected(p, tys, r)
  {
    if tys == {} { return None; }
    var bySize: map<nat, set<TypeId>> := map[];
    var rest := tys;
    while rest != {}
      invariant rest <= tys
      invariant forall n :: n in bySize ==> bySize[n] != {}
      invariant forall n, t :: n in bySize && t in bySize[n] ==> t in tys && ObjTyToNumFields(p, t) == n
      invariant forall t :: t in tys && t !in rest ==>
                  ObjTyToNumFields(p, t) in bySize && t in bySize[ObjTyToNumFields(p, t)]
      decreases rest
    {
      var t :| t in rest;
      var n := ObjTyToNumFields(p, t);
      bySize := bySize[n := (if n in bySize then bySize[n] else {}) + {t}];
      rest := rest - {t};
    }
    var any :| any in tys;
    var n := FirstKey(bySize, ObjTyToNumFields(p, any));
    var t := FirstElement(bySize[n]);
    return Some(t);
  }

  method FirstKey(m: map<nat, set<TypeId>>, start: nat) returns (n: nat)
    requires start in m
    ensures n in m && forall k :: k in m ==> AsSigned(k) <= AsSigned(n)
  {
    n := start;
    var rest := m.Keys;
    while rest != {}
      invariant rest <= m.Keys && n in m
      invariant forall k :: k in m && k !in rest ==> AsSigned(k) <= AsSigned(n)
      decreases rest
    {
      var k :| k in rest;
      if AsSigned(n) < AsSigned(k) { n := k; }
      rest := rest - {k};
    }
  }

  method FirstElement(s: set<TypeId>) returns (t: TypeId)
    requires s != {}
    ensures t in s && forall u :: u in s ==> t <= u
  {
    t :| t in s;
    var rest := s;
    while rest != {}
      invariant rest <= s && t in s
      invariant forall u :: u in s && u !in rest ==> t <= u
      decreases rest
    {
      var u :| u in rest;
      if u < t { t := u; }
      rest := rest - {u};
    }
  }

  // ---------------------------------------------------------------- what the caches hold

  /** The cache c of a walk holds only what is reachable from its keys. */
  ghost predicate Holds(k: Kind, p: Program, f: W.Flow, c: W.Cache) {
    match f
    case Flow(_, _) => WellFormed(p) && IsFlow(k, p, f) && W.Sound(f, c)
  }

  type Types = map<Id, Option<TypeId>>

  function TypesOf(p: Program, sites: set<Id>): set<TypeId>
    requires WellFormed(p)
  {
    set s | s in sites && HasSiteType(ValueOf(p, s)) :: SiteType(p, s)
  }

  /** The caches of the forward walk have one domain, and each type is selected from the types of the
      cached sites. */
  ghost predicate TypesAgree(p: Program, sites: W.Cache, types: Types) {
    match p
    case Program(_, _, _, _, _, _, _, _, _, _) =>
      WellFormed(p) && sites.Keys == types.Keys && forall v :: v in sites ==> Agree(p, sites[v], types[v])
  }

  ghost predicate Agree(p: Program, sites: set<Id>, ty: Option<TypeId>)
    requires WellFormed(p)
  {
    (forall s :: s in sites ==> HasSiteType(ValueOf(p, s))) && IsSelected(p, TypesOf(p, sites), ty)
  }

  ghost predicate AreValues(p: Program, vs: set<Id>) {
    match p
    case Program(values, _, _, _, _, _, _, _, _, _) => vs <= values.Keys
  }

  /** No type recorded before has changed. */
  ghost predicate TypesKept(types0: Types, types: Types) {
    forall u :: u in types0 ==> u in types && types[u] == types0[u]
  }

  // ---------------------------------------------------------------- the inference object

  class Inference {
    const prog: Program
    ghost const allocFlow: W.Flow
    ghost const nameFlow: W.Flow
    ghost const siteFlow: W.Flow
    var valueToInferSites: W.Cache
    var valueToType: map<Id, Option<TypeId>>
    var valueToAllocs: W.Cache
    var valueToNameSources: W.Cache

    /** Each cache holds only what is reachable from its keys; the two caches of the forward walk
        agree with each other. */
    ghost predicate AllocsValid()
      reads this`valueToAllocs
    {
      Holds(Allocs, prog, allocFlow, valueToAllocs)
    }

    ghost predicate NamesValid()
      reads this`valueToNameSources
    {
      Holds(Names, prog, nameFlow, valueToNameSources)
    }

    ghost predicate SitesValid()
      reads this`valueToInferSites, this`valueToType
    {
      Holds(Sites, prog, siteFlow, valueToInferSites) && TypesAgree(prog, valueToInferSites, valueToType)
    }

    constructor (p: Program)
      requires WellFormed(p)
      ensures AllocsValid() && NamesValid() && SitesValid() && prog == p
      ensures valueToAllocs == valueToNameSources == valueToInferSites == map[] && valueToType == map[]
    {
      prog := p;
      allocFlow, nameFlow, siteFlow := FlowOf(Allocs, p), FlowOf(Names, p), FlowOf(Sites, p);
      valueToInferSites, valueToType, valueToAllocs, valueToNameSources := map[], map[], map[], map[];
    }

    /** Collect the allocation sites that v may come from.  On a cache with exact entries only, the
        answer is exactly the set of allocations reachable through the backward edges, on cycles
        too; on any other cache it is exactly what Answer says. */
    method BwFindAllocOfVar(v: Id) returns (r: set<Id>)
      requires AllocsValid() && v in prog.values && CallsReturn(prog, allocFlow, valueToAllocs.Keys, v, true)
      modifies this`valueToAllocs
      ensures AllocsValid()
      ensures valueToAllocs == W.Query(allocFlow, old(valueToAllocs), v)
      ensures W.Answered(allocFlow, old(valueToAllocs), v, valueToAllocs)
      ensures r == valueToAllocs[v]
    {
      if v in valueToAllocs {
        Q.AlreadyAnswered(allocFlow, valueToAllocs, v);
        return valueToAllocs[v];
      }
      ghost var f, c0 := allocFlow, valueToAllocs;
      var stack, visited: set<W.Entry> := [(v, false)], {};
      ghost var w := Q.Starts(f, c0, v);
      while stack != []
        invariant Q.Walking(f, c0, v, w, W.State(valueToAllocs, visited, stack))
        decreases W.States(f) - visited, |stack|
      {
        var cur := stack[|stack| - 1].0;
        Q.TopIsValue(f, c0, v, w, W.State(valueToAllocs, visited, stack));
        assert Follows(Allocs, prog, f, cur);
        valueToAllocs, visited, stack, w :=
          Q.Step(f, c0, v, w, valueToAllocs, visited, stack, Own(Allocs, prog, cur), Steps(Allocs, prog, cur));
      }
      Q.Walked(f, c0, v, w, W.State(valueToAllocs, visited, stack));
      return valueToAllocs[v];
    }

    /** Collect the allocation sites and the functions and calls that can name a class, in the same
        way. */
    method BwFindAllocOrClsNameSources(v: Id) returns (r: set<Id>)
      requires NamesValid() && v in prog.values
      requires CallsReturn(prog, nameFlow, valueToNameSources.Keys, v, false)
      modifies this`valueToNameSources
      ensures NamesValid()
      ensures valueToNameSources == W.Query(nameFlow, old(valueToNameSources), v)
      ensures W.Answered(nameFlow, old(valueToNameSources), v, valueToNameSources)
      ensures r == valueToNameSources[v]
    {
      if v in valueToNameSources {
        Q.AlreadyAnswered(nameFlow, valueToNameSources, v);
        return valueToNameSources[v];
      }
      ghost var f, c0 := nameFlow, valueToNameSources;
      var stack, visited: set<W.Entry> := [(v, false)], {};
      ghost var w := Q.Starts(f, c0, v);
      while stack != []
        invariant Q.Walking(f, c0, v, w, W.State(valueToNameSources, visited, stack))
        decreases W.States(f) - visited, |stack|
      {
        var cur := stack[|stack| - 1].0;
        Q.TopIsValue(f, c0, v, w, W.State(valueToNameSources, visited, stack));
        assert Follows(Names, prog, f, cur);
        valueToNameSources, visited, stack, w :=
          Q.Step(f, c0, v, w, valueToNameSources, visited, stack, Own(Names, prog, cur), Steps(Names, prog, cur));
      }
      Q.Walked(f, c0, v, w, W.State(valueToNameSources, visited, stack));
      return valueToNameSources[v];
    }

    /** The type known for an object, declared or cached. */
    ghost function TypeFor(v: Id): Option<TypeId>
      reads this`valueToType
    {
      match ValueOf(prog, v)
      case Alloca(ty) => Some(ty)
      case Global(ty) => Some(ty)
      case Function(ty) => Some(ty)
      case _ => if v in valueToType then Some(valueToType[v].GetOr(DefaultType(prog, v))) else None
    }

    /** Infer the type of an object from the instructions that use it.  The answer is selected from
        the types of the sites cached for v; on caches with exact entries only, those are exactly the
        sites reachable from v. */
    method FwInferObjType(v: Id) returns (ty: TypeId)
      requires SitesValid() && v in prog.values
      modifies this`valueToInferSites, this`valueToType
      ensures SitesValid()
      ensures TypeFor(v) == Some(ty)
      ensures forall u :: old(TypeFor(u)).Some? ==> TypeFor(u) == old(TypeFor(u))
      ensures var x := ValueOf(prog, v);
        if x.Alloca? || x.Global? || x.Function? then
          valueToInferSites == old(valueToInferSites) && valueToType == old(valueToType)
        else
          valueToInferSites == W.Query(siteFlow, old(valueToInferSites), v)
          && W.Answered(siteFlow, old(valueToInferSites), v, valueToInferSites)
    {
      var x := prog.values[v];
      if x.Alloca? || x.Global? || x.Function? { return SiteType(prog, v); }
      if v in valueToType {
        Q.AlreadyAnswered(siteFlow, valueToInferSites, v);
        return valueToType[v].GetOr(DefaultType(prog, v));
      }
      valueToInferSites, valueToType := InferSites(v, valueToInferSites, valueToType);
      return valueToType[v].GetOr(DefaultType(prog, v));
    }

    /** The objects whose types InferPointsToType compares. */
    ghost function Sources(v: Id): set<Id>
      reads this`valueToAllocs
    {
      if v in valueToAllocs && valueToAllocs[v] != {} then valueToAllocs[v] else {v}
    }

    /** ty is the type of one of the objects, and none has more fields, as far as the converted
        counts tell. */
    ghost predicate IsLargestOf(objects: set<Id>, ty: TypeId)
      requires WellFormed(prog)
      reads this`valueToType
    {
      match prog
      case Program(_, _, _, _, _, _, _, _, _, _) =>
        && (exists s :: s in objects && TypeFor(s) == Some(ty))
        && forall s :: s in objects ==>
             TypeFor(s).Some?
             && AsSigned(ObjTyToNumFields(prog, TypeFor(s).value)) <= AsSigned(ObjTyToNumFields(prog, ty))
    }

    /** The type of what v points to: the largest of the types of the objects it may come from, or of
        what its own uses tell when no object is found. */
    method InferPointsToType(v: Id) returns (ty: TypeId)
      requires AllocsValid() && SitesValid() && v in prog.values
      requires !IsAlloc(prog, v) ==> CallsReturn(prog, allocFlow, valueToAllocs.Keys, v, true)
      modifies this`valueToAllocs, this`valueToInferSites, this`valueToType
      ensures AllocsValid() && SitesValid()
      ensures IsAlloc(prog, v) ==> IsLargestOf({v}, ty) && valueToAllocs == old(valueToAllocs)
      ensures !IsAlloc(prog, v) ==>
        IsLargestOf(Sources(v), ty) && W.Answered(allocFlow, old(valueToAllocs), v, valueToAllocs)
    {
      if IsAlloc(prog, v) {
        ty := InferAllocType(v);
        return;
      }
      ty := InferFromSources(v);
      Q.QueryAnswered(allocFlow, old(valueToAllocs), v);
    }

    method InferFromSources(v: Id) returns (ty: TypeId)
      requires AllocsValid() && SitesValid() && v in prog.values
      requires CallsReturn(prog, allocFlow, valueToAllocs.Keys, v, true)
      modifies this`valueToAllocs, this`valueToInferSites, this`valueToType
      ensures AllocsValid() && SitesValid() && IsLargestOf(Sources(v), ty)
      ensures v in allocFlow.next && valueToAllocs == W.Query(allocFlow, old(valueToAllocs), v)
    {
      var sources := FindSources(v);
      ty := InferLargest(sources);
    }

    method InferAllocType(v: Id) returns (ty: TypeId)
      requires SitesValid() && v in prog.values
      modifies this`valueToInferSites, this`valueToType
      ensures SitesValid() && IsLargestOf({v}, ty)
    {
      ty := FwInferObjType(v);
      assert v in {v};
    }

    method InferLargest(sources: set<Id>) returns (ty: TypeId)
      requires SitesValid() && sources != {} && AreValues(prog, sources)
      modifies this`valueToInferSites, this`valueToType
      ensures SitesValid() && IsLargestOf(sources, ty)
    {
      var types := InferAll(sources);
      var any :| any in sources;
      assert TypeFor(any).value in types;
      var largest := SelectLargestSizedType(prog, types);
      return largest.value;
    }

    method FindSources(v: Id) returns (sources: set<Id>)
      requires AllocsValid() && v in prog.values && CallsReturn(prog, allocFlow, valueToAllocs.Keys, v, true)
      modifies this`valueToAllocs
      ensures AllocsValid()
      ensures sources == Sources(v) && sources != {} && AreValues(prog, sources)
      ensures v in allocFlow.next && valueToAllocs == W.Query(allocFlow, old(valueToAllocs), v)
    {
      sources := BwFindAllocOfVar(v);
      AllocsAreValues(prog, allocFlow, valueToAllocs, v);
      if sources == {} { sources := {v}; }
    }

    method InferAll(sources: set<Id>) returns (types: set<TypeId>)
      requires SitesValid() && AreValues(prog, sources)
      modifies this`valueToInferSites, this`valueToType
      ensures SitesValid()
      ensures forall s :: s in sources ==> TypeFor(s).Some? && TypeFor(s).value in types
      ensures forall t :: t in types ==> exists s :: s in sources && TypeFor(s) == Some(t)
    {
      types := {};
      var rest := sources;
      while rest != {}
        invariant SitesValid() && rest <= sources
        invariant forall s :: s in sources && s !in rest ==> TypeFor(s).Some? && TypeFor(s).value in types
        invariant forall t :: t in types ==> exists s :: s in sources && s !in rest && TypeFor(s) == Some(t)
        decreases rest
      {
        var s :| s in rest;
        var ty := FwInferObjType(s);
        rest := rest - {s};
        types := types + {ty};
      }
    }

    /** The forward walk: whenever a value is closed its type is selected too. */
    method InferSites(v: Id, sites0: W.Cache, types0: Types) returns (sites: W.Cache, types: Types)
      requires Holds(Sites, prog, siteFlow, sites0) && TypesAgree(prog, sites0, types0)
      requires v in prog.values && v !in sites0
      ensures sites == W.Query(siteFlow, sites0, v)
      ensures W.Answered(siteFlow, sites0, v, sites) && Holds(Sites, prog, siteFlow, sites)
      ensures TypesAgree(prog, sites, types) && TypesKept(types0, types)
    {
      sites, types := sites0, types0;
      var stack, visited: set<W.Entry> := [(v, false)], {};
      ghost var w := Q.Starts(siteFlow, sites0, v);
      while stack != []
        invariant Q.Walking(siteFlow, sites0, v, w, W.State(sites, visited, stack))
        invariant TypesAgree(prog, sites, types) && TypesKept(types0, types)
        decreases W.States(siteFlow) - visited, |stack|
      {
        var cur, closes := stack[|stack| - 1].0, stack[|stack| - 1] !in visited && stack[|stack| - 1].1;
        Q.TopIsValue(siteFlow, sites0, v, w, W.State(sites, visited, stack));
        assert Follows(Sites, prog, siteFlow, cur);
        ghost var before := sites;
        sites, visited, stack, w :=
          Q.Step(siteFlow, sites0, v, w, sites, visited, stack, Own(Sites, prog, cur), Steps(Sites, prog, cur));
        if closes {
          Q.StillSound(siteFlow, sites0, v, w, W.State(sites, visited, stack));
          types := Record(types0, before, types, sites, cur);
        }
      }
      Q.Walked(siteFlow, sites0, v, w, W.State(sites, visited, stack));
    }

    /** Record the type of a value that was just closed. */
    method Record(ghost types0: Types, ghost sites: W.Cache, types: Types, sites': W.Cache, v: Id)
      returns (types': Types)
      requires Holds(Sites, prog, siteFlow, sites')
      requires TypesAgree(prog, sites, types) && TypesKept(types0, types)
      requires v !in sites && v in sites' && sites' == sites[v := sites'[v]]
      ensures TypesAgree(prog, sites', types') && TypesKept(types0, types')
    {
      SitesHaveTypes(prog, siteFlow, sites', v);
      var ty := SelectLargestSizedType(prog, TypesOf(prog, sites'[v]));
      types' := types[v := ty];
    }
  }

  /** Whatever is cached as an infer site is an instruction with a type. */
  lemma SitesHaveTypes(p: Program, f: W.Flow, c: W.Cache, v: Id)
    requires WellFormed(p) && IsFlow(Sites, p, f) && W.Sound(f, c) && v in c
    ensures forall s :: s in c[v] ==> HasSiteType(ValueOf(p, s))
  {
    forall s | s in c[v]
      ensures HasSiteType(ValueOf(p, s))
    {
      assert W.Exact(f, v, s);
      var w := W.ExactHasSource(f, v, s);
      assert Follows(Sites, p, f, w);
    }
  }

  lemma AllocsAreValues(p: Program, f: W.Flow, c: W.Cache, v: Id)
    requires WellFormed(p) && IsFlow(Allocs, p, f) && W.Sound(f, c) && v in c
    ensures AreValues(p, c[v]) && forall s :: s in c[v] ==> IsAlloc(p, s)
  {
    forall s | s in c[v]
      ensures s in p.values && IsAlloc(p, s)
    {
      assert W.Exact(f, v, s);
      var w := W.ExactHasSource(f, v, s);
      assert Follows(Allocs, p, f, w);
    }
  }

  /** The type selected for a set of sites has at least as many fields as each of them. */
  lemma SelectedIsLargest(p: Program, sites: set<Id>, ty: Option<TypeId>, s: Id)
    requires WellFormed(p) && Agree(p, sites, ty) && s in sites
    requires forall u :: u in sites ==> ObjTyToNumFields(p, SiteType(p, u)) < 0x8000_0000
    ensures ty.Some? && ObjTyToNumFields(p, SiteType(p, s)) <= ObjTyToNumFields(p, ty.value)
  {
    assert SiteType(p, s) in TypesOf(p, sites);
    var u :| u in sites && HasSiteType(ValueOf(p, u)) && SiteType(p, u) == ty.value;
  }

  /** The type inferred on caches with exact entries only, such as empty ones, is at least as large as
      every infer site reachable from the queried value, for field counts below 2^31. */
  lemma InferredIsLargest(i: Inference, c0: W.Cache, v: Id, s: Id)
    requires i.SitesValid() && v in i.prog.values && W.Answered(i.siteFlow, c0, v, i.valueToInferSites)
    requires W.Sound(i.siteFlow, c0) && W.AllComplete(i.siteFlow, c0)
    requires forall u :: W.Exact(i.siteFlow, v, u) && HasSiteType(ValueOf(i.prog, u)) ==>
               ObjTyToNumFields(i.prog, SiteType(i.prog, u)) < 0x8000_0000
    requires W.Exact(i.siteFlow, v, s)
    ensures v in i.valueToType && i.valueToType[v].Some? && HasSiteType(ValueOf(i.prog, s))
    ensures ObjTyToNumFields(i.prog, SiteType(i.prog, s)) <= ObjTyToNumFields(i.prog, i.valueToType[v].value)
  {
    W.AnsweredExactly(i.siteFlow, c0, v, i.valueToInferSites);
    assert Agree(i.prog, i.valueToInferSites[v], i.valueToType[v]);
    SelectedIsLargest(i.prog, i.valueToInferSites[v], i.valueToType[v], s);
  }
}
