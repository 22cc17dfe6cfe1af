/** Writing a global's initialiser: which constant is stored at which flattened position, and by which
    edges.

    A predicate that matches on a datatype with one constructor, or on a number with one case, is
    unfolded by the solver only where its parts are needed. */
module GlobalInit {
  import opened Flattening
  import opened TypeInfo
  import opened GepOffset

  /** What the source tells apart among constants that are written as a whole: Address stands for global
      variables, functions and aliases. */
  datatype Kind = Address | Expression | BlockAddress | Plain(isPointer: bool, isNull: bool)

  /** Aggregate stands for constant arrays and structs, Data for packed sequences of scalars, and Blank
      for zero and undefined aggregates. */
  datatype Constant =
    | Single(ty: Type, name: nat, kind: Kind)
    | Aggregate(ty: Type, ops: seq<Constant>)
    | Data(ty: Type, ops: seq<Constant>)
    | Blank(ty: Type)

  /** The constant of an array of length zero is a zero or an undefined aggregate. */
  ghost predicate WellTyped(c: Constant) {
    match c
    case Single(ty, _, _) => IsSingleValue(ty)
    case Blank(ty) => !IsSimple(ty)
    case Aggregate(ty, ops) =>
      |ops| == MemberCount(ty) && !IsLeaf(ty)
      && forall i :: 0 <= i < |ops| ==> ops[i].ty == Member(ty, i) && WellTyped(ops[i])
    case Data(ty, ops) =>
      |ops| == MemberCount(ty) && ty.ArrayT? && ty.elem.Scalar? && !IsLeaf(ty)
      && forall i :: 0 <= i < |ops| ==> ops[i].ty == ty.elem && ops[i].Single?
  }

  function MemberCount(t: Type): nat {
    match t
    case ArrayT(len, _) => len
    case StructT(_, fields) => |fields|
    case _ => 0
  }

  /** The index of every member can be looked up. */
  ghost predicate Writable(c: Constant) {
    match c
    case Single(_, _, _) => true
    case Blank(_) => true
    case Aggregate(ty, ops) => forall i :: 0 <= i < |ops| ==> HasRecord(ty, i) && Writable(ops[i])
    case Data(ty, ops) => forall i :: 0 <= i < |ops| ==> HasRecord(ty, i)
  }

  /** Every scalar of the initialiser is written out. */
  ghost predicate Explicit(c: Constant) {
    match c
    case Single(_, _, _) => true
    case Blank(_) => false
    case Aggregate(_, ops) => forall i :: 0 <= i < |ops| ==> Explicit(ops[i])
    case Data(_, _) => true
  }

  /** The scalars of an initialiser from left to right. */
  ghost function Leaves(c: Constant): seq<Constant> {
    match c
    case Single(_, _, _) => [c]
    case Blank(_) => []
    case Aggregate(_, ops) => LeavesOf(ops)
    case Data(_, ops) => ops
  }

  ghost function LeavesOf(cs: seq<Constant>): seq<Constant> {
    if cs == [] then [] else LeavesOf(cs[..|cs| - 1]) + Leaves(cs[|cs| - 1])
  }

  type Store = (nat, Constant)

  /** Consecutive positions from off. */
  ghost function Consecutive(cs: seq<Constant>, off: nat): seq<Store> {
    seq(|cs|, i requires 0 <= i < |cs| => (off + i, cs[i]))
  }

  lemma ConsecutiveJoin(a: seq<Constant>, b: seq<Constant>, off: nat)
    ensures Consecutive(a + b, off) == Consecutive(a, off) + Consecutive(b, off + |a|)
  {
  }

  // ---------------------------------------------------------------- what is written

  /** The stores for an initialiser at an offset, when packed constants are modelled or not. */
  ghost function Stores(c: Constant, off: nat, models: bool): seq<Store>
    requires WellTyped(c) && Writable(c)
    decreases c
  {
    match c
    case Single(_, _, _) => [(off, c)]
    case Blank(_) => []
    case Aggregate(ty, ops) => StoresTo(c, |ops|, off, models)
    case Data(ty, ops) => if models then StoresTo(c, |ops|, off, models) else []
  }

  ghost function StoresTo(c: Constant, n: nat, off: nat, models: bool): seq<Store>
    requires (c.Aggregate? || c.Data?) && WellTyped(c) && Writable(c) && n <= |c.ops|
    decreases c, n
  {
    if n == 0 then [] else
    StoresTo(c, n - 1, off, models) + Stores(c.ops[n - 1], off + RecordedAt(c.ty, n - 1), models)
  }

  ghost function StoresOfMember(c: Constant, i: nat, off: nat, models: bool): seq<Store>
    requires (c.Aggregate? || c.Data?) && WellTyped(c) && Writable(c) && i < |c.ops|
  {
    Stores(c.ops[i], off + RecordedAt(c.ty, i), models)
  }

  lemma StoresToNext(c: Constant, i: nat, off: nat, models: bool, before: seq<Store>)
    requires (c.Aggregate? || c.Data?) && WellTyped(c) && Writable(c) && i < |c.ops|
    ensures before + StoresTo(c, i + 1, off, models)
         == before + StoresTo(c, i, off, models) + StoresOfMember(c, i, off, models)
  {}

  /** What is written when aggregates are skipped because the global is a virtual table. */
  ghost function Written(c: Constant, off: nat, models: bool, skips: bool): seq<Store>
    requires WellTyped(c) && (Writable(c) || (skips && c.Aggregate?))
  {
    if skips && c.Aggregate? then [] else Stores(c, off, models)
  }

  lemma PartsTyped(c: Constant, i: nat)
    requires (c.Aggregate? || c.Data?) && WellTyped(c) && i < |c.ops|
    ensures HasMember(c.ty, i) && c.ops[i].ty == Member(c.ty, i) && WellTyped(c.ops[i])
    ensures Writable(c) ==> HasRecord(c.ty, i) && Writable(c.ops[i])
  {}

  // ---------------------------------------------------------------- where it is written

  /** The stores go to ascending positions in [off, off + n), and each writes a scalar of the type that
      the flattened sequence has there. */
  ghost predicate Placed(stores: seq<Store>, flat: seq<Type>, off: nat, n: nat) {
    && n <= |flat|
    && (forall k :: 0 <= k < |stores| ==> IsPlaced(stores[k], flat, off, n))
    && (forall i, j :: 0 <= i < j < |stores| ==> stores[i].0 < stores[j].0)
  }

  ghost predicate IsPlaced(s: Store, flat: seq<Type>, off: nat, n: nat)
    requires n <= |flat|
  {
    off <= s.0 < off + n && s.1.Single? && flat[s.0 - off] == s.1.ty
  }

  /** No two parts of an initialiser are stored to one place, and each goes where its type lies. */
  lemma {:induction false} StoresArePlaced(c: Constant, off: nat, models: bool)
    requires WellTyped(c) && Writable(c)
    ensures Placed(Stores(c, off, models), Flat(c.ty), off, |Flat(c.ty)|)
    decreases c, 2
  {
    if c.Aggregate? || (c.Data? && models) {
      StoresToArePlaced(c, |c.ops|, off, models);
      AllMembers(c.ty);
    }
  }

  lemma {:induction false} StoresToArePlaced(c: Constant, n: nat, off: nat, models: bool)
    requires (c.Aggregate? || c.Data?) && WellTyped(c) && Writable(c) && n <= |c.ops|
    ensures !IsSimple(c.ty) && n <= MemberCount(c.ty)
    ensures Placed(StoresTo(c, n, off, models), Flat(c.ty), off, Before(c.ty, n))
    decreases c, 1, n
  {
    if n > 0 {
      PartsTyped(c, n - 1);
      StoresToArePlaced(c, n - 1, off, models);
      MemberIsPlaced(c, n - 1, off, models);
    } else {
      NoneBefore(c.ty);
    }
  }

  lemma MemberIsPlaced(c: Constant, i: nat, off: nat, models: bool)
    requires (c.Aggregate? || c.Data?) && WellTyped(c) && Writable(c) && i < |c.ops|
    requires !IsSimple(c.ty) && i < MemberCount(c.ty)
    requires Placed(StoresTo(c, i, off, models), Flat(c.ty), off, Before(c.ty, i))
    ensures Placed(StoresTo(c, i + 1, off, models), Flat(c.ty), off, Before(c.ty, i + 1))
    decreases c, 0
  {
    PartsTyped(c, i);
    BeforeNext(c.ty, i);
    MemberAt(c.ty, i);
    StoresArePlaced(c.ops[i], off + RecordedAt(c.ty, i), models);
    PlacedThen(StoresTo(c, i, off, models), StoresOfMember(c, i, off, models),
               Flat(c.ty), Flat(c.ops[i].ty), off, Before(c.ty, i));
  }

  lemma PlacedThen(a: seq<Store>, b: seq<Store>, flat: seq<Type>, part: seq<Type>, off: nat, n: nat)
    requires Placed(a, flat, off, n) && Placed(b, part, off + n, |part|) && LiesAt(flat, part, n)
    ensures Placed(a + b, flat, off, n + |part|)
  {
    forall k | 0 <= k < |b|
      ensures IsPlaced(b[k], flat, off, n + |part|)
    {
      assert IsPlaced(b[k], part, off + n, |part|);
      assert flat[n..n + |part|][b[k].0 - off - n] == flat[b[k].0 - off];
    }
  }

  /** A fully explicit initialiser written at an offset stores its scalars at the consecutive positions
      from there, each once and in order, and there are as many as the type has flattened elements. */
  lemma {:induction false} StoresAreConsecutive(c: Constant, off: nat)
    requires WellTyped(c) && Explicit(c)
    ensures Writable(c) && Stores(c, off, true) == Consecutive(Leaves(c), off)
    ensures |Leaves(c)| == |Flat(c.ty)|
    decreases c, 2
  {
    ExplicitIsWritable(c);
    match c
    case Single(_, _, _) =>
    case Aggregate(ty, ops) =>
      StoresToAreConsecutive(c, |ops|, off);
      assert ops[..|ops|] == ops;
      AllMembers(ty);
    case Data(ty, ops) =>
      StoresToAreConsecutive(c, |ops|, off);
      assert ops[..|ops|] == ops;
      AllMembers(ty);
      LeavesOfSingles(ops);
  }

  /** An array whose elements are all written out is not empty. */
  lemma {:induction false} ExplicitTotal(c: Constant)
    requires WellTyped(c) && Explicit(c)
    ensures c.ty.ArrayT? ==> Total(c.ty) > 0
    decreases c
  {
    if c.ty.ArrayT? && c.ty.elem.ArrayT? {
      ExplicitTotal(c.ops[0]);
    }
  }

  lemma {:induction false} ExplicitIsWritable(c: Constant)
    requires WellTyped(c) && Explicit(c)
    ensures Writable(c)
    decreases c
  {
    ExplicitTotal(c);
    match c
    case Aggregate(_, ops) =>
      forall i | 0 <= i < |ops|
        ensures HasRecord(c.ty, i) && Writable(ops[i])
      {
        ExplicitIsWritable(ops[i]);
      }
    case _ =>
  }

  lemma {:induction false} StoresToAreConsecutive(c: Constant, n: nat, off: nat)
    requires (c.Aggregate? || c.Data?) && WellTyped(c) && Writable(c) && Explicit(c) && n <= |c.ops|
    ensures n <= MemberCount(c.ty) && !IsSimple(c.ty)
    ensures StoresTo(c, n, off, true) == Consecutive(LeavesOf(c.ops[..n]), off)
    ensures |LeavesOf(c.ops[..n])| == Before(c.ty, n)
    decreases c, 1, n
  {
    if n > 0 {
      var i := n - 1;
      StoresToAreConsecutive(c, i, off);
      MemberStores(c, i, off);
      LeavesOfNext(c.ops, i);
      ConsecutiveJoin(LeavesOf(c.ops[..i]), Leaves(c.ops[i]), off);
    }
  }

  lemma MemberStores(c: Constant, i: nat, off: nat)
    requires (c.Aggregate? || c.Data?) && WellTyped(c) && Writable(c) && Explicit(c) && i < |c.ops|
    ensures HasMember(c.ty, i) && !IsSimple(c.ty) && i < MemberCount(c.ty)
    ensures StoresOfMember(c, i, off, true) == Consecutive(Leaves(c.ops[i]), off + Before(c.ty, i))
    ensures Before(c.ty, i + 1) == Before(c.ty, i) + |Leaves(c.ops[i])|
    decreases c, 0
  {
    PartsTyped(c, i);
    assert Explicit(c.ops[i]);
    StoresAreConsecutive(c.ops[i], off + RecordedAt(c.ty, i));
    BeforeNext(c.ty, i);
  }

  lemma LeavesOfNext(cs: seq<Constant>, i: nat)
    requires i < |cs|
    ensures LeavesOf(cs[..i + 1]) == LeavesOf(cs[..i]) + Leaves(cs[i])
  {
    assert cs[..i + 1][..i] == cs[..i];
  }

  /** The number of flattened elements in the first n members. */
  ghost function Before(t: Type, n: nat): nat
    requires !IsSimple(t) && n <= MemberCount(t)
  {
    if t.ArrayT? then n * |Flat(t.elem)| else |FlatAll(t.fields[..n])|
  }

  lemma NoneBefore(t: Type)
    requires !IsSimple(t)
    ensures Before(t, 0) == 0
  {}

  lemma BeforeNext(t: Type, i: nat)
    requires HasRecord(t, i)
    ensures RecordedAt(t, i) == Before(t, i)
    ensures Before(t, i + 1) == Before(t, i) + |Flat(Member(t, i))|
  {
    if t.ArrayT? {
      MulSuc(i, |Flat(t.elem)|);
    } else {
      FlatAllPrefix(t.fields, i);
    }
  }

  lemma AllMembers(t: Type)
    requires !IsLeaf(t) && forall i :: 0 <= i < MemberCount(t) ==> HasRecord(t, i)
    ensures Before(t, MemberCount(t)) == |Flat(t)|
  {
    if t.ArrayT? {
      if Total(t) > 0 {
        ArrayRepeatsElement(t);
      } else {
        EmptyElement(t);
        assert t.len > 1 ==> HasRecord(t, 1);
      }
    } else {
      assert t.fields[..|t.fields|] == t.fields;
    }
  }

  lemma {:induction false} LeavesOfSingles(cs: seq<Constant>)
    requires forall i :: 0 <= i < |cs| ==> cs[i].Single?
    ensures LeavesOf(cs) == cs
  {
    if cs != [] { LeavesOfSingles(cs[..|cs| - 1]); }
  }

  // ---------------------------------------------------------------- the edges for what is written

  /** A step for one constant: its own statements, a store to the field at a position, its address, or a
      copy from the null pointer. */
  datatype Step =
    | Process(src: Constant)
    | StoreTo(src: Constant, field: nat)
    | AddrOf(dst: Constant)
    | CopyNull(dst: Constant)

  /** A block address is given an address and not stored; a pointer that is none of the known kinds is
      stored, and points to nothing. */
  function StepsFor(s: Store): seq<Step>
    requires s.1.Single?
  {
    match s.1.kind
    case Address => [StoreTo(s.1, s.0)]
    case Expression => [Process(s.1), StoreTo(s.1, s.0)]
    case BlockAddress => [Process(s.1), AddrOf(s.1)]
    case Plain(isPointer, isNull) =>
      [StoreTo(s.1, s.0)] + if isPointer && !isNull then [CopyNull(s.1)] else []
  }

  ghost predicate AllSingle(stores: seq<Store>) {
    forall k :: 0 <= k < |stores| ==> stores[k].1.Single?
  }

  ghost function StepsForAll(stores: seq<Store>): seq<Step>
    requires AllSingle(stores)
  {
    if stores == [] then [] else StepsForAll(stores[..|stores| - 1]) + StepsFor(stores[|stores| - 1])
  }

  /** The steps are those for what was written. */
  ghost predicate Matching(stores: seq<Store>, steps: seq<Step>) {
    match |stores|
    case _ => AllSingle(stores) && steps == StepsForAll(stores)
  }

  /** The constants written, one after the other. */
  ghost function Constants(stores: seq<Store>): seq<Constant> {
    seq(|stores|, i requires 0 <= i < |stores| => stores[i].1)
  }

  /** What is written tells how often each step is there, and which step comes right before which. */
  ghost predicate EdgesTell(stores: seq<Store>, steps: seq<Step>) {
    && StoresTell(stores, steps)
    && ProcessTells(Constants(stores), steps)
    && AddrTells(Constants(stores), steps)
    && NullTells(Constants(stores), steps)
    && InTurn(steps)
  }

  /** The statements of a constant are added for expressions and block addresses. */
  ghost predicate ProcessTells(cs: seq<Constant>, steps: seq<Step>) {
    forall c :: multiset(steps)[Process(c)] == if Is(c, Expression) || Is(c, BlockAddress) then multiset(cs)[c] else 0
  }

  /** Block addresses are given an address. */
  ghost predicate AddrTells(cs: seq<Constant>, steps: seq<Step>) {
    forall c :: multiset(steps)[AddrOf(c)] == if Is(c, BlockAddress) then multiset(cs)[c] else 0
  }

  /** A plain pointer that is not null points to nothing. */
  ghost predicate NullTells(cs: seq<Constant>, steps: seq<Step>) {
    forall c :: multiset(steps)[CopyNull(c)] == if Is(c, Plain(true, false)) then multiset(cs)[c] else 0
  }

  predicate Is(c: Constant, kind: Kind) {
    c.Single? && c.kind == kind
  }

  /** Whatever is written is stored at its position, except a block address. */
  ghost predicate StoresTell(stores: seq<Store>, steps: seq<Step>) {
    forall c, pos :: multiset(steps)[StoreTo(c, pos)] == if Is(c, BlockAddress) then 0 else multiset(stores)[(pos, c)]
  }

  /** The statements of a constant come right before its store or its address, the copy from the null
      pointer right after its store. */
  ghost predicate InTurn(steps: seq<Step>) {
    forall i :: 0 <= i < |steps| ==> Follows(steps, i)
  }

  predicate Follows(steps: seq<Step>, i: nat)
    requires i < |steps|
  {
    match steps[i]
    case StoreTo(c, _) => Is(c, Expression) ==> i > 0 && steps[i - 1] == Process(c)
    case AddrOf(c) => i > 0 && steps[i - 1] == Process(c)
    case CopyNull(c) => i > 0 && steps[i - 1].StoreTo? && steps[i - 1].src == c
    case Process(_) => true
  }

  lemma InTurnMore(steps: seq<Step>, s: Store)
    requires InTurn(steps) && s.1.Single?
    ensures InTurn(steps + StepsFor(s))
  {
    var all := steps + StepsFor(s);
    forall i | 0 <= i < |all|
      ensures Follows(all, i)
    {
      if i < |steps| {
        assert Follows(steps, i) && all[i] == steps[i];
        assert i > 0 ==> all[i - 1] == steps[i - 1];
      }
    }
  }

  lemma ConstantsMore(stores: seq<Store>, s: Store)
    ensures Constants(stores + [s]) == Constants(stores) + [s.1]
  {}

  lemma CountMore<T>(a: seq<T>, b: seq<T>, x: T)
    ensures multiset(a + b)[x] == multiset(a)[x] + multiset(b)[x]
  {}

  lemma StoreCounted(s: Store, c: Constant, pos: nat)
    requires s.1.Single?
    ensures multiset(StepsFor(s))[StoreTo(c, pos)] == if Is(c, BlockAddress) then 0 else multiset([s])[(pos, c)]
  {}

  lemma OthersCounted(s: Store, c: Constant)
    requires s.1.Single?
    ensures multiset(StepsFor(s))[Process(c)] ==
      if Is(c, Expression) || Is(c, BlockAddress) then multiset([s.1])[c] else 0
    ensures multiset(StepsFor(s))[AddrOf(c)] == if Is(c, BlockAddress) then multiset([s.1])[c] else 0
    ensures multiset(StepsFor(s))[CopyNull(c)] == if Is(c, Plain(true, false)) then multiset([s.1])[c] else 0
  {}

  lemma StoresTellMore(stores: seq<Store>, steps: seq<Step>, s: Store)
    requires StoresTell(stores, steps) && s.1.Single?
    ensures StoresTell(stores + [s], steps + StepsFor(s))
  {
    forall c, pos
      ensures multiset(steps + StepsFor(s))[StoreTo(c, pos)] ==
        if Is(c, BlockAddress) then 0 else multiset(stores + [s])[(pos, c)]
    {
      CountMore(steps, StepsFor(s), StoreTo(c, pos));
      CountMore(stores, [s], (pos, c));
      StoreCounted(s, c, pos);
    }
  }

  lemma OthersTellMore(cs: seq<Constant>, steps: seq<Step>, s: Store)
    requires ProcessTells(cs, steps) && AddrTells(cs, steps) && NullTells(cs, steps) && s.1.Single?
    ensures ProcessTells(cs + [s.1], steps + StepsFor(s))
    ensures AddrTells(cs + [s.1], steps + StepsFor(s))
    ensures NullTells(cs + [s.1], steps + StepsFor(s))
  {
    forall c
      ensures multiset(steps + StepsFor(s))[Process(c)] ==
        multiset(steps)[Process(c)] + multiset(StepsFor(s))[Process(c)]
      ensures multiset(steps + StepsFor(s))[AddrOf(c)] == multiset(steps)[AddrOf(c)] + multiset(StepsFor(s))[AddrOf(c)]
      ensures multiset(steps + StepsFor(s))[CopyNull(c)] ==
        multiset(steps)[CopyNull(c)] + multiset(StepsFor(s))[CopyNull(c)]
      ensures multiset(cs + [s.1])[c] == multiset(cs)[c] + multiset([s.1])[c]
    {
      CountMore(cs, [s.1], c);
    }
    forall c
      ensures multiset(StepsFor(s))[Process(c)] ==
        if Is(c, Expression) || Is(c, BlockAddress) then multiset([s.1])[c] else 0
      ensures multiset(StepsFor(s))[AddrOf(c)] == if Is(c, BlockAddress) then multiset([s.1])[c] else 0
      ensures multiset(StepsFor(s))[CopyNull(c)] == if Is(c, Plain(true, false)) then multiset([s.1])[c] else 0
    {
      OthersCounted(s, c);
    }
  }

  /** Whatever is written, by whichever steps the writer takes for it, they tell it. */
  lemma {:induction false} StepsTell(stores: seq<Store>)
    requires AllSingle(stores)
    ensures EdgesTell(stores, StepsForAll(stores))
  {
    if stores != [] {
      var n := |stores| - 1;
      StepsTell(stores[..n]);
      StoresTellMore(stores[..n], StepsForAll(stores[..n]), stores[n]);
      ConstantsMore(stores[..n], stores[n]);
      OthersTellMore(Constants(stores[..n]), StepsForAll(stores[..n]), stores[n]);
      InTurnMore(StepsForAll(stores[..n]), stores[n]);
      assert stores == stores[..n] + [stores[n]];
    }
  }

  lemma MatchingMore(stores: seq<Store>, steps: seq<Step>, s: Store)
    requires Matching(stores, steps) && s.1.Single?
    ensures Matching(stores + [s], steps + StepsFor(s))
  {
    assert (stores + [s])[..|stores|] == stores;
  }

  /** The steps come in the order of the positions, so no field is stored to twice. */
  ghost predicate StoredInOrder(steps: seq<Step>) {
    forall i, j :: 0 <= i < j < |steps| && steps[i].StoreTo? && steps[j].StoreTo? ==> steps[i].field < steps[j].field
  }

  ghost predicate StoredBelow(steps: seq<Step>, n: int) {
    forall i :: 0 <= i < |steps| && steps[i].StoreTo? ==> steps[i].field < n
  }

  lemma {:induction false} StepsInOrder(stores: seq<Store>)
    requires AllSingle(stores) && forall i, j :: 0 <= i < j < |stores| ==> stores[i].0 < stores[j].0
    ensures StoredInOrder(StepsForAll(stores))
    ensures stores != [] ==> StoredBelow(StepsForAll(stores), stores[|stores| - 1].0 + 1)
  {
    if stores != [] {
      var n := |stores| - 1;
      StepsInOrder(stores[..n]);
      if n > 0 {
        assert stores[..n][n - 1].0 < stores[n].0;
        StepsJoin(StepsForAll(stores[..n]), stores[n], stores[n - 1].0 + 1);
      }
    }
  }

  lemma StepsJoin(a: seq<Step>, s: Store, n: int)
    requires StoredInOrder(a) && StoredBelow(a, n) && n <= s.0 && s.1.Single?
    ensures StoredInOrder(a + StepsFor(s)) && StoredBelow(a + StepsFor(s), s.0 + 1)
  {
    var all := a + StepsFor(s);
    forall i | 0 <= i < |all| && all[i].StoreTo?
      ensures if i < |a| then all[i].field < n else all[i].field == s.0
    {
      if i < |a| { assert all[i] == a[i]; }
    }
  }

  /** What an initialiser is written by: every field is stored to at most once. */
  lemma FieldsStoredOnce(c: Constant, off: nat, models: bool)
    requires WellTyped(c) && Writable(c)
    ensures AllSingle(Stores(c, off, models)) && StoredInOrder(StepsForAll(Stores(c, off, models)))
  {
    StoresArePlaced(c, off, models);
    var stores := Stores(c, off, models);
    forall k | 0 <= k < |stores|
      ensures stores[k].1.Single?
    {
      assert IsPlaced(stores[k], Flat(c.ty), off, |Flat(c.ty)|);
    }
    StepsInOrder(stores);
  }

  // ---------------------------------------------------------------- the writer

  class GlobalWriter {
    const table: TypeTable
    const modelConsts: bool
    const skipsAggregates: bool
    var stores: seq<Store>
    var steps: seq<Step>

    ghost predicate Matched()
      reads this`stores, this`steps
    {
      Matching(stores, steps)
    }

    constructor (table: TypeTable, modelConsts: bool, isVtable: bool, vtableInSVFIR: bool)
      ensures this.table == table && this.modelConsts == modelConsts
      ensures skipsAggregates == (isVtable && !vtableInSVFIR) && stores == [] && Matched()
    {
      this.table, this.modelConsts, this.skipsAggregates := table, modelConsts, isVtable && !vtableInSVFIR;
      stores, steps := [], [];
    }

    method WriteSingle(c: Constant, offset: nat)
      requires c.Single? && Matched()
      modifies this`stores, this`steps
      ensures Matched() && stores == old(stores) + [(offset, c)]
    {
      var field := (offset, c);
      MatchingMore(stores, steps, field);
      stores, steps := stores + [field], steps + StepsFor(field);
    }

    /** Write a whole initialiser, at the start of the global. */
    method WriteGlobal(c: Constant)
      requires table.Ready() && stores == [] && steps == [] && WellTyped(c) && Fits(c.ty)
      requires Writable(c) || (skipsAggregates && c.Aggregate?)
      modifies this`stores, this`steps, table
      ensures table.Ready() && stores == Written(c, 0, modelConsts, skipsAggregates)
      ensures EdgesTell(stores, steps) && StoredInOrder(steps)
    {
      InitialGlobal(c, 0);
      WrittenTells(c);
    }

    lemma WrittenTells(c: Constant)
      requires WellTyped(c) && (Writable(c) || (skipsAggregates && c.Aggregate?))
      requires Matched() && stores == Written(c, 0, modelConsts, skipsAggregates)
      ensures EdgesTell(stores, steps) && StoredInOrder(steps)
    {
      StepsTell(stores);
      if !(skipsAggregates && c.Aggregate?) { FieldsStoredOnce(c, 0, modelConsts); }
    }

    method InitialGlobal(c: Constant, offset: nat)
      requires table.Ready() && Matched() && WellTyped(c) && Fits(c.ty)
      requires Writable(c) || (skipsAggregates && c.Aggregate?)
      modifies this`stores, this`steps, table
      ensures table.Ready() && Matched()
      ensures stores == old(stores) + Written(c, offset, modelConsts, skipsAggregates)
      decreases c
    {
      match c {
        case Single(_, _, _) => WriteSingle(c, offset);
        case Aggregate(_, _) => if !skipsAggregates { InitialMembers(c, offset); }
        case Data(_, _) => if modelConsts { InitialMembers(c, offset); }
        case Blank(_) =>
      }
    }

    /** Write the members of an aggregate one after the other. */
    method InitialMembers(c: Constant, offset: nat)
      requires table.Ready() && Matched() && WellTyped(c) && Writable(c) && Fits(c.ty)
      requires (c.Aggregate? && !skipsAggregates) || c.Data?
      modifies this`stores, this`steps, table
      ensures table.Ready() && Matched()
      ensures stores == old(stores) + StoresTo(c, |c.ops|, offset, modelConsts)
      decreases c, 1
    {
      for i := 0 to |c.ops|
        invariant table.Ready() && Matched()
        invariant stores == old(stores) + StoresTo(c, i, offset, modelConsts)
      {
        InitialMember(c, i, offset);
        StoresToNext(c, i, offset, modelConsts, old(stores));
      }
    }

    method InitialMember(c: Constant, i: nat, offset: nat)
      requires table.Ready() && Matched() && WellTyped(c) && Writable(c) && Fits(c.ty)
      requires ((c.Aggregate? && !skipsAggregates) || c.Data?) && i < |c.ops|
      modifies this`stores, this`steps, table
      ensures table.Ready() && Matched()
      ensures stores == old(stores) + StoresOfMember(c, i, offset, modelConsts)
      decreases c, 0
    {
      PartsTyped(c, i);
      MemberFits(c.ty, i);
      table.GetSVFType(c.ty);
      var off := GetFlattenedElemIdx(table, c.ty, i);
      InitialGlobal(c.ops[i], offset + off);
    }
  }
}
