/** The memoised collection of type records, with the integer widths of the program. */
module TypeInfo {
  import opened Flattening

  const U32: nat := 0x1_0000_0000
  const U64: nat := 0x1_0000_0000_0000_0000

  /** The element index recorded for element i of an array, as computed: a 32-bit product, a 64-bit
      product, a division, and a truncation to 32 bits. */
  function RecordedIdx(i: nat, nfE: nat, total: nat, len: nat): nat
    requires len > 0
  {
    (((i * nfE) % U32 * total) % U64 / len) % U32
  }

  /** As long as the flattened array is shorter than 2^32 nothing wraps and the division is exact: the
      index is i times the flattened size of the element. */
  lemma RecordedIdxExact(t: Type, i: nat)
    requires t.ArrayT? && Total(t) > 0 && |Flat(t)| < U32 && Total(t) < U32 && i < t.len
    ensures RecordedIdx(i, |Flat(Base(t))|, Total(t), t.len) == i * |Flat(t.elem)|
  {
    ArrayRepeatsElement(t);
    IdxArithmetic(i, |Flat(Base(t))|, Total(t.elem), t.len);
  }

  lemma IdxArithmetic(i: nat, n: nat, m: nat, len: nat)
    requires i < len && m > 0 && len * (m * n) < U32 && len * m < U32
    ensures RecordedIdx(i, n, len * m, len) == i * (m * n)
  {
    var q := i * (m * n);
    MulMono(i, len, m * n);
    MulMono(1, m, n);
    MulLe(i, n, m * n);
    assert i * n <= q < U32;
    Regroup(i, n, m, len);
    SmallProduct(i * n, len * m);
    DivExact(q, len);
    Unwrapped(i * n, len * m, len, q);
  }

  lemma Unwrapped(a: nat, b: nat, len: nat, q: nat)
    requires len > 0 && a < U32 && a * b < U64 && a * b / len == q && q < U32
    ensures (((a % U32) * b) % U64 / len) % U32 == q
  {
    assert a % U32 == a;
    var p := a * b;
    assert p % U64 == p;
  }

  lemma Regroup(i: nat, n: nat, m: nat, len: nat)
    ensures (i * n) * (len * m) == len * (i * (m * n))
  {
    var x := i * n;
    assert x * (len * m) == (x * m) * len by { Assoc(x, m, len); assert len * m == m * len; }
    assert x * m == i * (n * m) by { Assoc(i, n, m); }
    assert n * m == m * n;
  }

  lemma Assoc(a: nat, b: nat, c: nat)
    ensures a * (b * c) == (a * b) * c
  {
  }

  lemma MulLe(i: nat, a: nat, b: nat)
    requires a <= b
    ensures i * a <= i * b
  {
  }

  lemma SmallProduct(a: nat, b: nat)
    requires a < U32 && b < U32
    ensures a * b < U64
  {
    assert a * b <= (U32 - 1) * (U32 - 1) by {
      MulLe(a, b, U32 - 1);
      MulMono(a, U32 - 1, U32 - 1);
    }
  }

  lemma ModMul(a: nat, r: nat)
    ensures ((a % U64) * r) % U64 == (a * r) % U64
  {
    var q := a / U64;
    assert a * r == (a % U64) * r + (q * r) * U64;
    ModPlus((a % U64) * r, q * r);
  }

  lemma {:induction false} ModPlus(x: nat, k: nat)
    ensures (x + k * U64) % U64 == x % U64
  {
    if k > 0 {
      ModPlus(x, k - 1);
      assert x + k * U64 == x + (k - 1) * U64 + U64;
    }
  }

  lemma DivExact(q: nat, d: nat)
    requires d > 0
    ensures (d * q) / d == q
  {
    var x := d * q;
    var p := x / d;
    assert p * d <= x < p * d + d;
    MulSuc(p, d);
    MulSuc(q, d);
    if p < q {
      MulMono(p + 1, q, d);
    } else if q < p {
      MulMono(q + 1, p, d);
    }
  }

  lemma NextTotal(total: nat, len: nat, rest: nat)
    ensures (((total * len) % U64) * rest) % U64 == (total * (len * rest)) % U64
  {
    ModMul(total * len, rest);
    Assoc(total, len, rest);
  }

  class TypeTable {
    /** Type2TypeInfo, and the types that have an SVF type. */
    var infos: map<Type, StInfo>
    var svfTypes: set<Type>

    ghost predicate Valid()
      reads this
    {
      forall t :: t in infos ==> infos[t] == InfoOf(t)
    }

    /** Types registered but not recorded yet are at least this large. */
    ghost predicate PendingFrom(n: nat)
      reads this
    {
      forall t :: t in svfTypes && t !in infos ==> Size(t) >= n
    }

    /** Between calls every registered type has its record. */
    ghost predicate Settled()
      reads this
    {
      forall t :: t in svfTypes ==> t in infos
    }

    ghost predicate Ready()
      reads this
    {
      Valid() && Settled()
    }

    constructor ()
      ensures Ready() && infos == map[] && svfTypes == {}
    {
      infos, svfTypes := map[], {};
    }

    twostate predicate Grows()
      reads this
    {
      && (forall t :: t in old(infos) ==> t in infos && infos[t] == old(infos[t]))
      && old(svfTypes) <= svfTypes
      && (forall t :: t in svfTypes && t !in infos ==> t in old(svfTypes) && t !in old(infos))
    }

    /** Get or create the SVF type and the record of t. */
    method GetSVFType(t: Type)
      requires Valid() && PendingFrom(Size(t) + 1) && Fits(t)
      modifies this
      ensures Valid() && Grows() && t in svfTypes && t in infos
      decreases Size(t), 2
    {
      if t in svfTypes { return; }
      AddSVFTypeInfo(t);
      var _ := CollectTypeInfo(t);
    }

    /** The types that registering t registers with it. */
    function Parts(t: Type): seq<Type> {
      match t
      case ArrayT(_, elem) => [elem]
      case StructT(_, fields) => fields
      case FunctionT(params, result) => params + [result]
      case _ => []
    }

    /** Register t and the types it is made of. */
    method AddSVFTypeInfo(t: Type)
      requires Valid() && PendingFrom(Size(t) + 1) && Fits(t) && t !in svfTypes
      modifies this
      ensures Valid() && t in svfTypes
      ensures forall x :: x in old(infos) ==> x in infos && infos[x] == old(infos[x])
      ensures old(svfTypes) <= svfTypes
      ensures forall x :: x in svfTypes && x !in infos ==> x == t || (x in old(svfTypes) && x !in old(infos))
      ensures forall x :: x in Parts(t) ==> x in svfTypes && x in infos
      decreases Size(t), 1
    {
      match t {
        case ArrayT(_, elem) => GetSVFType(elem);
        case StructT(_, fields) => GetAll(fields, Size(t));
        case FunctionT(params, result) =>
          GetAll(params, Size(t));
          GetSVFType(result);
        case _ =>
      }
      svfTypes := svfTypes + {t};
    }

    method GetAll(ts: seq<Type>, ghost bound: nat)
      requires Valid() && SizeAll(ts) < bound && PendingFrom(bound) && forall i :: 0 <= i < |ts| ==> Fits(ts[i])
      modifies this
      ensures Valid() && Grows() && forall x :: x in ts ==> x in svfTypes && x in infos
      decreases bound, 0
    {
      for i := 0 to |ts|
        invariant Valid() && Grows()
        invariant forall x :: x in ts[..i] ==> x in svfTypes && x in infos
      {
        SizeOfPart(ts, i);
        GetSVFType(ts[i]);
        assert ts[..i + 1] == ts[..i] + [ts[i]];
      }
      assert ts[..|ts|] == ts;
    }

    /** The record of t, made when it is asked for first. */
    method CollectTypeInfo(t: Type) returns (info: StInfo)
      requires Valid() && PendingFrom(Size(t)) && t in svfTypes && Fits(t)
      modifies this
      ensures Valid() && Grows() && t in infos && info == infos[t]
      decreases Size(t), 1
    {
      if t in infos { return infos[t]; }
      match t {
        case ArrayT(_, _) => info := CollectArrayInfo(t);
        case StructT(_, _) => info := CollectStructInfo(t);
        case _ => info := CollectSimpleTypeInfo(t);
      }
      infos := infos[t := info];
    }

    method CollectSimpleTypeInfo(t: Type) returns (info: StInfo)
      requires IsSimple(t)
      ensures info == InfoOf(t)
    {
      info := StInfo(1, [0], [0], [t], [t], 1, 1);
    }

    method CollectArrayInfo(t: Type) returns (info: StInfo)
      requires Valid() && PendingFrom(Size(t)) && t.ArrayT? && Fits(t)
      modifies this
      ensures Valid() && Grows() && info == InfoOf(t)
      decreases Size(t), 0
    {
      var total, base := StripDimensions(t);
      BaseIsSmaller(t);
      GetSVFType(base);
      if total == 0 {
        return StInfo(0, [0], [0], [base], [base], 1, 1);
      }
      var elemInfo := CollectTypeInfo(base);
      info := ArrayInfo(t, total, elemInfo);
    }

    method CollectStructInfo(t: Type) returns (info: StInfo)
      requires Valid() && PendingFrom(Size(t)) && t.StructT? && Fits(t)
      modifies this
      ensures Valid() && Grows() && info == InfoOf(t)
      decreases Size(t), 0
    {
      info := StInfo(1, [], [], [], [], 0, 0);
      for i := 0 to |t.fields|
        invariant Valid() && Grows()
        invariant info == InfoOf(StructT(t.name, t.fields[..i]))
      {
        var f := t.fields[i];
        SizeOfPart(t.fields, i);
        GetSVFType(f);
        var sub := StInfo(1, [], [], [f], [f], 1, 1);
        if !IsSimple(f) { sub := CollectTypeInfo(f); }
        info := AppendMember(t, i, info, sub.fields, sub.elems, sub.numFields, sub.numElems);
      }
      assert t.fields[..|t.fields|] == t.fields;
    }
  }

  /** Append member i to the record of the members before it, with counters of 32 bits. */
  method AppendMember(t: Type, i: nat, info: StInfo, fields: seq<Type>, elems: seq<Type>, nfF: nat, nfE: nat)
    returns (r: StInfo)
    requires t.StructT? && Fits(t) && i < |t.fields| && info == InfoOf(StructT(t.name, t.fields[..i]))
    requires fields == Fields(t.fields[i]) && elems == Flat(t.fields[i]) && nfF == |fields| && nfE == |elems|
    ensures r == InfoOf(StructT(t.name, t.fields[..i + 1]))
  {
    FlatAllPrefix(t.fields, i);
    IndicesPrefix(t.fields, i);
    r := StInfo(1, info.fldIdx + [info.numFields], info.elemIdx + [info.numElems],
                info.fields + fields, info.elems + elems,
                (info.numFields + nfF) % U32, (info.numElems + nfE) % U32);
  }

  lemma IndicesPrefix(fs: seq<Type>, i: nat)
    requires i < |fs|
    ensures StructIdx(fs[..i + 1]) == StructIdx(fs[..i]) + [|FlatAll(fs[..i])|]
    ensures StructFldIdx(fs[..i + 1]) == StructFldIdx(fs[..i]) + [|FieldsAll(fs[..i])|]
  {
    forall k | 0 <= k <= i
      ensures fs[..i + 1][..k] == fs[..k] && (k < i ==> fs[..i][..k] == fs[..k])
    {
    }
  }

  lemma {:induction false} BaseIsSmaller(t: Type)
    requires t.ArrayT?
    ensures Size(Base(t)) < Size(t)
  {
    if t.elem.ArrayT? { BaseIsSmaller(t.elem); }
  }

  /** The element type under all dimensions, and their product in 64 bits. */
  method StripDimensions(t: Type) returns (total: nat, base: Type)
    requires t.ArrayT? && Total(t) < U64 && t.len < U64
    ensures base == Base(t) && total == Total(t)
  {
    total, base := t.len, t.elem;
    while base.ArrayT?
      invariant total < U64 && Base(base) == Base(t)
      invariant (total * Total(base)) % U64 == Total(t) % U64
      decreases base
    {
      NextTotal(total, base.len, Total(base.elem));
      total := (total * base.len) % U64;
      base := base.elem;
    }
    assert total * 1 == total;
  }

  /** The record of a non-empty array from the record of its base type. */
  method ArrayInfo(t: Type, total: nat, elemInfo: StInfo) returns (info: StInfo)
    requires t.ArrayT? && Fits(t) && total == Total(t) > 0 && elemInfo == InfoOf(Base(t))
    ensures info == InfoOf(t)
  {
    var fldIdx, elemIdx := Indices(t, total, elemInfo.numElems);
    var elems := Unroll(elemInfo.elems, total);
    ArrayRepeatsElement(t);
    BaseRecord(t);
    info := StInfo(total, fldIdx, elemIdx, elemInfo.fields, elems, elemInfo.numFields, elemInfo.numElems * total);
  }

  lemma BaseRecord(t: Type)
    requires t.ArrayT? && Total(t) > 0
    ensures var b := InfoOf(Base(t));
      b.fields == Fields(t) && b.numFields == |Fields(t)| && b.elems == Flat(Base(t)) && b.numElems == |b.elems|
  {
  }

  method Indices(t: Type, total: nat, nfE: nat) returns (fldIdx: seq<nat>, elemIdx: seq<nat>)
    requires t.ArrayT? && Fits(t) && total == Total(t) > 0 && nfE == |Flat(Base(t))|
    ensures fldIdx == Zeros(t.len) && elemIdx == ArrayIdx(t)
  {
    ArrayRepeatsElement(t);
    fldIdx, elemIdx := [], [];
    for i := 0 to t.len
      invariant |fldIdx| == |elemIdx| == i
      invariant forall k :: 0 <= k < i ==> fldIdx[k] == 0 && elemIdx[k] == ArrayIdx(t)[k]
    {
      RecordedIdxExact(t, i);
      fldIdx, elemIdx := fldIdx + [0], elemIdx + [RecordedIdx(i, nfE, total, t.len)];
    }
  }

  /** Copy a flattened sequence total times, element by element. */
  method Unroll(s: seq<Type>, total: nat) returns (elems: seq<Type>)
    ensures elems == Repeat(s, total)
    ensures |elems| == |s| * total
  {
    elems := [];
    for i := 0 to total
      invariant elems == Repeat(s, i)
    {
      for j := 0 to |s|
        invariant elems == Repeat(s, i) + s[..j]
      {
        elems := elems + [s[j]];
      }
      assert s[..|s|] == s;
    }
    RepeatLength(s, total);
  }
}
