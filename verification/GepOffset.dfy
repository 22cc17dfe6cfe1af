/** Index paths of address computations, the offsets summed for them, and the positions they name. */
module GepOffset {
  import opened Options
  import opened Flattening
  import opened TypeInfo

  // ---------------------------------------------------------------- paths

  /** A path of member indices into a type. */
  predicate ValidPath(t: Type, path: seq<nat>) {
    path == [] || (HasMember(t, path[0]) && ValidPath(Member(t, path[0]), path[1..]))
  }

  /** A path along which every index can be looked up.  What the type holds off the path, such as an
      array of length zero at the end of a struct, does not matter. */
  predicate RecordedPath(t: Type, path: seq<nat>)
    ensures RecordedPath(t, path) ==> ValidPath(t, path)
  {
    path == [] || (HasRecord(t, path[0]) && RecordedPath(Member(t, path[0]), path[1..]))
  }

  /** The sub-object that a path names. */
  function SubType(t: Type, path: seq<nat>): Type
    requires ValidPath(t, path)
  {
    if path == [] then t else SubType(Member(t, path[0]), path[1..])
  }

  ghost function RecordedAt(t: Type, i: nat): nat
    requires HasRecord(t, i)
  {
    MemberAt(t, i);
    InfoOf(t).elemIdx[i]
  }

  /** The sum of the recorded element indices along a path. */
  ghost function PathOffset(t: Type, path: seq<nat>): nat
    requires RecordedPath(t, path)
  {
    if path == [] then 0 else RecordedAt(t, path[0]) + PathOffset(Member(t, path[0]), path[1..])
  }

  /** A path to a scalar, or to an array of length zero, which has one dummy element. */
  ghost predicate IsLeafPath(t: Type, path: seq<nat>) {
    RecordedPath(t, path) && IsLeaf(SubType(t, path))
  }

  /** The offset of a path is the position of the sub-object: its whole flattened sequence lies there. */
  lemma {:induction false} OffsetIsPosition(t: Type, path: seq<nat>)
    requires RecordedPath(t, path)
    ensures LiesAt(Flat(t), Flat(SubType(t, path)), PathOffset(t, path))
    decreases |path|
  {
    if path != [] {
      var m := Member(t, path[0]);
      MemberAt(t, path[0]);
      OffsetIsPosition(m, path[1..]);
      LiesWithin(Flat(t), Flat(m), Flat(SubType(t, path)), RecordedAt(t, path[0]), PathOffset(m, path[1..]));
    }
  }

  /** The type stored at the offset of a path is the first leaf of the sub-object. */
  lemma StoredTypeIsFirstLeaf(t: Type, path: seq<nat>) returns (leaf: seq<nat>)
    requires RecordedPath(t, path) && |Flat(SubType(t, path))| > 0
    ensures PathOffset(t, path) < |Flat(t)|
    ensures IsLeafPath(SubType(t, path), leaf) && PathOffset(SubType(t, path), leaf) == 0
    ensures Flat(t)[PathOffset(t, path)] == Base(SubType(SubType(t, path), leaf))
  {
    OffsetIsPosition(t, path);
    var u := SubType(t, path);
    leaf := LeafAt(u, 0);
    OffsetIsPosition(u, leaf);
    assert Flat(t)[PathOffset(t, path)] == Flat(u)[0];
  }

  /** Every position is the offset of a leaf path. */
  lemma {:induction false} LeafAt(t: Type, pos: nat) returns (path: seq<nat>)
    requires pos < |Flat(t)|
    ensures IsLeafPath(t, path) && PathOffset(t, path) == pos
    decreases t
  {
    if IsLeaf(t) {
      path := [];
    } else {
      var i := MemberOf(t, pos);
      var rest := LeafAt(Member(t, i), pos - RecordedAt(t, i));
      path := [i] + rest;
      assert path[1..] == rest;
    }
  }

  lemma LeafHasOne(t: Type, path: seq<nat>)
    requires IsLeafPath(t, path)
    ensures PathOffset(t, path) < |Flat(t)|
  {
    OffsetIsPosition(t, path);
  }

  /** Distinct leaf paths have distinct positions; of two, the one with the smaller first differing
      index lies first. */
  lemma {:induction false} LeavesAreDistinct(t: Type, p: seq<nat>, q: seq<nat>)
    requires IsLeafPath(t, p) && IsLeafPath(t, q) && p != q
    ensures PathOffset(t, p) != PathOffset(t, q)
    decreases |p|
  {
    if !IsLeaf(t) {
      var i, j := p[0], q[0];
      if i == j {
        assert p == [i] + p[1..] && q == [j] + q[1..];
        LeavesAreDistinct(Member(t, i), p[1..], q[1..]);
      } else {
        LeafHasOne(Member(t, i), p[1..]);
        LeafHasOne(Member(t, j), q[1..]);
        if i < j { MemberOrder(t, i, j); } else { MemberOrder(t, j, i); }
      }
    }
  }

  /** The leaf paths of a type and the positions of its flattened sequence correspond one to one. */
  lemma LeavesArePositions(t: Type, pos: nat)
    ensures pos < |Flat(t)| <==> exists p :: IsLeafPath(t, p) && PathOffset(t, p) == pos
    ensures forall p, q ::
      IsLeafPath(t, p) && IsLeafPath(t, q) && PathOffset(t, p) == pos == PathOffset(t, q) ==> p == q
  {
    if pos < |Flat(t)| {
      var p := LeafAt(t, pos);
    }
    forall p | IsLeafPath(t, p)
      ensures PathOffset(t, p) < |Flat(t)|
    {
      LeafHasOne(t, p);
    }
    forall p, q | IsLeafPath(t, p) && IsLeafPath(t, q) && PathOffset(t, p) == PathOffset(t, q)
      ensures p == q
    {
      if p != q { LeavesAreDistinct(t, p, q); }
    }
  }

  /** No dimension of any array in the type is zero. */
  ghost predicate NoEmptyDims(t: Type) {
    match t
    case ArrayT(len, elem) => len > 0 && NoEmptyDims(elem)
    case StructT(_, fields) => forall i :: 0 <= i < |fields| ==> NoEmptyDims(fields[i])
    case _ => true
  }

  lemma {:induction false} NoEmptyTotal(t: Type)
    requires NoEmptyDims(t)
    ensures Total(t) > 0
  {
    if t.ArrayT? { NoEmptyTotal(t.elem); }
  }

  /** In such a type every path can be followed, and the leaves are its simple parts. */
  lemma {:induction false} AllPathsRecorded(t: Type, path: seq<nat>)
    requires NoEmptyDims(t) && ValidPath(t, path)
    ensures RecordedPath(t, path) && (IsLeafPath(t, path) <==> IsSimple(SubType(t, path)))
    decreases |path|
  {
    if path != [] {
      NoEmptyTotal(t);
      AllPathsRecorded(Member(t, path[0]), path[1..]);
    }
  }

  // ---------------------------------------------------------------- the computation

  /** An index operand: a constant with its signed value, or a variable. */
  datatype Index = Const(value: int) | Variable

  /** The type that an index is applied to: the pointer operand's first, nothing past a scalar. */
  datatype Indexed = Pointer | Into(t: Type) | Nothing

  function Truncate(v: int): nat {
    v % U32
  }

  /** The type below a type at an index. */
  function Below(t: Option<Type>, ix: Index): Option<Type>
    requires t.Some? && t.value.StructT? ==> ix.Const? && Truncate(ix.value) < |t.value.fields|
  {
    match t
    case None => None
    case Some(StructT(_, fields)) => Some(fields[Truncate(ix.value)])
    case Some(ArrayT(_, elem)) => Some(elem)
    case Some(VectorT(_, elem)) => Some(elem)
    case Some(_) => None
  }

  class GepTypeIterator {
    const ops: seq<Index>
    var opIt: nat
    var curTy: Option<Type>
    var isPointer: bool

    constructor (source: Type, ops: seq<Index>)
      ensures opIt == 0 && curTy == Some(source) && isPointer && this.ops == ops
    {
      this.ops := ops;
      opIt, curTy, isPointer := 0, Some(source), true;
    }

    /** operator* */
    function Current(): Indexed
      reads this
    {
      if isPointer then Pointer else if curTy.Some? then Into(curTy.value) else Nothing
    }

    /** operator++: the pointer operand's index leads to the source type itself. */
    method Next()
      requires opIt < |ops|
      requires !isPointer && curTy.Some? && curTy.value.StructT? ==>
        ops[opIt].Const? && Truncate(ops[opIt].value) < |curTy.value.fields|
      modifies this
      ensures opIt == old(opIt) + 1 && !isPointer
      ensures curTy == if old(isPointer) then old(curTy) else Below(old(curTy), ops[old(opIt)])
    {
      if isPointer {
        isPointer := false;
      } else {
        curTy := Below(curTy, ops[opIt]);
      }
      opIt := opIt + 1;
    }
  }

  /** An index into a struct is a constant in bounds, an index into an array in bounds can be looked up,
      and none goes below a scalar.  Vectors hold scalars. */
  predicate CanStep(t: Type, ix: Index) {
    match t
    case ArrayT(len, _) => ix.Const? && Truncate(ix.value) < len ==> HasRecord(t, Truncate(ix.value))
    case StructT(_, fields) => ix.Const? && Truncate(ix.value) < |fields|
    case VectorT(_, elem) => elem.Scalar?
    case _ => false
  }

  /** What an index adds; an index into a vector, a variable index into an array, or one past its end,
      adds nothing. */
  ghost function Added(t: Type, ix: Index): nat
    requires CanStep(t, ix)
  {
    if ix.Const? && HasMember(t, Truncate(ix.value)) then RecordedAt(t, Truncate(ix.value)) else 0
  }

  predicate Walkable(t: Type, ixs: seq<Index>) {
    ixs == [] || (CanStep(t, ixs[0]) && Walkable(Below(Some(t), ixs[0]).value, ixs[1..]))
  }

  ghost function Sum(t: Type, ixs: seq<Index>): nat
    requires Walkable(t, ixs)
  {
    if ixs == [] then 0 else Added(t, ixs[0]) + Sum(Below(Some(t), ixs[0]).value, ixs[1..])
  }

  function Consts(path: seq<nat>): seq<Index> {
    seq(|path|, i requires 0 <= i < |path| => Const(path[i]))
  }

  lemma MemberFits(t: Type, i: nat)
    requires Fits(t) && HasMember(t, i)
    ensures Fits(Member(t, i)) && Truncate(i) == i
  {
  }

  lemma BelowFits(t: Type, ix: Index)
    requires Fits(t) && CanStep(t, ix)
    ensures Fits(Below(Some(t), ix).value)
  {
    if t.StructT? { MemberFits(t, Truncate(ix.value)); }
  }

  /** Constant in-bounds indices form a path, and their sum is the path's offset. */
  lemma {:induction false} SumIsPathOffset(t: Type, path: seq<nat>)
    requires Fits(t) && RecordedPath(t, path)
    ensures Walkable(t, Consts(path)) && Sum(t, Consts(path)) == PathOffset(t, path)
    decreases |path|
  {
    if path != [] {
      MemberFits(t, path[0]);
      assert Consts(path)[1..] == Consts(path[1..]);
      SumIsPathOffset(Member(t, path[0]), path[1..]);
    }
  }

  // ---------------------------------------------------------------- which position the sum is

  /** The index of a member that an operand reads as: a variable index into an array, or one past its end,
      as that of the first element. */
  predicate ReadsAs(t: Type, ix: Index, i: nat) {
    HasMember(t, i)
    && if ix.Const? && HasMember(t, Truncate(ix.value)) then i == Truncate(ix.value) else t.ArrayT? && i == 0
  }

  /** The path that the first operands read as. */
  predicate PathRead(t: Type, ixs: seq<Index>, path: seq<nat>) {
    path == [] ||
    (ixs != [] && HasRecord(t, path[0]) && ReadsAs(t, ixs[0], path[0])
     && PathRead(Member(t, path[0]), ixs[1..], path[1..]))
  }

  lemma {:induction false} ReadIsRecorded(t: Type, ixs: seq<Index>, path: seq<nat>)
    requires PathRead(t, ixs, path)
    ensures |path| <= |ixs| && RecordedPath(t, path)
    decreases |path|
  {
    if path != [] { ReadIsRecorded(Member(t, path[0]), ixs[1..], path[1..]); }
  }

  /** n is the offset for a list of indices: the position of the sub-object that they read as.  Behind a
      vector nothing more is added; behind an array of length zero, which has no element to lie anywhere,
      the offset within the element type is. */
  ghost predicate IsOffset(t: Type, ixs: seq<Index>, n: nat)
    decreases |ixs|
  {
    exists path :: PathRead(t, ixs, path) && OffsetVia(t, ixs, path, n)
  }

  ghost predicate OffsetVia(t: Type, ixs: seq<Index>, path: seq<nat>, n: nat)
    requires PathRead(t, ixs, path)
    decreases |ixs|, 0
  {
    ReadIsRecorded(t, ixs, path);
    var u := SubType(t, path);
    if |path| == |ixs| || u.VectorT? then n == PathOffset(t, path)
    else u.ArrayT? && u.len == 0 && n >= PathOffset(t, path)
         && IsOffset(u.elem, ixs[|path| + 1..], n - PathOffset(t, path))
  }

  lemma OffsetStep(t: Type, ixs: seq<Index>, path: seq<nat>, n: nat)
    requires PathRead(t, ixs, path) && path != []
    ensures HasRecord(t, path[0]) && PathRead(Member(t, path[0]), ixs[1..], path[1..])
    ensures OffsetVia(t, ixs, path, n) <==>
      n >= RecordedAt(t, path[0]) && OffsetVia(Member(t, path[0]), ixs[1..], path[1..], n - RecordedAt(t, path[0]))
  {
    ReadIsRecorded(t, ixs, path);
    var k := |path|;
    if k < |ixs| { assert ixs[k + 1..] == ixs[1..][k - 1 + 1..]; }
  }

  lemma FirstAtZero(t: Type)
    requires t.ArrayT? && HasRecord(t, 0)
    ensures RecordedAt(t, 0) == 0
  {
    MemberAt(t, 0);
  }

  /** The member that a step into a type with members leads to. */
  lemma StepReads(t: Type, ix: Index) returns (i: nat)
    requires CanStep(t, ix) && !t.VectorT? && HasMember(t, 0)
    ensures HasRecord(t, i) && ReadsAs(t, ix, i) && Below(Some(t), ix) == Some(Member(t, i))
    ensures Added(t, ix) == RecordedAt(t, i)
  {
    if ix.Const? && HasMember(t, Truncate(ix.value)) {
      i := Truncate(ix.value);
    } else {
      i := 0;
      FirstAtZero(t);
    }
  }

  lemma VectorEnds(t: Type, ixs: seq<Index>)
    requires Walkable(t, ixs) && ixs != [] && t.VectorT?
    ensures Sum(t, ixs) == 0
  {
    assert Walkable(t.elem, ixs[1..]);
  }

  /** The sum of any list of indices is its offset. */
  lemma {:induction false} SumIsOffset(t: Type, ixs: seq<Index>)
    requires Walkable(t, ixs)
    ensures IsOffset(t, ixs, Sum(t, ixs))
    decreases |ixs|
  {
    if ixs == [] || t.VectorT? {
      if ixs != [] { VectorEnds(t, ixs); }
      assert PathRead(t, ixs, []) && OffsetVia(t, ixs, [], 0);
    } else if t.ArrayT? && t.len == 0 {
      SumIsOffset(t.elem, ixs[1..]);
      assert PathRead(t, ixs, []) && OffsetVia(t, ixs, [], Sum(t, ixs));
    } else {
      HasFirst(t, ixs[0]);
      var i := StepReads(t, ixs[0]);
      SumIsOffset(Member(t, i), ixs[1..]);
      OffsetLifts(t, ixs, i, Sum(Member(t, i), ixs[1..]));
    }
  }

  lemma OffsetLifts(t: Type, ixs: seq<Index>, i: nat, m: nat)
    requires ixs != [] && HasRecord(t, i) && ReadsAs(t, ixs[0], i) && IsOffset(Member(t, i), ixs[1..], m)
    ensures IsOffset(t, ixs, RecordedAt(t, i) + m)
  {
    var rest :| PathRead(Member(t, i), ixs[1..], rest) && OffsetVia(Member(t, i), ixs[1..], rest, m);
    var path := [i] + rest;
    assert path[1..] == rest && PathRead(t, ixs, path);
    OffsetStep(t, ixs, path, RecordedAt(t, i) + m);
  }

  lemma HasFirst(t: Type, ix: Index)
    requires CanStep(t, ix) && !t.VectorT? && !(t.ArrayT? && t.len == 0)
    ensures HasMember(t, 0)
  {}

  /** And nothing else is. */
  lemma {:induction false} OffsetIsSum(t: Type, ixs: seq<Index>, n: nat)
    requires Walkable(t, ixs) && IsOffset(t, ixs, n)
    ensures n == Sum(t, ixs)
    decreases |ixs|
  {
    var path :| PathRead(t, ixs, path) && OffsetVia(t, ixs, path, n);
    ReadIsRecorded(t, ixs, path);
    if path == [] {
      if ixs != [] {
        if t.VectorT? { VectorEnds(t, ixs); } else { OffsetIsSum(t.elem, ixs[1..], n); }
      }
    } else {
      HasFirst(t, ixs[0]);
      var i := StepReads(t, ixs[0]);
      OffsetStep(t, ixs, path, n);
      OffsetIsSum(Member(t, i), ixs[1..], n - RecordedAt(t, i));
    }
  }

  lemma OffsetsAre(t: Type, ixs: seq<Index>)
    requires Walkable(t, ixs) && Fits(t)
    ensures forall n :: IsOffset(t, ixs, n) <==> n == Sum(t, ixs)
    ensures forall path :: RecordedPath(t, path) && ixs == Consts(path) ==> Sum(t, ixs) == PathOffset(t, path)
  {
    SumIsOffset(t, ixs);
    forall n | IsOffset(t, ixs, n)
      ensures n == Sum(t, ixs)
    {
      OffsetIsSum(t, ixs, n);
    }
    forall path | RecordedPath(t, path) && ixs == Consts(path)
      ensures Sum(t, ixs) == PathOffset(t, path)
    {
      SumIsPathOffset(t, path);
    }
  }

  /** The offset of a list that reads as a path to its end, or to a vector, is the position of the
      sub-object that the path names. */
  lemma ReadLies(t: Type, ixs: seq<Index>, path: seq<nat>)
    requires Walkable(t, ixs) && PathRead(t, ixs, path)
    requires RecordedPath(t, path) && (|path| == |ixs| || SubType(t, path).VectorT?)
    ensures IsOffset(t, ixs, PathOffset(t, path))
    ensures LiesAt(Flat(t), Flat(SubType(t, path)), PathOffset(t, path))
  {
    assert OffsetVia(t, ixs, path, PathOffset(t, path));
    OffsetIsPosition(t, path);
  }

  /** IRGraph::getFlattenedElemIdx when arrays are modelled. */
  method GetFlattenedElemIdx(table: TypeTable, t: Type, i: nat) returns (idx: nat)
    requires table.Valid() && t in table.infos && HasRecord(t, i)
    ensures idx == RecordedAt(t, i)
  {
    MemberAt(t, i);
    idx := table.infos[t].elemIdx[i];
  }

  /** The part of the loop for an index below the pointer operand. */
  method AddOffset(table: TypeTable, t: Type, op: Index, fldIdx: nat) returns (sum: nat)
    requires table.Valid() && t in table.infos && CanStep(t, op)
    ensures sum == fldIdx + Added(t, op)
  {
    if t.VectorT? || (t.ArrayT? && !(op.Const? && Truncate(op.value) < t.len)) { return fldIdx; }
    var offset := GetFlattenedElemIdx(table, t, Truncate(op.value));
    return fldIdx + offset;
  }

  /** The loop over the operands. */
  method SumOffsets(table: TypeTable, source: Type, ops: seq<Index>) returns (fldIdx: nat, isConst: bool)
    requires table.Valid() && table.Settled() && Fits(source)
    requires ops != [] && Walkable(source, ops[1..])
    modifies table
    ensures table.Valid() && table.Settled()
    ensures fldIdx == Sum(source, ops[1..])
    ensures isConst <==> !(ops[0].Variable? && IsSingleValue(source))
  {
    var gi := new GepTypeIterator(source, ops);
    fldIdx, isConst := 0, true;
    while gi.opIt < |ops|
      invariant gi.ops == ops && gi.opIt <= |ops| && (gi.isPointer <==> gi.opIt == 0)
      invariant table.Valid() && table.Settled()
      invariant gi.opIt == 0 ==> gi.curTy == Some(source) && fldIdx == 0
      invariant gi.curTy.Some?
      invariant 0 < gi.opIt ==>
        && Fits(gi.curTy.value) && Walkable(gi.curTy.value, ops[gi.opIt..])
        && fldIdx + Sum(gi.curTy.value, ops[gi.opIt..]) == Sum(source, ops[1..])
      invariant isConst <==> !(gi.opIt > 0 && ops[0].Variable? && IsSingleValue(source))
      decreases |ops| - gi.opIt
    {
      var op := ops[gi.opIt];
      match gi.Current() {
        case Pointer =>
          if op.Variable? && IsSingleValue(source) { isConst := false; }
        case Into(t) =>
          assert ops[gi.opIt..][1..] == ops[gi.opIt + 1..];
          table.GetSVFType(t);
          fldIdx := AddOffset(table, t, op, fldIdx);
          BelowFits(t, op);
      }
      gi.Next();
    }
  }

  /** The offset of an address computation on a source type, and whether it counts as constant.  For a
      path of constant in-bounds indices it is the position of the sub-object that the path names. */
  method ComputeGepOffset(table: TypeTable, source: Type, ops: seq<Index>) returns (fldIdx: nat, isConst: bool)
    requires table.Valid() && table.Settled() && Fits(source)
    requires ops != [] && Walkable(source, ops[1..])
    modifies table
    ensures table.Valid() && table.Settled()
    ensures fldIdx == Sum(source, ops[1..])
    ensures forall n :: IsOffset(source, ops[1..], n) <==> n == fldIdx
    ensures isConst <==> !(ops[0].Variable? && IsSingleValue(source))
    ensures forall path :: RecordedPath(source, path) && ops[1..] == Consts(path) ==> fldIdx == PathOffset(source, path)
  {
    fldIdx, isConst := SumOffsets(table, source, ops);
    OffsetsAre(source, ops[1..]);
  }
}
