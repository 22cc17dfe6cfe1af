/** First-class types, what flattening one means, and where the parts of a type lie in the flattened
    sequence. */
module Flattening {

  /** Scalar stands for every type that is made of no others. */
  datatype Type =
    | Scalar(name: nat)
    | VectorT(len: nat, elem: Type)
    | FunctionT(params: seq<Type>, result: Type)
    | ArrayT(len: nat, elem: Type)
    | StructT(name: nat, fields: seq<Type>)

  /** A value of such a type is loaded and stored as a whole. */
  predicate IsSingleValue(t: Type) {
    t.Scalar? || t.VectorT?
  }

  /** Flattening takes such a type as it is. */
  predicate IsSimple(t: Type) {
    !t.ArrayT? && !t.StructT?
  }

  ghost function Size(t: Type): nat {
    match t
    case Scalar(_) => 1
    case VectorT(_, elem) => 1 + Size(elem)
    case FunctionT(params, result) => 1 + SizeAll(params) + Size(result)
    case ArrayT(_, elem) => 1 + Size(elem)
    case StructT(_, fields) => 1 + SizeAll(fields)
  }

  ghost function SizeAll(ts: seq<Type>): nat {
    if ts == [] then 0 else Size(ts[0]) + SizeAll(ts[1..])
  }

  lemma {:induction false} SizeOfPart(ts: seq<Type>, i: nat)
    requires i < |ts|
    ensures Size(ts[i]) <= SizeAll(ts)
  {
    if i > 0 { SizeOfPart(ts[1..], i - 1); }
  }

  /** The element type under all array dimensions, and the product of the dimensions. */
  function Base(t: Type): (r: Type)
    ensures !r.ArrayT?
    ensures t.ArrayT? ==> r < t
  {
    if t.ArrayT? then Base(t.elem) else t
  }

  function Total(t: Type): nat {
    if t.ArrayT? then t.len * Total(t.elem) else 1
  }

  function Repeat(s: seq<Type>, n: nat): seq<Type> {
    if n == 0 then [] else Repeat(s, n - 1) + s
  }

  /** The flattened elements: arrays are unrolled, except that an array without elements counts as one
      dummy element. */
  ghost function Flat(t: Type): seq<Type> {
    match t
    case ArrayT(_, _) => if Total(t) == 0 then [Base(t)] else Repeat(Flat(Base(t)), Total(t))
    case StructT(_, fields) => FlatAll(fields)
    case _ => [t]
  }

  ghost function FlatAll(ts: seq<Type>): seq<Type> {
    if ts == [] then [] else FlatAll(ts[..|ts| - 1]) + Flat(ts[|ts| - 1])
  }

  /** The flattened fields: an array counts as one element of its base type. */
  ghost function Fields(t: Type): seq<Type> {
    match t
    case ArrayT(_, _) => if Total(t) == 0 then [Base(t)] else Fields(Base(t))
    case StructT(_, fields) => FieldsAll(fields)
    case _ => [t]
  }

  ghost function FieldsAll(ts: seq<Type>): seq<Type> {
    if ts == [] then [] else FieldsAll(ts[..|ts| - 1]) + Fields(ts[|ts| - 1])
  }

  // ---------------------------------------------------------------- the recorded table of a type

  /** The record kept for a type: the field and element index of each top-level member, the two
      flattened sequences and their recorded lengths. */
  datatype StInfo = StInfo(stride: nat, fldIdx: seq<nat>, elemIdx: seq<nat>, fields: seq<Type>, elems: seq<Type>,
                           numFields: nat, numElems: nat)

  function Zeros(n: nat): seq<nat> {
    seq(n, _ => 0)
  }

  /** Where the members of an array lie: i times the flattened size of the member. */
  ghost function ArrayIdx(t: Type): seq<nat>
    requires t.ArrayT?
  {
    seq(t.len, i requires 0 <= i < t.len => i * |Flat(t.elem)|)
  }

  ghost function StructIdx(fields: seq<Type>): seq<nat> {
    seq(|fields|, i requires 0 <= i < |fields| => |FlatAll(fields[..i])|)
  }

  ghost function StructFldIdx(fields: seq<Type>): seq<nat> {
    seq(|fields|, i requires 0 <= i < |fields| => |FieldsAll(fields[..i])|)
  }

  ghost function InfoOf(t: Type): StInfo {
    match t
    case ArrayT(len, _) =>
      if Total(t) == 0 then StInfo(0, [0], [0], [Base(t)], [Base(t)], 1, 1)
      else StInfo(Total(t), Zeros(len), ArrayIdx(t), Fields(t), Flat(t), |Fields(t)|, |Flat(t)|)
    case StructT(_, fields) =>
      StInfo(1, StructFldIdx(fields), StructIdx(fields), FieldsAll(fields), FlatAll(fields),
             |FieldsAll(fields)|, |FlatAll(fields)|)
    case _ => StInfo(1, [0], [0], [t], [t], 1, 1)
  }

  /** No count that flattening computes with 32 bits overflows. */
  ghost predicate Fits(t: Type) {
    && |Flat(t)| < 0x1_0000_0000 && |Fields(t)| < 0x1_0000_0000 && Total(t) < 0x1_0000_0000
    && match t
       case ArrayT(len, elem) => len < 0x1_0000_0000 && Fits(elem) && Fits(Base(t))
       case StructT(_, fields) => |fields| < 0x1_0000_0000 && forall i :: 0 <= i < |fields| ==> Fits(fields[i])
       case VectorT(_, elem) => Fits(elem)
       case FunctionT(params, result) => Fits(result) && forall i :: 0 <= i < |params| ==> Fits(params[i])
       case _ => true
  }

  lemma {:induction false} RepeatLength(s: seq<Type>, n: nat)
    ensures |Repeat(s, n)| == n * |s|
  {
    if n > 0 { RepeatLength(s, n - 1); }
  }

  lemma {:induction false} RepeatSum(s: seq<Type>, a: nat, b: nat)
    ensures Repeat(s, a + b) == Repeat(s, a) + Repeat(s, b)
  {
    if b > 0 { RepeatSum(s, a, b - 1); }
  }

  lemma {:induction false} RepeatProduct(s: seq<Type>, a: nat, b: nat)
    ensures Repeat(s, a * b) == Repeat(Repeat(s, b), a)
  {
    if a > 0 {
      RepeatProduct(s, a - 1, b);
      assert a * b == (a - 1) * b + b;
      RepeatSum(s, (a - 1) * b, b);
    } else {
      assert a * b == 0;
    }
  }

  /** Nested arrays repeat the element's sequence. */
  lemma ArrayRepeatsElement(t: Type)
    requires t.ArrayT? && Total(t) > 0
    ensures Total(t.elem) > 0 && t.len > 0
    ensures Flat(t) == Repeat(Flat(t.elem), t.len)
    ensures |Flat(t)| == t.len * |Flat(t.elem)| == Total(t) * |Flat(Base(t))|
    ensures |Flat(t.elem)| == Total(t.elem) * |Flat(Base(t))|
  {
    assert Total(t) == t.len * Total(t.elem);
    var s := Flat(Base(t));
    RepeatProduct(s, t.len, Total(t.elem));
    RepeatLength(s, Total(t));
    RepeatLength(s, Total(t.elem));
    assert Repeat(s, 1) == Repeat(s, 0) + s == s;
    assert Flat(t.elem) == Repeat(s, Total(t.elem)) by {
      if !t.elem.ArrayT? { assert Base(t) == t.elem && Total(t.elem) == 1; }
    }
    RepeatLength(Flat(t.elem), t.len);
  }

  /** A repetition holds the sequence at every multiple of its length. */
  lemma {:induction false} RepeatAt(s: seq<Type>, n: nat, i: nat)
    requires i < n
    ensures |Repeat(s, n)| == n * |s| && (i + 1) * |s| <= n * |s| && i * |s| <= (i + 1) * |s|
    ensures Repeat(s, n)[i * |s|..(i + 1) * |s|] == s
  {
    RepeatLength(s, n);
    RepeatLength(s, n - 1);
    RepeatLength(s, i);
    RepeatSum(s, i + 1, n - (i + 1));
    RepeatLength(s, i + 1);
    RepeatLength(s, n - (i + 1));
    MulSuc(i, |s|);
    assert n * |s| == (i + 1) * |s| + (n - (i + 1)) * |s|;
    assert Repeat(s, i + 1) == Repeat(s, i) + s;
  }

  lemma MulSuc(i: nat, n: nat)
    ensures (i + 1) * n == i * n + n
  {
  }

  lemma {:induction false} FlatAllAt(ts: seq<Type>, i: nat)
    requires i < |ts|
    ensures |FlatAll(ts[..i])| + |Flat(ts[i])| <= |FlatAll(ts)|
    ensures FlatAll(ts)[|FlatAll(ts[..i])|..|FlatAll(ts[..i])| + |Flat(ts[i])|] == Flat(ts[i])
  {
    var n := |ts| - 1;
    if i < n {
      FlatAllAt(ts[..n], i);
      assert ts[..n][..i] == ts[..i];
      assert FlatAll(ts) == FlatAll(ts[..n]) + Flat(ts[n]);
    }
  }

  // ---------------------------------------------------------------- parts of a type

  predicate HasMember(t: Type, i: nat) {
    match t
    case ArrayT(len, _) => i < len
    case StructT(_, fields) => i < |fields|
    case _ => false
  }

  function Member(t: Type, i: nat): Type
    requires HasMember(t, i)
  {
    if t.ArrayT? then t.elem else t.fields[i]
  }

  ghost predicate LiesAt(s: seq<Type>, u: seq<Type>, off: nat) {
    off + |u| <= |s| && s[off..off + |u|] == u
  }

  lemma LiesWithin(s: seq<Type>, m: seq<Type>, u: seq<Type>, a: nat, b: nat)
    requires LiesAt(s, m, a) && LiesAt(m, u, b)
    ensures LiesAt(s, u, a + b)
  {
    forall i | 0 <= i < |u|
      ensures s[a + b + i] == u[i]
    {
      assert m[b + i] == s[a..a + |m|][b + i];
      assert u[i] == m[b..b + |u|][i];
    }
  }

  /** Whether the record of a type has an index for a member: an array that flattens to nothing has one
      for its first member only. */
  predicate HasRecord(t: Type, i: nat) {
    HasMember(t, i) && (t.ArrayT? && Total(t) == 0 ==> i == 0)
  }

  /** Those are the members that can be looked up, and the recorded index of a member is where its
      flattened sequence lies in its parent's. */
  lemma MemberAt(t: Type, i: nat)
    requires HasMember(t, i)
    ensures HasRecord(t, i) <==> i < |InfoOf(t).elemIdx|
    ensures HasRecord(t, i) ==> LiesAt(Flat(t), Flat(Member(t, i)), InfoOf(t).elemIdx[i])
  {
    match t
    case ArrayT(len, elem) =>
      if Total(t) > 0 {
        ArrayRepeatsElement(t);
        RepeatAt(Flat(elem), len, i);
        MulSuc(i, |Flat(elem)|);
      } else {
        EmptyElement(t);
      }
    case StructT(_, fields) =>
      FlatAllAt(fields, i);
  }

  /** The recorded field index of a member is where its flattened fields lie; all elements of an array share
      the fields of one. */
  lemma MemberFieldsAt(t: Type, i: nat)
    requires HasRecord(t, i)
    ensures i < |InfoOf(t).fldIdx| && LiesAt(Fields(t), Fields(Member(t, i)), InfoOf(t).fldIdx[i])
    ensures t.ArrayT? ==> InfoOf(t).fldIdx[i] == 0 && Fields(t) == Fields(Member(t, i))
  {
    match t
    case ArrayT(len, elem) =>
      SharedFields(t);
    case StructT(_, fields) =>
      FieldsAllAt(fields, i);
  }

  lemma SharedFields(t: Type)
    requires t.ArrayT? && t.len > 0
    ensures Fields(t) == Fields(t.elem)
  {
    if Total(t) == 0 {
      EmptyElement(t);
    } else {
      ArrayRepeatsElement(t);
    }
  }

  /** The fields of a structure's members follow one another without a gap. */
  lemma MemberFieldsOrder(t: Type, i: nat)
    requires t.StructT? && i < |t.fields|
    ensures |InfoOf(t).fldIdx| == |t.fields|
    ensures InfoOf(t).fldIdx[i] + |Fields(t.fields[i])| ==
      if i + 1 < |t.fields| then InfoOf(t).fldIdx[i + 1] else |Fields(t)|
    ensures i == 0 ==> InfoOf(t).fldIdx[i] == 0
  {
    FlatAllPrefix(t.fields, i);
    assert t.fields[..|t.fields|] == t.fields;
  }

  lemma {:induction false} FieldsAllAt(ts: seq<Type>, i: nat)
    requires i < |ts|
    ensures |FieldsAll(ts[..i])| + |Fields(ts[i])| <= |FieldsAll(ts)|
    ensures FieldsAll(ts)[|FieldsAll(ts[..i])|..|FieldsAll(ts[..i])| + |Fields(ts[i])|] == Fields(ts[i])
  {
    var n := |ts| - 1;
    if i < n {
      FieldsAllAt(ts[..n], i);
      assert ts[..n][..i] == ts[..i];
      assert FieldsAll(ts) == FieldsAll(ts[..n]) + Fields(ts[n]);
    }
  }

  /** The counts of a record are the lengths of its sequences, and the stride of an array is the number of
      its elements, all dimensions multiplied. */
  lemma RecordCounts(t: Type)
    ensures var r := InfoOf(t);
      && r.numFields == |r.fields| && r.numElems == |r.elems| && |r.fldIdx| == |r.elemIdx|
      && (t.ArrayT? ==> r.stride * |Flat(Base(t))| == if Total(t) == 0 then 0 else r.numElems)
      && (!t.ArrayT? ==> r.stride == 1)
  {
    if t.ArrayT? && Total(t) > 0 { ArrayRepeatsElement(t); }
  }

  /** An array of arrays that flattens to nothing, like each of its elements, has the same dummy element
      as they have. */
  lemma EmptyElement(t: Type)
    requires t.ArrayT? && t.len > 0 && Total(t) == 0
    ensures t.elem.ArrayT? && Flat(t.elem) == Flat(t) == [Base(t)]
  {
    MulMono(1, t.len, Total(t.elem));
  }

  /** The members of a type partition its positions. */
  lemma MemberOrder(t: Type, i: nat, j: nat)
    requires HasRecord(t, j) && i < j
    ensures HasRecord(t, i) && i < |InfoOf(t).elemIdx| && j < |InfoOf(t).elemIdx|
    ensures InfoOf(t).elemIdx[i] + |Flat(Member(t, i))| <= InfoOf(t).elemIdx[j]
  {
    MemberAt(t, i);
    MemberAt(t, j);
    match t
    case ArrayT(len, elem) =>
      MulSuc(i, |Flat(elem)|);
      MulMono(i + 1, j, |Flat(elem)|);
    case StructT(_, fields) =>
      FlatAllAt(fields[..j], i);
      assert fields[..j][..i] == fields[..i];
  }

  lemma MulMono(a: nat, b: nat, n: nat)
    requires a <= b
    ensures a * n <= b * n
  {
  }

  /** A type whose one position belongs to no member: a simple one, or an array of length zero with its
      dummy element. */
  predicate IsLeaf(t: Type) {
    IsSimple(t) || (t.ArrayT? && t.len == 0)
  }

  /** Every other position belongs to a member. */
  lemma MemberOf(t: Type, pos: nat) returns (i: nat)
    requires !IsLeaf(t) && pos < |Flat(t)|
    ensures HasRecord(t, i) && i < |InfoOf(t).elemIdx|
    ensures InfoOf(t).elemIdx[i] <= pos < InfoOf(t).elemIdx[i] + |Flat(Member(t, i))|
  {
    match t
    case ArrayT(len, elem) =>
      if Total(t) > 0 {
        ArrayRepeatsElement(t);
        i := WhichRepeat(|Flat(elem)|, len, pos);
        MulSuc(i, |Flat(elem)|);
      } else {
        EmptyElement(t);
        i := 0;
      }
    case StructT(_, fields) =>
      i := WhichField(fields, pos);
  }

  lemma {:induction false} WhichRepeat(n: nat, len: nat, pos: nat) returns (i: nat)
    requires pos < len * n
    ensures i < len && i * n <= pos < (i + 1) * n
  {
    if len > 0 && pos >= (len - 1) * n {
      i := len - 1;
    } else {
      i := WhichRepeat(n, len - 1, pos);
    }
  }

  lemma {:induction false} WhichField(fields: seq<Type>, pos: nat) returns (i: nat)
    requires pos < |FlatAll(fields)|
    ensures i < |fields| && |FlatAll(fields[..i])| <= pos < |FlatAll(fields[..i])| + |Flat(fields[i])|
  {
    var n := |fields| - 1;
    if pos >= |FlatAll(fields[..n])| {
      i := n;
    } else {
      i := WhichField(fields[..n], pos);
      assert fields[..n][..i] == fields[..i];
    }
  }

  lemma {:induction false} FlatAllPrefix(ts: seq<Type>, i: nat)
    requires i < |ts|
    ensures FlatAll(ts[..i + 1]) == FlatAll(ts[..i]) + Flat(ts[i])
    ensures FieldsAll(ts[..i + 1]) == FieldsAll(ts[..i]) + Fields(ts[i])
    ensures |FlatAll(ts[..i + 1])| <= |FlatAll(ts)| && |FieldsAll(ts[..i + 1])| <= |FieldsAll(ts)|
    decreases |ts|
  {
    assert ts[..i + 1][..i] == ts[..i];
    if i + 1 < |ts| {
      var init := ts[..|ts| - 1];
      FlatAllPrefix(init, i);
      assert init[..i + 1] == ts[..i + 1];
    } else {
      assert ts[..i + 1] == ts;
    }
  }
}
