/** DWARF debug types, qualifier stripping, and the equality that ignores qualifiers, signedness and the
    kind of indirection. */
module DebugTypes {

  datatype Encoding = Signed | Unsigned | Boolean | Float | SignedChar | UnsignedChar | OtherEnc(code: nat)

  datatype DerivedTag =
    | ConstTag | AtomicTag | VolatileTag | RestrictTag | TypedefTag
    | MemberTag | PointerTag | PtrToMemberTag | ReferenceTag | RvalueReferenceTag
    | InheritanceTag | FriendTag

  datatype CompositeTag = ArrayTag | ClassTag | StructureTag | UnionTag | EnumerationTag

  /** A debug type; id is the identity of the metadata node, and Void is the null pointer.  The members
      of a composite are not compared and are left out. */
  datatype DIType =
    | Void
    | Basic(id: nat, encoding: Encoding, size: nat, align: nat)
    | Derived(id: nat, dtag: DerivedTag, base: DIType)
    | Composite(id: nat, ctag: CompositeTag, base: DIType, name: string, file: nat, line: nat, identifier: string)
    | Subroutine(id: nat)

  predicate IsQualifier(tag: DerivedTag) {
    tag.ConstTag? || tag.AtomicTag? || tag.VolatileTag? || tag.RestrictTag? || tag.TypedefTag?
  }

  /** Inheritance and friend entries are not types to strip or compare. */
  ghost predicate Proper(t: DIType) {
    match t
    case Derived(_, dtag, base) => !dtag.InheritanceTag? && !dtag.FriendTag? && Proper(base)
    case Composite(_, _, base, _, _, _, _) => Proper(base)
    case _ => true
  }

  function Strip(t: DIType): (r: DIType)
    ensures r == t || r < t
    ensures !(r.Derived? && IsQualifier(r.dtag))
    ensures Proper(t) ==> Proper(r)
  {
    if t.Derived? && IsQualifier(t.dtag) then Strip(t.base) else t
  }

  /** What goes: the four qualifiers and typedefs, one above the other; what stays: every other type. */
  lemma StripsExactly(id: nat, tag: DerivedTag, base: DIType)
    ensures tag in {ConstTag, AtomicTag, VolatileTag, RestrictTag, TypedefTag} ==>
      Strip(Derived(id, tag, base)) == Strip(base)
    ensures tag !in {ConstTag, AtomicTag, VolatileTag, RestrictTag, TypedefTag} ==>
      Strip(Derived(id, tag, base)) == Derived(id, tag, base)
    ensures !base.Derived? ==> Strip(base) == base
  {
  }

  lemma StripTwice(t: DIType)
    ensures Strip(Strip(t)) == Strip(t)
  {
  }

  /** stripQualifiers as the loop it is. */
  method StripQualifiers(t0: DIType) returns (t: DIType)
    requires Proper(t0)
    ensures t == Strip(t0)
  {
    t := t0;
    while t.Derived? && IsQualifier(t.dtag)
      invariant Strip(t) == Strip(t0)
      decreases t
    {
      t := t.base;
    }
  }

  predicate IsInteger(e: Encoding) { e.Signed? || e.Unsigned? || e.Boolean? }
  predicate IsChar(e: Encoding) { e.SignedChar? || e.UnsignedChar? }

  /** Pointers, references, members and arrays are compared by what they refer to. */
  predicate IsIndirect(t: DIType) {
    t.Derived? || (t.Composite? && t.ctag.ArrayTag?)
  }

  function Teq(a: DIType, b: DIType): bool
    decreases a
  {
    var t1, t2 := Strip(a), Strip(b);
    if t1 == t2 then true
    else if t1.Void? || t2.Void? then false
    else if t1.Basic? && t2.Basic? then
      && ((IsInteger(t1.encoding) && IsInteger(t2.encoding))
          || (t1.encoding.Float? && t2.encoding.Float?)
          || (IsChar(t1.encoding) && IsChar(t2.encoding)))
      && t1.size == t2.size && t1.align == t2.align
    else if IsIndirect(t1) && IsIndirect(t2) then Teq(t1.base, t2.base)
    else if t1.Composite? && t2.Composite? then
      if t1.ctag != t2.ctag then false
      else if t1.ctag.EnumerationTag? then true
      else if t1.ctag.ClassTag? then t1.identifier == t2.identifier
      else t1.name == t2.name && t1.file == t2.file && t1.line == t2.line
    else false
  }

  /** The class of a type under the equality. */
  datatype Key =
    | Nothing | Integer(size: nat, align: nat) | Real(size: nat, align: nat) | Character(size: nat, align: nat)
    | To(k: Key) | AnyEnum | Class(identifier: string) | Record(tag: CompositeTag, name: string, file: nat, line: nat)
    | Itself(t: DIType)

  ghost function KeyOf(t: DIType): Key
    decreases t
  {
    var s := Strip(t);
    match s
    case Void => Nothing
    case Basic(_, e, size, align) =>
      if IsInteger(e) then Integer(size, align) else if e.Float? then Real(size, align)
      else if IsChar(e) then Character(size, align) else Itself(s)
    case Derived(_, _, base) => To(KeyOf(base))
    case Composite(_, tag, base, name, file, line, identifier) =>
      if tag.ArrayTag? then To(KeyOf(base)) else if tag.EnumerationTag? then AnyEnum
      else if tag.ClassTag? then Class(identifier) else Record(tag, name, file, line)
    case Subroutine(_) => Itself(s)
  }

  /** Two types are equal exactly when they have one key. */
  lemma {:induction false} TeqIffSameKey(a: DIType, b: DIType)
    ensures Teq(a, b) <==> KeyOf(a) == KeyOf(b)
    decreases a
  {
    var t1, t2 := Strip(a), Strip(b);
    if IsIndirect(t1) && IsIndirect(t2) {
      TeqIffSameKey(t1.base, t2.base);
    }
  }

  lemma TeqIsEquivalence(a: DIType, b: DIType, c: DIType)
    ensures Teq(a, a)
    ensures Teq(a, b) ==> Teq(b, a)
    ensures Teq(a, b) && Teq(b, c) ==> Teq(a, c)
  {
    TeqIffSameKey(a, b);
    TeqIffSameKey(b, a);
    TeqIffSameKey(b, c);
    TeqIffSameKey(a, c);
  }

  lemma TeqStrip(a: DIType, b: DIType)
    ensures Teq(Strip(a), b) <==> Teq(a, b)
    ensures Teq(a, Strip(b)) <==> Teq(a, b)
  {
    StripTwice(a);
    StripTwice(b);
  }

  // ---------------------------------------------------------------- the equality case by case

  /** Basic types are equal when they have one size and alignment and are both integers, booleans
      included, both floating, or both characters. */
  lemma TeqBasics(a: DIType, b: DIType)
    requires a.Basic? && b.Basic?
    ensures Teq(a, b) <==> (a == b || (a.size == b.size && a.align == b.align && SameGroup(a.encoding, b.encoding)))
  {
  }

  predicate SameGroup(e: Encoding, d: Encoding) {
    || (e in {Signed, Unsigned, Boolean} && d in {Signed, Unsigned, Boolean})
    || (e == Float && d == Float)
    || (e in {SignedChar, UnsignedChar} && d in {SignedChar, UnsignedChar})
  }

  /** A type that refers to another one: a pointer, a reference, a member or an array. */
  predicate RefersTo(t: DIType, base: DIType) {
    || (t.Derived? && t.base == base && t.dtag !in {ConstTag, AtomicTag, VolatileTag, RestrictTag, TypedefTag})
    || (t.Composite? && t.base == base && t.ctag.ArrayTag?)
  }

  /** Such types are equal when what they refer to is, whatever their kinds. */
  lemma TeqReferences(a: DIType, x: DIType, b: DIType, y: DIType)
    requires RefersTo(a, x) && RefersTo(b, y)
    ensures Teq(a, b) <==> Teq(x, y)
  {
    if a == b { TeqIsEquivalence(x, x, x); }
  }

  /** Classes are equal by their mangled names, structures and unions by where they are defined, and
      enumerations always. */
  lemma TeqComposites(a: DIType, b: DIType)
    requires a.Composite? && b.Composite? && !a.ctag.ArrayTag? && !b.ctag.ArrayTag?
    ensures a.ctag != b.ctag ==> !Teq(a, b)
    ensures a.ctag == b.ctag ==>
      match a.ctag
      case EnumerationTag => Teq(a, b)
      case ClassTag => Teq(a, b) <==> a.identifier == b.identifier
      case _ => Teq(a, b) <==> (a.name == b.name && a.file == b.file && a.line == b.line)
  {}

  /** Types of different sorts are not equal, and a function type equals itself only. */
  lemma TeqSorts(a: DIType, b: DIType)
    requires Strip(a) == a && Strip(b) == b && Teq(a, b)
    ensures a.Void? <==> b.Void?
    ensures a.Basic? <==> b.Basic?
    ensures (exists x :: RefersTo(a, x)) <==> (exists y :: RefersTo(b, y))
    ensures a.Subroutine? || b.Subroutine? ==> a == b
  {
    assert a.Derived? || a.Composite? ==> (RefersTo(a, a.base) <==> IsIndirect(a));
    assert b.Derived? || b.Composite? ==> (RefersTo(b, b.base) <==> IsIndirect(b));
  }
}
