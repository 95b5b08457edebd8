/** The two-type relations of the base type system: descent, assignability,
    cast validity, implicit conversion, literal range checks, accessibility,
    lexical enclosure and the least common ancestor. */
module TypeRelations {
  import opened Wrappers
  import opened Types

  // ---------------------------------------------------------------------
  // Descent
  // ---------------------------------------------------------------------

  /** The direct supertypes of a type: the superclass of a class other than
      Object, followed by the declared interfaces. */
  function ParentsOf(tbl: ClassTable, t: Type): (ps: seq<Type>)
    requires WellFormed(tbl) && ValidType(tbl, t)
    ensures forall i :: 0 <= i < |ps| ==>
      t.ClassType? && ps[i].ClassType? && ValidType(tbl, ps[i]) && ps[i].id < t.id
    ensures forall i :: 0 <= i < |ps| ==> IsInterface(tbl, t) ==> IsInterface(tbl, ps[i])
    ensures IsClass(tbl, t) && t != ClassType(ObjectId) ==> |ps| > 0 && SuperOf(tbl, t) == Some(ps[0])
  {
    var ifs := InterfacesOf(tbl, t);
    var declared := seq(|ifs|, i requires 0 <= i < |ifs| => ClassType(ifs[i]));
    if IsClass(tbl, t) && t != ClassType(ObjectId) then
      assert WellFormedEntry(tbl, t.id);
      [SuperOf(tbl, t).value] + declared
    else declared
  }

  /** True iff child and ancestor are distinct reference types and child
      descends from ancestor through superclass and interface links; the
      null type descends from every reference type, and an interface or an
      array descends from Object although it has no superclass link. */
  function DescendsFrom(tbl: ClassTable, child: Type, ancestor: Type): (r: bool)
    requires WellFormed(tbl) && ValidType(tbl, child) && ValidType(tbl, ancestor)
    ensures r ==> child != ancestor && IsReference(ancestor) && !child.Prim?
    decreases ChainRank(Some(child))
  {
    if IsReference(ancestor) && child == NullType then true
    else if ancestor == child || !IsReference(child) || !IsReference(ancestor) then false
    else if IsClass(tbl, child) && child == ClassType(ObjectId) then false
    else if !IsClass(tbl, child) && ancestor == ClassType(ObjectId) then true
    else
      var ps := ParentsOf(tbl, child);
      exists i :: 0 <= i < |ps| && (ps[i] == ancestor || DescendsFrom(tbl, ps[i], ancestor))
  }

  /** The ancestors of a class or interface are classes or interfaces;
      their numbering orders descent, an ancestor being numbered before its
      descendants. */
  lemma {:induction false} DescendsFromClassType(tbl: ClassTable, child: Type, ancestor: Type)
    requires WellFormed(tbl) && ValidType(tbl, child) && ValidType(tbl, ancestor)
    requires child.ClassType? && DescendsFrom(tbl, child, ancestor)
    ensures ancestor.ClassType? && ancestor.id < child.id
    decreases child.id
  {
    if !IsClass(tbl, child) && ancestor == ClassType(ObjectId) {
    } else {
      var ps := ParentsOf(tbl, child);
      var i :| 0 <= i < |ps| && (ps[i] == ancestor || DescendsFrom(tbl, ps[i], ancestor));
      if ps[i] != ancestor {
        DescendsFromClassType(tbl, ps[i], ancestor);
      }
    }
  }

  /** An interface descends only from Object and from other interfaces. */
  lemma {:induction false} InterfaceAncestors(tbl: ClassTable, child: Type, ancestor: Type)
    requires WellFormed(tbl) && ValidType(tbl, child) && ValidType(tbl, ancestor)
    requires IsInterface(tbl, child) && DescendsFrom(tbl, child, ancestor)
    ensures ancestor == ClassType(ObjectId) || IsInterface(tbl, ancestor)
    decreases child.id
  {
    if ancestor != ClassType(ObjectId) {
      var ps := ParentsOf(tbl, child);
      var i :| 0 <= i < |ps| && (ps[i] == ancestor || DescendsFrom(tbl, ps[i], ancestor));
      if ps[i] != ancestor {
        InterfaceAncestors(tbl, ps[i], ancestor);
      }
    }
  }

  /** An array descends from Object and from nothing else. */
  lemma ArrayAncestors(tbl: ClassTable, child: Type, ancestor: Type)
    requires WellFormed(tbl) && ValidType(tbl, child) && ValidType(tbl, ancestor)
    requires child.ArrayType?
    ensures DescendsFrom(tbl, child, ancestor) <==> ancestor == ClassType(ObjectId)
  {
  }

  /** Descent never runs both ways between two types. */
  lemma DescendsFromAsymmetric(tbl: ClassTable, a: Type, b: Type)
    requires WellFormed(tbl) && ValidType(tbl, a) && ValidType(tbl, b)
    ensures !(DescendsFrom(tbl, a, b) && DescendsFrom(tbl, b, a))
  {
    if DescendsFrom(tbl, a, b) && a.ClassType? {
      DescendsFromClassType(tbl, a, b);
      if DescendsFrom(tbl, b, a) {
        DescendsFromClassType(tbl, b, a);
      }
    }
  }

  /** Every class other than Object reaches Object along its superclass chain. */
  lemma {:induction false} ClassDescendsFromObject(tbl: ClassTable, t: Type)
    requires WellFormed(tbl) && ValidType(tbl, t)
    requires IsClass(tbl, t) && t != ClassType(ObjectId)
    ensures DescendsFrom(tbl, t, ClassType(ObjectId))
    decreases t.id
  {
    var ps := ParentsOf(tbl, t);
    if ps[0] != ClassType(ObjectId) {
      assert WellFormedEntry(tbl, t.id);
      ClassDescendsFromObject(tbl, ps[0]);
    }
  }

  /** Every reference type other than Object descends from Object. */
  lemma ReferenceDescendsFromObject(tbl: ClassTable, t: Type)
    requires WellFormed(tbl) && ValidType(tbl, t)
    requires IsReference(t) && t != ClassType(ObjectId)
    ensures DescendsFrom(tbl, t, ClassType(ObjectId))
  {
    if IsClass(tbl, t) {
      ClassDescendsFromObject(tbl, t);
    }
  }

  /** Descent is transitive. */
  lemma {:induction false} DescendsFromTransitive(tbl: ClassTable, a: Type, b: Type, c: Type)
    requires WellFormed(tbl) && ValidType(tbl, a) && ValidType(tbl, b) && ValidType(tbl, c)
    requires DescendsFrom(tbl, a, b) && DescendsFrom(tbl, b, c)
    ensures DescendsFrom(tbl, a, c)
    decreases ChainRank(Some(a))
  {
    if a == NullType || (!IsClass(tbl, a) && c == ClassType(ObjectId)) {
    } else if !IsClass(tbl, a) && b == ClassType(ObjectId) {
      assert false;
    } else {
      if a == c {
        DescendsFromAsymmetric(tbl, a, b);
      }
      var ps := ParentsOf(tbl, a);
      var i :| 0 <= i < |ps| && (ps[i] == b || DescendsFrom(tbl, ps[i], b));
      if ps[i] != b {
        DescendsFromTransitive(tbl, ps[i], b, c);
      }
    }
  }

  // ---------------------------------------------------------------------
  // Assignability and conversions
  // ---------------------------------------------------------------------

  /** Assignability as written: numeric kinds by their order, boolean only
      to boolean, void never; arrays by the assignability of their element
      types; null to every non-primitive; classes by equality or descent. */
  function IsAssignableSubtypeAsWritten(tbl: ClassTable, child: Type, ancestor: Type): (r: bool)
    requires WellFormed(tbl) && ValidType(tbl, child) && ValidType(tbl, ancestor)
    ensures r ==> (child.Prim? <==> ancestor.Prim?)
    ensures child == Prim(Void) ==> !r
  {
    if child.Prim? && ancestor.Prim? then PrimAssignable(child.kind, ancestor.kind)
    else if child.Prim? || ancestor.Prim? then false
    else if child.ArrayType? then
      if ancestor.ArrayType? then IsAssignableSubtypeAsWritten(tbl, child.base, ancestor.base)
      else DescendsFrom(tbl, child, ancestor)
    else if child.NullType? then true
    else if !IsReference(ancestor) then false
    else child == ancestor || DescendsFrom(tbl, child, ancestor)
  }

  /** Primitive assignability: void never, boolean only to boolean, numeric
      kinds up the ladder. */
  predicate PrimAssignable(c: PrimKind, a: PrimKind)
  {
    if c == Void then false
    else if c == Boolean && a == Boolean then true
    else if c == Boolean || a == Boolean then false
    else KindNumber(c) <= KindNumber(a)
  }

  /** As written, an array of int is assignable, and so converts
      implicitly, to an array of long although no cast between the two is
      valid. */
  lemma PrimitiveArrayAssignableAsWritten(tbl: ClassTable)
    requires WellFormed(tbl)
    ensures IsAssignableSubtypeAsWritten(tbl, ArrayType(Prim(Int)), ArrayType(Prim(Long)))
    ensures IsImplicitCastValid(tbl, ArrayType(Prim(Int)), ArrayType(Prim(Long)))
    ensures !IsCastValid(tbl, ArrayType(Prim(Int)), ArrayType(Prim(Long)))
    ensures !IsAssignableSubtype(tbl, ArrayType(Prim(Int)), ArrayType(Prim(Long)))
  {
  }

  /** True iff a value of type child may be assigned to a variable of type
      ancestor: as written, except that arrays whose element types are
      primitive additionally need identical element types. */
  function IsAssignableSubtype(tbl: ClassTable, child: Type, ancestor: Type): (r: bool)
    requires WellFormed(tbl) && ValidType(tbl, child) && ValidType(tbl, ancestor)
    ensures r ==> IsAssignableSubtypeAsWritten(tbl, child, ancestor)
  {
    if child.Prim? && ancestor.Prim? then PrimAssignable(child.kind, ancestor.kind)
    else if child.Prim? || ancestor.Prim? then false
    else if child.ArrayType? then
      if ancestor.ArrayType? then
        (!(child.base.Prim? || ancestor.base.Prim?) || child.base == ancestor.base)
        && IsAssignableSubtype(tbl, child.base, ancestor.base)
      else DescendsFrom(tbl, child, ancestor)
    else if child.NullType? then true
    else if !IsReference(ancestor) then false
    else child == ancestor || DescendsFrom(tbl, child, ancestor)
  }

  /** The element type of an array at its innermost dimension. */
  function Innermost(t: Type): Type
  {
    if t.ArrayType? then Innermost(t.base) else t
  }

  /** The correction changes nothing unless the assigned type is an array
      of primitives, at any depth. */
  lemma {:induction false} AssignableAgreesOutsidePrimitiveArrays(tbl: ClassTable, child: Type, ancestor: Type)
    requires WellFormed(tbl) && ValidType(tbl, child) && ValidType(tbl, ancestor)
    requires !(child.ArrayType? && Innermost(child).Prim?)
    ensures IsAssignableSubtype(tbl, child, ancestor) == IsAssignableSubtypeAsWritten(tbl, child, ancestor)
    decreases child
  {
    if child.ArrayType? && ancestor.ArrayType? {
      AssignableAgreesOutsidePrimitiveArrays(tbl, child.base, ancestor.base);
    }
  }

  /** A type that mentions no void, at any array depth. */
  predicate VoidFree(t: Type)
  {
    match t
    case Prim(k) => k != Void
    case ArrayType(b) => VoidFree(b)
    case _ => true
  }

  /** Assignability is reflexive on every type that mentions no void (void
      is not assignable even to itself). */
  lemma {:induction false} AssignableReflexive(tbl: ClassTable, t: Type)
    requires WellFormed(tbl) && ValidType(tbl, t) && VoidFree(t)
    ensures IsAssignableSubtype(tbl, t, t)
  {
    if t.ArrayType? {
      AssignableReflexive(tbl, t.base);
    }
  }

  /** Void is assignable to nothing, itself included. */
  lemma VoidNeverAssignable(tbl: ClassTable, a: Type)
    requires WellFormed(tbl) && ValidType(tbl, a)
    ensures !IsAssignableSubtype(tbl, Prim(Void), a)
  {
  }

  /** Array assignability is covariant in reference element types, and an
      array of a primitive is assignable only to an array of the same
      primitive. */
  lemma ArrayAssignableIffElements(tbl: ClassTable, a: Type, b: Type)
    requires WellFormed(tbl) && ValidType(tbl, a) && ValidType(tbl, b)
    ensures !a.Prim? && !b.Prim? ==>
      (IsAssignableSubtype(tbl, ArrayType(a), ArrayType(b)) <==> IsAssignableSubtype(tbl, a, b))
    ensures a.Prim? || b.Prim? ==>
      (IsAssignableSubtype(tbl, ArrayType(a), ArrayType(b)) <==> a == b && VoidFree(a))
  {
  }

  /** Null is assignable to every non-primitive type and to no primitive one. */
  lemma NullAssignableIffNotPrimitive(tbl: ClassTable, a: Type)
    requires WellFormed(tbl) && ValidType(tbl, a)
    ensures IsAssignableSubtype(tbl, NullType, a) <==> !a.Prim?
  {
  }

  /** An array is assignable to a non-array type only when that type is Object. */
  lemma ArrayAssignableToNonArray(tbl: ClassTable, a: Type, b: Type)
    requires WellFormed(tbl) && ValidType(tbl, a) && ValidType(tbl, b)
    requires a.ArrayType? && !b.ArrayType?
    ensures IsAssignableSubtype(tbl, a, b) <==> b == ClassType(ObjectId)
  {
    ArrayAncestors(tbl, a, b);
  }

  /** Assignability is transitive. */
  lemma {:induction false} AssignableTransitive(tbl: ClassTable, a: Type, b: Type, c: Type)
    requires WellFormed(tbl) && ValidType(tbl, a) && ValidType(tbl, b) && ValidType(tbl, c)
    requires IsAssignableSubtype(tbl, a, b) && IsAssignableSubtype(tbl, b, c)
    ensures IsAssignableSubtype(tbl, a, c)
    decreases a
  {
    if a.Prim? || a.NullType? {
    } else if a.ArrayType? {
      if b.ArrayType? && c.ArrayType? {
        AssignableTransitive(tbl, a.base, b.base, c.base);
      } else if b.ArrayType? {
        ArrayAssignableToNonArray(tbl, b, c);
        ArrayAssignableToNonArray(tbl, a, c);
      } else {
        ArrayAssignableToNonArray(tbl, a, b);
        if b != c {
          ReferenceDescendsFromObject(tbl, c);
          DescendsFromAsymmetric(tbl, b, c);
        }
      }
    } else {
      if a != b {
        DescendsFromClassType(tbl, a, b);
      }
      if a != b && b != c {
        DescendsFromTransitive(tbl, a, b, c);
      }
    }
  }

  /** The switch on the source kind of a primitive widening: each case tests
      one target kind and otherwise falls through to the next case. */
  function WideningSwitch(from: PrimKind, to: PrimKind): bool
    decreases 9 - KindNumber(from)
  {
    match from
    case Byte | Short | Char => to == Int || WideningSwitch(Int, to)
    case Int => to == Long || WideningSwitch(Long, to)
    case Long => to == Float || WideningSwitch(Float, to)
    case Float => to == Double
    case _ => false
  }

  /** True iff the type system converts from to to without a cast: equal
      types, the primitive widenings, and otherwise assignability, as
      written, between non-primitive types. */
  function IsImplicitCastValid(tbl: ClassTable, from: Type, to: Type): (r: bool)
    requires WellFormed(tbl) && ValidType(tbl, from) && ValidType(tbl, to)
    ensures from == to ==> r
    ensures r ==> (from.Prim? <==> to.Prim?)
  {
    if from == to then true
    else if from.Prim? then
      if !to.Prim? then false
      else if !IsNumeric(from.kind) || !IsNumeric(to.kind) then false
      else WideningSwitch(from.kind, to.kind)
    else if to.Prim? then false
    else IsAssignableSubtypeAsWritten(tbl, from, to)
  }

  /** The primitive widenings as a table. */
  predicate Widens(from: PrimKind, to: PrimKind)
  {
    || ((from == Byte || from == Short || from == Char) && (to == Int || to == Long || to == Float || to == Double))
    || (from == Int && (to == Long || to == Float || to == Double))
    || (from == Long && (to == Float || to == Double))
    || (from == Float && to == Double)
  }

  /** Between primitives, an implicit cast is valid exactly for equal kinds
      and the widenings of the table: byte, short and char widen to int,
      long, float and double but not to each other. */
  lemma ImplicitPrimitiveTable(tbl: ClassTable, from: PrimKind, to: PrimKind)
    requires WellFormed(tbl)
    ensures IsImplicitCastValid(tbl, Prim(from), Prim(to)) <==> from == to || Widens(from, to)
  {
    WideningSwitchTable(from, to);
  }

  /** The chain of widening cases agrees with the table. */
  lemma {:induction false} WideningSwitchTable(from: PrimKind, to: PrimKind)
    ensures WideningSwitch(from, to) <==> Widens(from, to)
    decreases 9 - KindNumber(from)
  {
    match from
    case Byte | Short | Char =>
      assert WideningSwitch(Int, to) <==> Widens(Int, to) by { WideningSwitchTable(Int, to); }
    case Int =>
      assert WideningSwitch(Long, to) <==> Widens(Long, to) by { WideningSwitchTable(Long, to); }
    case Long =>
    case _ =>
  }

  /** Primitive implicit casts only climb the numeric ladder. */
  lemma ImplicitPrimitiveClimbs(tbl: ClassTable, from: PrimKind, to: PrimKind)
    requires WellFormed(tbl)
    requires from != to && IsImplicitCastValid(tbl, Prim(from), Prim(to))
    ensures IsNumeric(from) && IsNumeric(to) && KindNumber(from) < KindNumber(to)
    ensures !IsImplicitCastValid(tbl, Prim(to), Prim(from))
  {
    ImplicitPrimitiveTable(tbl, from, to);
    ImplicitPrimitiveTable(tbl, to, from);
  }

  /** A non-primitive type never converts implicitly to a primitive one. */
  lemma ImplicitNeverUnboxes(tbl: ClassTable, from: Type, k: PrimKind)
    requires WellFormed(tbl) && ValidType(tbl, from) && !from.Prim?
    ensures !IsImplicitCastValid(tbl, from, Prim(k))
  {
  }

  /** Every implicit cast from a void-free type is an assignment. */
  lemma ImplicitCastIsAssignable(tbl: ClassTable, from: Type, to: Type)
    requires WellFormed(tbl) && ValidType(tbl, from) && ValidType(tbl, to)
    requires VoidFree(from) && IsImplicitCastValid(tbl, from, to)
    ensures IsAssignableSubtypeAsWritten(tbl, from, to)
  {
    if from == to {
      AssignableAsWrittenReflexive(tbl, from);
    } else if from.Prim? {
      ImplicitPrimitiveTable(tbl, from.kind, to.kind);
    }
  }

  /** True iff a cast from one type to another may succeed for some value,
      following the legality table of section 5.5 of the Java Language
      Specification. */
  function IsCastValid(tbl: ClassTable, from: Type, to: Type): (r: bool)
    requires WellFormed(tbl) && ValidType(tbl, from) && ValidType(tbl, to)
    ensures from == to ==> r
    ensures r ==> (from.Prim? <==> to.Prim?)
  {
    if from == to then true
    else if from.Prim? then
      to.Prim? && IsNumeric(from.kind) && IsNumeric(to.kind)
    else if to.Prim? then false
    else if from.NullType? then true
    else if from.ArrayType? && to.ArrayType? then
      if from.base.Prim? then to.base == from.base
      else if to.base.Prim? then false
      else IsCastValid(tbl, from.base, to.base)
    else if from.ArrayType? then DescendsFrom(tbl, from, to)
    else if to.ArrayType? then DescendsFrom(tbl, to, from)
    else if !from.ClassType? || !to.ClassType? then false
    else
      var fromInterface := tbl[from.id].flags.isInterface;
      var toInterface := tbl[to.id].flags.isInterface;
      var fromFinal := tbl[from.id].flags.isFinal;
      var toFinal := tbl[to.id].flags.isFinal;
      if !fromInterface then
        if !toInterface then DescendsFrom(tbl, from, to) || DescendsFrom(tbl, to, from)
        else if fromFinal then DescendsFrom(tbl, from, to)
        else true
      else
        if !toInterface && !toFinal then true
        else if toFinal then DescendsFrom(tbl, to, from)
        else true
  }

  /** Casts between distinct primitives hold exactly between numeric kinds;
      a cast between a primitive and a non-primitive never holds. */
  lemma CastPrimitives(tbl: ClassTable, from: Type, to: Type)
    requires WellFormed(tbl) && ValidType(tbl, from) && ValidType(tbl, to)
    requires from.Prim? || to.Prim?
    ensures from != to ==>
      (IsCastValid(tbl, from, to) <==> from.Prim? && to.Prim? && IsNumeric(from.kind) && IsNumeric(to.kind))
  {
  }

  /** An array of a primitive element type casts only to the array of the
      identical element type. */
  lemma CastPrimitiveArray(tbl: ClassTable, k: PrimKind, to: Type)
    requires WellFormed(tbl) && ValidType(tbl, to) && to.ArrayType?
    ensures IsCastValid(tbl, ArrayType(Prim(k)), to) <==> to.base == Prim(k)
  {
  }

  /** Two unrelated non-final classes may be cast to one another only if
      one descends from the other; a cast between an unrelated non-final
      class and an interface is always accepted; a final class casts to an
      interface only if it implements it. */
  lemma CastClassTable(tbl: ClassTable, from: Type, to: Type)
    requires WellFormed(tbl) && ValidType(tbl, from) && ValidType(tbl, to)
    requires from.ClassType? && to.ClassType? && from != to
    ensures IsClass(tbl, from) && IsClass(tbl, to) ==>
      (IsCastValid(tbl, from, to) <==> DescendsFrom(tbl, from, to) || DescendsFrom(tbl, to, from))
    ensures IsClass(tbl, from) && !tbl[from.id].flags.isFinal && IsInterface(tbl, to) ==> IsCastValid(tbl, from, to)
    ensures IsClass(tbl, from) && tbl[from.id].flags.isFinal && IsInterface(tbl, to) ==>
      (IsCastValid(tbl, from, to) <==> DescendsFrom(tbl, from, to))
    ensures IsInterface(tbl, from) && IsInterface(tbl, to) && !tbl[to.id].flags.isFinal ==> IsCastValid(tbl, from, to)
  {
  }

  /** Cast validity is symmetric between two classes that are not interfaces. */
  lemma CastBetweenClassesSymmetric(tbl: ClassTable, a: Type, b: Type)
    requires WellFormed(tbl) && ValidType(tbl, a) && ValidType(tbl, b)
    requires IsClass(tbl, a) && IsClass(tbl, b)
    ensures IsCastValid(tbl, a, b) <==> IsCastValid(tbl, b, a)
  {
  }

  /** Every assignment between void-free types is also a valid cast. */
  lemma {:induction false} AssignableIsCastValid(tbl: ClassTable, from: Type, to: Type)
    requires WellFormed(tbl) && ValidType(tbl, from) && ValidType(tbl, to)
    requires VoidFree(from) && IsAssignableSubtype(tbl, from, to)
    ensures IsCastValid(tbl, from, to)
  {
    if from.ArrayType? && to.ArrayType? && !from.base.Prim? && !to.base.Prim? {
      AssignableIsCastValid(tbl, from.base, to.base);
    } else if from.ClassType? && from != to {
      DescendsFromClassType(tbl, from, to);
      if IsInterface(tbl, from) {
        InterfaceAncestors(tbl, from, to);
      }
    }
  }

  // ---------------------------------------------------------------------
  // Integer literals
  // ---------------------------------------------------------------------

  const LongMin: int := -0x8000_0000_0000_0000
  const LongMax: int := 0x7FFF_FFFF_FFFF_FFFF

  predicate IsLong(v: int)
  {
    LongMin <= v <= LongMax
  }

  /** Math.abs on a 64-bit long: the negation of the most negative long
      overflows back to itself. */
  function LongAbs(v: int): (r: int)
    requires IsLong(v)
    ensures IsLong(r)
    ensures v != LongMin ==> r >= 0 && (r == v || r == -v)
    ensures v == LongMin ==> r < 0
  {
    if v == LongMin then LongMin else if v < 0 then -v else v
  }

  /** True iff the long value v may be implicitly narrowed to primitive
      type t, as written: the magnitude test uses the overflowing long
      absolute value. */
  function NumericConversionValid(t: Type, v: int): (r: bool)
    requires IsLong(v)
    ensures t == Prim(Long) ==> r
    ensures r ==> t.Prim? && t.kind in {Byte, Short, Char, Int, Long}
  {
    if !t.Prim? then false
    else match t.kind
      case Byte => LongAbs(v) <= 127
      case Short => LongAbs(v) <= 32767
      case Char => 0 <= v <= 65535
      case Int => LongAbs(v) <= 2147483647
      case Long => true
      case _ => false
  }

  /** The range of values of an integral primitive kind. */
  predicate InRange(k: PrimKind, v: int)
  {
    match k
    case Byte => -128 <= v <= 127
    case Short => -32768 <= v <= 32767
    case Char => 0 <= v <= 65535
    case Int => -0x8000_0000 <= v <= 0x7FFF_FFFF
    case Long => IsLong(v)
    case _ => false
  }

  /** As written, the most negative long passes the byte, short and int
      tests, because its absolute value overflows to a negative number. */
  lemma NumericConversionAcceptsLongMin()
    ensures NumericConversionValid(Prim(Byte), LongMin) && !InRange(Byte, LongMin)
    ensures NumericConversionValid(Prim(Short), LongMin) && !InRange(Short, LongMin)
    ensures NumericConversionValid(Prim(Int), LongMin) && !InRange(Int, LongMin)
  {
  }

  /** The same test with the mathematical absolute value. */
  function NumericConversionValidCorrected(t: Type, v: int): (r: bool)
    requires IsLong(v)
    ensures r ==> t.Prim? && InRange(t.kind, v)
    ensures r <==> t.Prim? && match t.kind
      case Byte => -127 <= v <= 127
      case Short => -32767 <= v <= 32767
      case Char => 0 <= v <= 65535
      case Int => -0x7FFF_FFFF <= v <= 0x7FFF_FFFF
      case Long => true
      case _ => false
  {
    var abs := if v < 0 then -v else v;
    if !t.Prim? then false
    else match t.kind
      case Byte => abs <= 127
      case Short => abs <= 32767
      case Char => 0 <= v <= 65535
      case Int => abs <= 2147483647
      case Long => true
      case _ => false
  }

  /** Away from the most negative long the two tests agree. */
  lemma NumericConversionAgreesAwayFromLongMin(t: Type, v: int)
    requires IsLong(v) && v != LongMin
    ensures NumericConversionValid(t, v) == NumericConversionValidCorrected(t, v)
  {
  }

  // ---------------------------------------------------------------------
  // Throwables
  // ---------------------------------------------------------------------

  /** True iff values of type t may be thrown. */
  function IsThrowable(tbl: ClassTable, t: Type): (r: bool)
    requires WellFormed(tbl) && ValidType(tbl, t)
    ensures t == ClassType(ThrowableId) ==> r
    ensures r ==> !t.Prim?
  {
    DescendsFrom(tbl, t, ClassType(ThrowableId)) || t == ClassType(ThrowableId)
  }

  /** True iff values of type t may be thrown without being declared. */
  function IsUncheckedException(tbl: ClassTable, t: Type): (r: bool)
    requires WellFormed(tbl) && ValidType(tbl, t)
    ensures t == ClassType(ErrorId) || t == ClassType(RuntimeExceptionId) ==> r
    ensures r ==> !t.Prim?
  {
    || DescendsFrom(tbl, t, ClassType(ErrorId)) || t == ClassType(ErrorId)
    || DescendsFrom(tbl, t, ClassType(RuntimeExceptionId)) || t == ClassType(RuntimeExceptionId)
  }

  /** Every unchecked exception type may be thrown. */
  lemma UncheckedIsThrowable(tbl: ClassTable, t: Type)
    requires WellFormed(tbl) && ValidType(tbl, t)
    requires IsUncheckedException(tbl, t)
    ensures IsThrowable(tbl, t)
  {
    var thr, exc, err, rte := ClassType(ThrowableId), ClassType(ExceptionId), ClassType(ErrorId), ClassType(RuntimeExceptionId);
    assert DescendsFrom(tbl, exc, thr) by { assert ParentsOf(tbl, exc)[0] == thr; }
    assert DescendsFrom(tbl, err, thr) by { assert ParentsOf(tbl, err)[0] == thr; }
    assert DescendsFrom(tbl, rte, thr) by {
      assert ParentsOf(tbl, rte)[0] == exc;
      DescendsFromTransitive(tbl, rte, exc, thr);
    }
    if DescendsFrom(tbl, t, err) {
      DescendsFromTransitive(tbl, t, err, thr);
    } else if DescendsFrom(tbl, t, rte) {
      DescendsFromTransitive(tbl, t, rte, thr);
    }
  }

  // ---------------------------------------------------------------------
  // Array dimensions
  // ---------------------------------------------------------------------

  /** The type t wrapped in n array dimensions. */
  function ArrayOf(t: Type, n: nat): Type
  {
    if n == 0 then t else ArrayType(ArrayOf(t, n - 1))
  }

  /** The type t with dims more array dimensions, or with -dims dimensions
      stripped when dims is negative; stripping a non-array is an internal
      error. */
  function ExtendArrayDims(t: Type, dims: int): (r: Result<Type, SemanticError>)
    ensures 0 <= dims ==> r.Ok?
    ensures r.Err? ==> r.error == InternalCompilerError
    decreases if dims < 0 then -dims else dims
  {
    if dims == 0 then Ok(t)
    else if dims < 0 then
      if t.ArrayType? then ExtendArrayDims(t.base, dims + 1) else Err(InternalCompilerError)
    else Ok(ArrayOf(t, dims))
  }

  /** Stripping the dimensions just added gives back the original type. */
  lemma {:induction false} ExtendArrayDimsRoundTrip(t: Type, n: nat)
    ensures ExtendArrayDims(t, n) == Ok(ArrayOf(t, n))
    ensures ExtendArrayDims(ArrayOf(t, n), -(n as int)) == Ok(t)
  {
    if n > 0 {
      ExtendArrayDimsRoundTrip(t, n - 1);
    }
  }

  /** Stripping more dimensions than a type has is an internal error. */
  lemma {:induction false} ExtendArrayDimsOverStrip(t: Type, n: nat)
    requires !t.ArrayType?
    ensures ExtendArrayDims(ArrayOf(t, n), -(n as int) - 1) == Err(InternalCompilerError)
  {
    if n > 0 {
      ExtendArrayDimsOverStrip(t, n - 1);
    }
  }

  // ---------------------------------------------------------------------
  // Enclosure and accessibility
  // ---------------------------------------------------------------------

  /** True iff outer appears on the chain of containing classes of inner,
      starting from inner's own containing class. */
  function EnclosedBy(tbl: ClassTable, inner: ClassId, outer: ClassId): (r: bool)
    requires WellFormed(tbl) && inner in tbl
    ensures r ==> outer in tbl
    decreases inner
  {
    match ContainerOf(tbl, inner)
    case None => false
    case Some(c) => c == outer || EnclosedBy(tbl, c, outer)
  }

  /** Walks the containing-class chain of inner until it meets outer or
      runs out. */
  method IsEnclosed(tbl: ClassTable, inner: ClassId, outer: ClassId) returns (r: bool)
    requires WellFormed(tbl) && inner in tbl
    ensures r == EnclosedBy(tbl, inner, outer)
  {
    var ct := ContainerOf(tbl, inner);
    while ct.Some? && ct.value != outer
      invariant ct.Some? ==> ct.value in tbl
      invariant EnclosedBy(tbl, inner, outer) == (ct.Some? && (ct.value == outer || EnclosedBy(tbl, ct.value, outer)))
      decreases ChainRank(if ct.Some? then Some(ClassType(ct.value)) else None)
    {
      ct := ContainerOf(tbl, ct.value);
    }
    r := ct.Some?;
  }

  /** An enclosing class is numbered before the classes it encloses; in
      particular no class encloses itself. */
  lemma {:induction false} EnclosedByLowersId(tbl: ClassTable, inner: ClassId, outer: ClassId)
    requires WellFormed(tbl) && inner in tbl
    requires EnclosedBy(tbl, inner, outer)
    ensures outer < inner
    decreases inner
  {
    var c := ContainerOf(tbl, inner).value;
    if c != outer {
      EnclosedByLowersId(tbl, c, outer);
    }
  }

  lemma NoClassEnclosesItself(tbl: ClassTable, id: ClassId)
    requires WellFormed(tbl) && id in tbl
    ensures !EnclosedBy(tbl, id, id)
  {
    if EnclosedBy(tbl, id, id) {
      EnclosedByLowersId(tbl, id, id);
    }
  }

  /** Enclosure is transitive. */
  lemma {:induction false} EnclosedByTransitive(tbl: ClassTable, a: ClassId, b: ClassId, c: ClassId)
    requires WellFormed(tbl) && a in tbl && b in tbl
    requires EnclosedBy(tbl, a, b) && EnclosedBy(tbl, b, c)
    ensures EnclosedBy(tbl, a, c)
    decreases a
  {
    var p := ContainerOf(tbl, a).value;
    if p != b {
      EnclosedByTransitive(tbl, p, b, c);
    }
  }

  /** True iff a member with the given flags, declared in target, may be
      used from code in class ctx: the same class or a public member; for a
      class target, either class enclosing the other, a package member of
      the same (or the same unnamed) package, or a protected member seen
      from a descendant. */
  function IsAccessible(tbl: ClassTable, target: Type, flags: Flags, ctx: ClassId): (r: bool)
    requires WellFormed(tbl) && ValidType(tbl, target) && ctx in tbl
    ensures flags.isPublic || target == ClassType(ctx) ==> r
    ensures r && !target.ClassType? ==> flags.isPublic
  {
    if target == ClassType(ctx) || flags.isPublic then true
    else if !target.ClassType? then false
    else if EnclosedBy(tbl, ctx, target.id) || EnclosedBy(tbl, target.id, ctx) then true
    else if tbl[target.id].package.None? && tbl[ctx].package.None? && flags.isPackage then true
    else if tbl[target.id].package.Some? && tbl[target.id].package == tbl[ctx].package && flags.isPackage then true
    else DescendsFrom(tbl, ClassType(ctx), target) && flags.isProtected
  }

  /** Access to a member that is neither public, protected nor package
      visible (a private member) is granted exactly inside its own class and
      between a class and the classes nested in it. */
  lemma PrivateAccess(tbl: ClassTable, target: Type, flags: Flags, ctx: ClassId)
    requires WellFormed(tbl) && ValidType(tbl, target) && ctx in tbl
    requires !flags.isPublic && !flags.isProtected && !flags.isPackage
    ensures IsAccessible(tbl, target, flags, ctx) <==>
      target == ClassType(ctx) ||
      (target.ClassType? && (EnclosedBy(tbl, ctx, target.id) || EnclosedBy(tbl, target.id, ctx)))
  {
  }

  /** A package member is accessible from every class of the same package. */
  lemma PackageAccess(tbl: ClassTable, target: Type, flags: Flags, ctx: ClassId)
    requires WellFormed(tbl) && ValidType(tbl, target) && ctx in tbl
    requires target.ClassType? && flags.isPackage && tbl[target.id].package == tbl[ctx].package
    ensures IsAccessible(tbl, target, flags, ctx)
  {
  }

  /** The members of an array type are accessible only when public. */
  lemma ArrayMemberAccess(tbl: ClassTable, target: Type, flags: Flags, ctx: ClassId)
    requires WellFormed(tbl) && ValidType(tbl, target) && ctx in tbl && target.ArrayType?
    ensures IsAccessible(tbl, target, flags, ctx) <==> flags.isPublic
  {
  }

  // ---------------------------------------------------------------------
  // Least common ancestor
  // ---------------------------------------------------------------------

  /** A reference type followed by its superclass chain. */
  function SuperChain(tbl: ClassTable, t: Option<Type>): (chain: seq<Type>)
    requires WellFormed(tbl) && (t.Some? ==> ValidType(tbl, t.value))
    ensures forall i :: 0 <= i < |chain| ==> ValidType(tbl, chain[i])
    decreases ChainRank(t)
  {
    match t
    case None => []
    case Some(x) => [x] + SuperChain(tbl, SuperOf(tbl, x))
  }

  /** The larger of two numeric kinds. */
  function MaxKind(a: PrimKind, b: PrimKind): PrimKind
  {
    if KindNumber(a) >= KindNumber(b) then a else b
  }

  /** t2 equals s or descends from it. */
  predicate Reaches(tbl: ClassTable, t2: Type, s: Type)
    requires WellFormed(tbl) && ValidType(tbl, t2) && ValidType(tbl, s)
  {
    DescendsFrom(tbl, t2, s) || t2 == s
  }

  /** The first type of the chain that t2 equals or descends from. */
  function FirstReached(tbl: ClassTable, chain: seq<Type>, t2: Type): (r: Result<Type, SemanticError>)
    requires WellFormed(tbl) && ValidType(tbl, t2)
    requires forall i :: 0 <= i < |chain| ==> ValidType(tbl, chain[i])
    ensures r.Ok? ==> r.value in chain && ValidType(tbl, r.value) && Reaches(tbl, t2, r.value)
    ensures r.Err? ==> r.error == NoLeastCommonAncestor
  {
    if chain == [] then Err(NoLeastCommonAncestor)
    else if Reaches(tbl, t2, chain[0]) then Ok(chain[0])
    else FirstReached(tbl, chain[1..], t2)
  }

  /** The search fails exactly when t2 reaches no type of the chain, and
      when chain[k] is the first type t2 reaches, the search yields it. */
  lemma {:induction false} FirstReachedIsFirst(tbl: ClassTable, chain: seq<Type>, t2: Type, k: nat)
    requires WellFormed(tbl) && ValidType(tbl, t2)
    requires forall i :: 0 <= i < |chain| ==> ValidType(tbl, chain[i])
    ensures FirstReached(tbl, chain, t2).Err? <==> forall j :: 0 <= j < |chain| ==> !Reaches(tbl, t2, chain[j])
    ensures k < |chain| && Reaches(tbl, t2, chain[k]) && (forall j :: 0 <= j < k ==> !Reaches(tbl, t2, chain[j])) ==>
      FirstReached(tbl, chain, t2) == Ok(chain[k])
  {
    if chain != [] {
      FirstReachedIsFirst(tbl, chain[1..], t2, if k == 0 then 0 else k - 1);
      if !Reaches(tbl, t2, chain[0]) {
        assert forall j :: 1 <= j < |chain| ==> chain[j] == chain[1..][j - 1];
      }
    }
  }

  /** The least common ancestor of two types: boolean only with boolean,
      void only with void, the larger of two numeric kinds, arrays element by
      element, a reference type with null, and otherwise the first type on
      the superclass chain of t1 that t2 equals or descends from. */
  function Lca(tbl: ClassTable, t1: Type, t2: Type): (r: Result<Type, SemanticError>)
    requires WellFormed(tbl) && ValidType(tbl, t1) && ValidType(tbl, t2)
    ensures t1.Prim? != t2.Prim? ==> r.Err?
    ensures r.Err? ==> r.error == NoLeastCommonAncestor
  {
    if t1.Prim? && t2.Prim? then
      if t1.kind == Boolean then (if t2.kind == Boolean then Ok(Prim(Boolean)) else Err(NoLeastCommonAncestor))
      else if t2.kind == Boolean then Err(NoLeastCommonAncestor)
      else if t1.kind == Void then (if t2.kind == Void then Ok(Prim(Void)) else Err(NoLeastCommonAncestor))
      else if t2.kind == Void then Err(NoLeastCommonAncestor)
      else Ok(Prim(MaxKind(t1.kind, t2.kind)))
    else if t1.ArrayType? && t2.ArrayType? then
      match Lca(tbl, t1.base, t2.base)
      case Ok(b) => Ok(ArrayType(b))
      case Err(e) => Err(e)
    else if IsReference(t1) && t2.NullType? then Ok(t1)
    else if IsReference(t2) && t1.NullType? then Ok(t2)
    else if !IsReference(t1) || !IsReference(t2) then Err(NoLeastCommonAncestor)
    else FirstReached(tbl, SuperChain(tbl, Some(t1)), t2)
  }

  /** Computes the least common ancestor, walking the superclass chain of
      t1 with a loop. */
  method LeastCommonAncestor(tbl: ClassTable, t1: Type, t2: Type) returns (r: Result<Type, SemanticError>)
    requires WellFormed(tbl) && ValidType(tbl, t1) && ValidType(tbl, t2)
    ensures r == Lca(tbl, t1, t2)
    decreases t1
  {
    if t1.Prim? && t2.Prim? {
      if t1.kind == Boolean {
        return if t2.kind == Boolean then Ok(Prim(Boolean)) else Err(NoLeastCommonAncestor);
      }
      if t2.kind == Boolean {
        return Err(NoLeastCommonAncestor);
      }
      if t1.kind == Void {
        return if t2.kind == Void then Ok(Prim(Void)) else Err(NoLeastCommonAncestor);
      }
      if t2.kind == Void {
        return Err(NoLeastCommonAncestor);
      }
      return Ok(Prim(MaxKind(t1.kind, t2.kind)));
    }
    if t1.ArrayType? && t2.ArrayType? {
      var base := LeastCommonAncestor(tbl, t1.base, t2.base);
      return if base.Ok? then Ok(ArrayType(base.value)) else Err(base.error);
    }
    if IsReference(t1) && t2.NullType? {
      return Ok(t1);
    }
    if IsReference(t2) && t1.NullType? {
      return Ok(t2);
    }
    if !IsReference(t1) || !IsReference(t2) {
      return Err(NoLeastCommonAncestor);
    }
    var tSuper: Option<Type> := Some(t1);
    while tSuper.Some? && !(DescendsFrom(tbl, t2, tSuper.value) || t2 == tSuper.value)
      invariant tSuper.Some? ==> ValidType(tbl, tSuper.value)
      invariant FirstReached(tbl, SuperChain(tbl, Some(t1)), t2) == FirstReached(tbl, SuperChain(tbl, tSuper), t2)
      decreases ChainRank(tSuper)
    {
      tSuper := SuperOf(tbl, tSuper.value);
    }
    if tSuper.None? {
      return Err(NoLeastCommonAncestor);
    }
    return Ok(tSuper.value);
  }

  /** Every type on a superclass chain is the chain's first type or one of
      its ancestors. */
  lemma {:induction false} SuperChainAncestors(tbl: ClassTable, t: Type, k: nat)
    requires WellFormed(tbl) && ValidType(tbl, t)
    requires k < |SuperChain(tbl, Some(t))|
    ensures var s := SuperChain(tbl, Some(t))[k];
      (k == 0 <==> s == t) && (k > 0 ==> DescendsFrom(tbl, t, s) && IsClass(tbl, t) && s.ClassType?)
    decreases ChainRank(Some(t))
  {
    if k > 0 {
      var p := SuperOf(tbl, t).value;
      assert SuperChain(tbl, Some(t))[k] == SuperChain(tbl, Some(p))[k - 1];
      SuperChainAncestors(tbl, p, k - 1);
      var s := SuperChain(tbl, Some(p))[k - 1];
      assert DescendsFrom(tbl, t, p) by { assert ParentsOf(tbl, t)[0] == p; }
      if s != p {
        DescendsFromTransitive(tbl, t, p, s);
      }
      DescendsFromClassType(tbl, t, s);
    }
  }

  /** The superclass chain of a class that is not an interface ends in Object. */
  lemma {:induction false} SuperChainReachesObject(tbl: ClassTable, t: Type)
    requires WellFormed(tbl) && ValidType(tbl, t) && IsClass(tbl, t)
    ensures ClassType(ObjectId) in SuperChain(tbl, Some(t))
    decreases t.id
  {
    if t != ClassType(ObjectId) {
      assert WellFormedEntry(tbl, t.id);
      var p := SuperOf(tbl, t).value;
      SuperChainReachesObject(tbl, p);
    }
  }

  /** As written, assignability is reflexive on every void-free type. */
  lemma {:induction false} AssignableAsWrittenReflexive(tbl: ClassTable, t: Type)
    requires WellFormed(tbl) && ValidType(tbl, t) && VoidFree(t)
    ensures IsAssignableSubtypeAsWritten(tbl, t, t)
  {
    if t.ArrayType? {
      AssignableAsWrittenReflexive(tbl, t.base);
    }
  }

  /** The least common ancestor of two void-free types is a common
      supertype: both are assignable to it under the assignability the
      code pairs it with (arrays combine element by element, so int[] and
      long[] combine to long[]). */
  lemma {:induction false} LcaIsCommonSupertype(tbl: ClassTable, t1: Type, t2: Type)
    requires WellFormed(tbl) && ValidType(tbl, t1) && ValidType(tbl, t2)
    requires VoidFree(t1) && VoidFree(t2)
    requires Lca(tbl, t1, t2).Ok?
    ensures ValidType(tbl, Lca(tbl, t1, t2).value)
    ensures IsAssignableSubtypeAsWritten(tbl, t1, Lca(tbl, t1, t2).value)
    ensures IsAssignableSubtypeAsWritten(tbl, t2, Lca(tbl, t1, t2).value)
    decreases t1
  {
    var r := Lca(tbl, t1, t2).value;
    if t1.Prim? && t2.Prim? {
    } else if t1.ArrayType? && t2.ArrayType? {
      LcaIsCommonSupertype(tbl, t1.base, t2.base);
    } else if IsReference(t1) && t2.NullType? {
      AssignableAsWrittenReflexive(tbl, t1);
    } else if IsReference(t2) && t1.NullType? {
      AssignableAsWrittenReflexive(tbl, t2);
    } else {
      var chain := SuperChain(tbl, Some(t1));
      assert Lca(tbl, t1, t2) == FirstReached(tbl, chain, t2);
      var k :| 0 <= k < |chain| && chain[k] == r;
      ReachedIsCommonSupertype(tbl, t1, t2, k);
    }
  }

  /** A type on the superclass chain of t1 that t2 reaches is a common
      supertype of the two. */
  lemma ReachedIsCommonSupertype(tbl: ClassTable, t1: Type, t2: Type, k: nat)
    requires WellFormed(tbl) && ValidType(tbl, t1) && ValidType(tbl, t2)
    requires IsReference(t1) && IsReference(t2) && !(t1.ArrayType? && t2.ArrayType?)
    requires VoidFree(t1) && VoidFree(t2)
    requires k < |SuperChain(tbl, Some(t1))| && Reaches(tbl, t2, SuperChain(tbl, Some(t1))[k])
    ensures IsAssignableSubtypeAsWritten(tbl, t1, SuperChain(tbl, Some(t1))[k])
    ensures IsAssignableSubtypeAsWritten(tbl, t2, SuperChain(tbl, Some(t1))[k])
  {
    var r := SuperChain(tbl, Some(t1))[k];
    SuperChainAncestors(tbl, t1, k);
    assert r.ArrayType? ==> r == t1;
    if k == 0 {
      AssignableAsWrittenReflexive(tbl, t1);
    } else {
      DescendsIsAssignableAsWritten(tbl, t1, r);
    }
    if t2 == r {
      AssignableAsWrittenReflexive(tbl, t2);
    } else {
      if t2.ArrayType? && r.ArrayType? {
        ArrayAncestors(tbl, t2, r);
      }
      DescendsIsAssignableAsWritten(tbl, t2, r);
    }
  }

  /** Descent makes a type assignable to its ancestor, unless both are
      arrays. */
  lemma DescendsIsAssignableAsWritten(tbl: ClassTable, a: Type, b: Type)
    requires WellFormed(tbl) && ValidType(tbl, a) && ValidType(tbl, b)
    requires DescendsFrom(tbl, a, b) && !(a.ArrayType? && b.ArrayType?)
    ensures IsAssignableSubtypeAsWritten(tbl, a, b)
  {
  }

  /** Two reference types whose first is a class that is not an interface
      always have a least common ancestor (at worst Object). */
  lemma LcaOfClassSucceeds(tbl: ClassTable, t1: Type, t2: Type)
    requires WellFormed(tbl) && ValidType(tbl, t1) && ValidType(tbl, t2)
    requires IsClass(tbl, t1) && IsReference(t2)
    ensures Lca(tbl, t1, t2).Ok?
  {
    var chain := SuperChain(tbl, Some(t1));
    assert Lca(tbl, t1, t2) == FirstReached(tbl, chain, t2);
    SuperChainReachesObject(tbl, t1);
    var k :| 0 <= k < |chain| && chain[k] == ClassType(ObjectId);
    if t2 != ClassType(ObjectId) {
      ReferenceDescendsFromObject(tbl, t2);
    }
    assert Reaches(tbl, t2, chain[k]);
    FirstReachedIsFirst(tbl, chain, t2, 0);
  }

  /** Two numeric types combine to the larger kind, in either order. */
  lemma LcaNumeric(tbl: ClassTable, a: PrimKind, b: PrimKind)
    requires WellFormed(tbl) && IsNumeric(a) && IsNumeric(b)
    ensures Lca(tbl, Prim(a), Prim(b)) == Lca(tbl, Prim(b), Prim(a))
    ensures Lca(tbl, Prim(a), Prim(b)).Ok? && Lca(tbl, Prim(a), Prim(b)).value.kind in {a, b}
  {
    assert KindNumber(a) == KindNumber(b) ==> a == b;
  }
}
