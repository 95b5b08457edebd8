/** The type universe of the base type system: primitive types, the null
    type, array types and class/interface types, with the class graph held
    in a finite table indexed by class identity. */
module Types {
  import opened Wrappers

  type ClassId = nat

  /** Fixed table entries for the well-known classes the type system looks up
      by name when it is initialised. */
  const ObjectId: ClassId := 0
  const ThrowableId: ClassId := 1
  const ExceptionId: ClassId := 2
  const ErrorId: ClassId := 3
  const RuntimeExceptionId: ClassId := 4

  /** Primitive kinds. Their order of declaration is the order of the kind
      numbers the type system compares: void, boolean, then the numeric
      ladder byte < short < char < int < long < float < double. */
  datatype PrimKind = Void | Boolean | Byte | Short | Char | Int | Long | Float | Double

  function KindNumber(k: PrimKind): nat
  {
    match k
    case Void => 0
    case Boolean => 1
    case Byte => 2
    case Short => 3
    case Char => 4
    case Int => 5
    case Long => 6
    case Float => 7
    case Double => 8
  }

  /** The kind with a given number (the inverse of KindNumber). */
  function KindOfNumber(n: nat): PrimKind
    requires n <= 8
  {
    if n == 0 then Void else if n == 1 then Boolean else if n == 2 then Byte
    else if n == 3 then Short else if n == 4 then Char else if n == 5 then Int
    else if n == 6 then Long else if n == 7 then Float else Double
  }

  predicate IsNumeric(k: PrimKind)
  {
    k != Void && k != Boolean
  }

  /** A canonical (fully resolved) type. Ambiguous, not yet resolved types
      have no variant here, so they cannot reach the relations. */
  datatype Type =
    | Prim(kind: PrimKind)
    | NullType
    | ArrayType(base: Type)
    | ClassType(id: ClassId)

  predicate IsReference(t: Type)
  {
    t.ArrayType? || t.ClassType?
  }

  /** Access flags and the other modifier bits a flag set carries. */
  datatype Flags = Flags(
    isPublic: bool, isProtected: bool, isPrivate: bool, isPackage: bool,
    isStatic: bool, isFinal: bool, isAbstract: bool, isInterface: bool,
    isVarArgs: bool, isEnum: bool)

  datatype FieldInstance = FieldInstance(name: string, fieldType: Type, flags: Flags)

  /** A declared method: its enclosing type, flags, name, formal types and
      thrown types. */
  datatype MethodInstance = MethodInstance(
    container: Type, flags: Flags, returnType: Type, name: string,
    formals: seq<Type>, throwTypes: seq<Type>)

  /** The argument side of a call: the method name and the argument types. */
  datatype MethodCall = MethodCall(name: string, args: seq<Type>)

  /** What the type system knows of one class or interface. */
  datatype ClassInfo = ClassInfo(
    flags: Flags,
    package: Option<string>,
    superType: Option<ClassId>,
    interfaces: seq<ClassId>,
    container: Option<ClassId>,
    fields: seq<FieldInstance>,
    methods: seq<MethodInstance>)

  type ClassTable = map<ClassId, ClassInfo>

  /** The semantic errors the type system reports. */
  datatype SemanticError =
    | NoLeastCommonAncestor
    | NotAReferenceType
    | FieldNotFound
    | FieldInaccessible
    | NoApplicableMethod
    | AmbiguousMethod
    | InternalCompilerError

  predicate ValidType(tbl: ClassTable, t: Type)
  {
    match t
    case ClassType(id) => id in tbl
    case ArrayType(b) => ValidType(tbl, b)
    case _ => true
  }

  predicate ValidMethod(tbl: ClassTable, m: MethodInstance)
  {
    && ValidType(tbl, m.container)
    && ValidType(tbl, m.returnType)
    && (forall i :: 0 <= i < |m.formals| ==> ValidType(tbl, m.formals[i]))
  }

  /** The class graph is closed and acyclic: every class is numbered after
      its superclass, its interfaces (which are interfaces) and its
      containing class; Object is a
      class without a superclass, every other class has one, which is itself
      a class, and an interface has no superclass link; neither Object nor an
      interface is final. The well-known
      exception classes sit at their fixed entries. */
  predicate WellFormed(tbl: ClassTable)
  {
    && ObjectId in tbl
    && !tbl[ObjectId].flags.isInterface && !tbl[ObjectId].flags.isFinal
    && StandardClass(tbl, ThrowableId, ObjectId)
    && StandardClass(tbl, ExceptionId, ThrowableId)
    && StandardClass(tbl, ErrorId, ThrowableId)
    && StandardClass(tbl, RuntimeExceptionId, ExceptionId)
    && (forall id :: id in tbl ==> WellFormedEntry(tbl, id))
  }

  predicate StandardClass(tbl: ClassTable, id: ClassId, superId: ClassId)
  {
    id in tbl && !tbl[id].flags.isInterface && tbl[id].superType == Some(superId)
  }

  predicate WellFormedEntry(tbl: ClassTable, id: ClassId)
    requires id in tbl
  {
    var c := tbl[id];
    && (c.superType.Some? ==>
          c.superType.value in tbl && c.superType.value < id
          && !tbl[c.superType.value].flags.isInterface)
    && (id != ObjectId && !c.flags.isInterface ==> c.superType.Some?)
    && (c.flags.isInterface ==> c.superType.None? && !c.flags.isFinal)
    && (forall i :: 0 <= i < |c.interfaces| ==>
          c.interfaces[i] in tbl && c.interfaces[i] < id && tbl[c.interfaces[i]].flags.isInterface)
    && (c.container.Some? ==> c.container.value in tbl && c.container.value < id)
    && (forall i :: 0 <= i < |c.methods| ==> ValidMethod(tbl, c.methods[i]))
  }

  predicate IsInterface(tbl: ClassTable, t: Type)
    requires ValidType(tbl, t)
  {
    t.ClassType? && tbl[t.id].flags.isInterface
  }

  /** A class type that is not an interface. */
  predicate IsClass(tbl: ClassTable, t: Type)
    requires ValidType(tbl, t)
  {
    t.ClassType? && !tbl[t.id].flags.isInterface
  }

  /** The supertype link of a reference type: a class's superclass; an
      array has none. */
  function SuperOf(tbl: ClassTable, t: Type): (r: Option<Type>)
    requires WellFormed(tbl) && ValidType(tbl, t)
    ensures r.Some? ==> t.ClassType? && r.value.ClassType? && ValidType(tbl, r.value) && r.value.id < t.id
    ensures r.Some? <==> t.ClassType? && tbl[t.id].superType.Some?
  {
    if t.ClassType? && tbl[t.id].superType.Some? then
      assert WellFormedEntry(tbl, t.id);
      Some(ClassType(tbl[t.id].superType.value))
    else None
  }

  function InterfacesOf(tbl: ClassTable, t: Type): (r: seq<ClassId>)
    requires WellFormed(tbl) && ValidType(tbl, t)
    ensures forall i :: 0 <= i < |r| ==> t.ClassType? && r[i] in tbl && r[i] < t.id && tbl[r[i]].flags.isInterface
  {
    assert t.ClassType? ==> WellFormedEntry(tbl, t.id);
    if t.ClassType? then tbl[t.id].interfaces else []
  }

  function FieldsOf(tbl: ClassTable, t: Type): seq<FieldInstance>
    requires ValidType(tbl, t)
  {
    if t.ClassType? then tbl[t.id].fields else []
  }

  function MethodsOf(tbl: ClassTable, t: Type): (r: seq<MethodInstance>)
    requires WellFormed(tbl) && ValidType(tbl, t)
    ensures forall i :: 0 <= i < |r| ==> ValidMethod(tbl, r[i])
  {
    assert t.ClassType? ==> WellFormedEntry(tbl, t.id);
    if t.ClassType? then tbl[t.id].methods else []
  }

  /** The containing class of a nested class. */
  function ContainerOf(tbl: ClassTable, id: ClassId): (r: Option<ClassId>)
    requires WellFormed(tbl) && id in tbl
    ensures r.Some? ==> r.value in tbl && r.value < id
  {
    assert WellFormedEntry(tbl, id);
    tbl[id].container
  }

  /** The measure that makes walks up the supertype chain terminate. */
  function ChainRank(t: Option<Type>): nat
  {
    match t
    case None => 0
    case Some(ClassType(id)) => id + 1
    case Some(_) => 1
  }
}
