/** Member lookup: fields along the superclass chain, applicable and
    accessible methods, and the choice of the most specific method of
    section 15.11.2 of the Java Language Specification (first edition). */
module MemberResolver {
  import opened Wrappers
  import opened Types
  import opened TypeRelations

  // ---------------------------------------------------------------------
  // Argument lists
  // ---------------------------------------------------------------------

  /** Compares the formal types of two methods position by position. */
  method HasSameArguments(m1: MethodInstance, m2: MethodInstance) returns (r: bool)
    ensures r <==> m1.formals == m2.formals
  {
    var a, b := m1.formals, m2.formals;
    if |a| != |b| {
      return false;
    }
    var i := 0;
    while i < |a|
      invariant 0 <= i <= |a|
      invariant a[..i] == b[..i]
    {
      if a[i] != b[i] {
        assert a[i] == a[..i + 1][i];
        return false;
      }
      assert a[..i + 1] == a[..i] + [a[i]] && b[..i + 1] == b[..i] + [b[i]];
      i := i + 1;
    }
    assert a == a[..i] && b == b[..i];
    return true;
  }

  predicate ValidCall(tbl: ClassTable, call: MethodCall)
  {
    forall i :: 0 <= i < |call.args| ==> ValidType(tbl, call.args[i])
  }

  /** A method seen as a call: its own name and formal types. */
  function AsCall(m: MethodInstance): MethodCall
  {
    MethodCall(m.name, m.formals)
  }

  /** The prototype can be invoked by the call: same name, same number of
      arguments, and each argument converts implicitly to its formal. */
  predicate CallAccepts(tbl: ClassTable, proto: MethodInstance, call: MethodCall)
    requires WellFormed(tbl) && ValidMethod(tbl, proto) && ValidCall(tbl, call)
  {
    && proto.name == call.name
    && |proto.formals| == |call.args|
    && forall i :: 0 <= i < |call.args| ==> IsImplicitCastValid(tbl, call.args[i], proto.formals[i])
  }

  /** Checks the call against the prototype argument by argument. */
  method MethodCallValid(tbl: ClassTable, proto: MethodInstance, call: MethodCall) returns (r: bool)
    requires WellFormed(tbl) && ValidMethod(tbl, proto) && ValidCall(tbl, call)
    ensures r == CallAccepts(tbl, proto, call)
  {
    if proto.name != call.name || |proto.formals| != |call.args| {
      return false;
    }
    var i := 0;
    while i < |proto.formals|
      invariant 0 <= i <= |proto.formals|
      invariant forall k :: 0 <= k < i ==> IsImplicitCastValid(tbl, call.args[k], proto.formals[k])
    {
      if !IsImplicitCastValid(tbl, call.args[i], proto.formals[i]) {
        return false;
      }
      i := i + 1;
    }
    return true;
  }

  /** Every method accepts a call made with its own formal types, and a call
      it accepts passes arguments assignable to its formals. */
  lemma CallAcceptsOwnFormals(tbl: ClassTable, m: MethodInstance)
    requires WellFormed(tbl) && ValidMethod(tbl, m)
    ensures CallAccepts(tbl, m, AsCall(m))
  {
  }

  lemma CallAcceptsAssignable(tbl: ClassTable, proto: MethodInstance, call: MethodCall, i: nat)
    requires WellFormed(tbl) && ValidMethod(tbl, proto) && ValidCall(tbl, call)
    requires CallAccepts(tbl, proto, call) && i < |call.args| && VoidFree(call.args[i])
    ensures IsAssignableSubtypeAsWritten(tbl, call.args[i], proto.formals[i])
  {
    ImplicitCastIsAssignable(tbl, call.args[i], proto.formals[i]);
  }

  /** A null argument is accepted exactly for a formal of non-primitive type. */
  lemma CallAcceptsNullArgument(tbl: ClassTable, proto: MethodInstance, call: MethodCall, i: nat)
    requires WellFormed(tbl) && ValidMethod(tbl, proto) && ValidCall(tbl, call)
    requires proto.name == call.name && |proto.formals| == |call.args|
    requires i < |call.args| && call.args[i] == NullType
    ensures CallAccepts(tbl, proto, call) ==> !proto.formals[i].Prim?
  {
  }

  // ---------------------------------------------------------------------
  // Fields
  // ---------------------------------------------------------------------

  /** The first field of the list with the given name. */
  function FirstNamed(fields: seq<FieldInstance>, name: string): (r: Option<FieldInstance>)
    ensures r.Some? ==> r.value in fields && r.value.name == name
    ensures r.None? <==> forall i :: 0 <= i < |fields| ==> fields[i].name != name
  {
    if fields == [] then None
    else if fields[0].name == name then Some(fields[0])
    else FirstNamed(fields[1..], name)
  }

  /** The field lookup along a superclass chain, from the type cur up. */
  function FieldOnChain(tbl: ClassTable, cur: Option<Type>, name: string, ctx: ClassId): Result<FieldInstance, SemanticError>
    requires WellFormed(tbl) && ctx in tbl && (cur.Some? ==> ValidType(tbl, cur.value))
    decreases ChainRank(cur)
  {
    match cur
    case None => Err(FieldNotFound)
    case Some(c) =>
      match FirstNamed(FieldsOf(tbl, c), name)
      case Some(f) => if IsAccessible(tbl, c, f.flags, ctx) then Ok(f) else Err(FieldInaccessible)
      case None => FieldOnChain(tbl, SuperOf(tbl, c), name, ctx)
  }

  /** The field named name of type t as seen from class ctx. */
  function FieldLookup(tbl: ClassTable, t: Type, name: string, ctx: ClassId): Result<FieldInstance, SemanticError>
    requires WellFormed(tbl) && ValidType(tbl, t) && ctx in tbl
  {
    if !IsReference(t) then Err(NotAReferenceType) else FieldOnChain(tbl, Some(t), name, ctx)
  }

  /** Walks the superclass chain of t and, in each class, its fields in
      declaration order; the first field with the name decides: it is
      returned when accessible from ctx, and is an error otherwise. */
  method GetField(tbl: ClassTable, t: Type, name: string, ctx: ClassId) returns (r: Result<FieldInstance, SemanticError>)
    requires WellFormed(tbl) && ValidType(tbl, t) && ctx in tbl
    ensures r == FieldLookup(tbl, t, name, ctx)
  {
    if !IsReference(t) {
      return Err(NotAReferenceType);
    }
    var cur: Option<Type> := Some(t);
    while cur.Some?
      invariant cur.Some? ==> ValidType(tbl, cur.value)
      invariant FieldLookup(tbl, t, name, ctx) == FieldOnChain(tbl, cur, name, ctx)
      decreases ChainRank(cur)
    {
      var c := cur.value;
      var fields := FieldsOf(tbl, c);
      var i := 0;
      while i < |fields|
        invariant 0 <= i <= |fields|
        invariant FirstNamed(fields, name) == FirstNamed(fields[i..], name)
      {
        if fields[i].name == name {
          if IsAccessible(tbl, c, fields[i].flags, ctx) {
            return Ok(fields[i]);
          }
          return Err(FieldInaccessible);
        }
        assert fields[i..][1..] == fields[i + 1..];
        i := i + 1;
      }
      cur := SuperOf(tbl, c);
    }
    return Err(FieldNotFound);
  }

  /** True iff the type declares a field with the name. */
  predicate DeclaresField(tbl: ClassTable, c: Type, name: string)
    requires ValidType(tbl, c)
  {
    FirstNamed(FieldsOf(tbl, c), name).Some?
  }

  /** The lookup fails with "not found" exactly when no type on the chain
      declares the name, and otherwise fails only for lack of access. */
  lemma {:induction false} FieldNotFoundMeaning(tbl: ClassTable, cur: Option<Type>, name: string, ctx: ClassId)
    requires WellFormed(tbl) && ctx in tbl && (cur.Some? ==> ValidType(tbl, cur.value))
    ensures FieldOnChain(tbl, cur, name, ctx) == Err(FieldNotFound) <==>
      forall k :: 0 <= k < |SuperChain(tbl, cur)| ==> !DeclaresField(tbl, SuperChain(tbl, cur)[k], name)
    ensures FieldOnChain(tbl, cur, name, ctx).Err? ==>
      FieldOnChain(tbl, cur, name, ctx).error in {FieldNotFound, FieldInaccessible}
    decreases ChainRank(cur)
  {
    if cur.Some? {
      var c := cur.value;
      var chain := SuperChain(tbl, cur);
      var rest := SuperChain(tbl, SuperOf(tbl, c));
      assert chain == [c] + rest;
      if !DeclaresField(tbl, c, name) {
        FieldNotFoundMeaning(tbl, SuperOf(tbl, c), name, ctx);
        assert FieldOnChain(tbl, cur, name, ctx) == FieldOnChain(tbl, SuperOf(tbl, c), name, ctx);
        assert forall k :: 0 <= k < |rest| ==> rest[k] == chain[k + 1];
        if forall k :: 0 <= k < |rest| ==> !DeclaresField(tbl, rest[k], name) {
          forall k | 0 <= k < |chain| ensures !DeclaresField(tbl, chain[k], name) {
            if k > 0 {
              assert chain[k] == rest[k - 1];
            }
          }
        }
      } else {
        var f := FirstNamed(FieldsOf(tbl, c), name).value;
        assert FieldOnChain(tbl, cur, name, ctx) == if IsAccessible(tbl, c, f.flags, ctx) then Ok(f) else Err(FieldInaccessible);
        assert DeclaresField(tbl, chain[0], name);
      }
    }
  }

  /** f is the first field named name in chain[k], it is accessible from
      ctx there, and no earlier type of the chain declares the name. */
  predicate FoundAt(tbl: ClassTable, chain: seq<Type>, k: int, name: string, f: FieldInstance, ctx: ClassId)
    requires WellFormed(tbl) && ctx in tbl && forall i :: 0 <= i < |chain| ==> ValidType(tbl, chain[i])
  {
    && 0 <= k < |chain|
    && FirstNamed(FieldsOf(tbl, chain[k]), name) == Some(f)
    && IsAccessible(tbl, chain[k], f.flags, ctx)
    && (forall j :: 0 <= j < k ==> !DeclaresField(tbl, chain[j], name))
  }

  /** A find in the rest of the chain is a find one place later in the
      whole chain when its first type does not declare the name. */
  lemma FoundAtShift(tbl: ClassTable, c: Type, rest: seq<Type>, k: int, name: string, f: FieldInstance, ctx: ClassId)
    requires WellFormed(tbl) && ctx in tbl && ValidType(tbl, c)
    requires forall i :: 0 <= i < |rest| ==> ValidType(tbl, rest[i])
    requires !DeclaresField(tbl, c, name) && FoundAt(tbl, rest, k, name, f, ctx)
    ensures FoundAt(tbl, [c] + rest, k + 1, name, f, ctx)
  {
    var chain := [c] + rest;
    forall j | 0 <= j < k + 1 ensures !DeclaresField(tbl, chain[j], name) {
      if j > 0 {
        assert chain[j] == rest[j - 1];
      }
    }
  }

  /** A found field is the first field with the name in the first type on
      the chain that declares the name, and it is accessible from ctx in
      that type. */
  lemma {:induction false} FieldFoundMeaning(tbl: ClassTable, cur: Option<Type>, name: string, ctx: ClassId)
    requires WellFormed(tbl) && ctx in tbl && (cur.Some? ==> ValidType(tbl, cur.value))
    requires FieldOnChain(tbl, cur, name, ctx).Ok?
    ensures exists k :: FoundAt(tbl, SuperChain(tbl, cur), k, name, FieldOnChain(tbl, cur, name, ctx).value, ctx)
    decreases ChainRank(cur)
  {
    var c := cur.value;
    var chain := SuperChain(tbl, cur);
    var f := FieldOnChain(tbl, cur, name, ctx).value;
    var rest := SuperChain(tbl, SuperOf(tbl, c));
    assert chain == [c] + rest;
    if !DeclaresField(tbl, c, name) {
      assert FieldOnChain(tbl, cur, name, ctx) == FieldOnChain(tbl, SuperOf(tbl, c), name, ctx);
      FieldFoundMeaning(tbl, SuperOf(tbl, c), name, ctx);
      var k :| FoundAt(tbl, rest, k, name, f, ctx);
      FoundAtShift(tbl, c, rest, k, name, f, ctx);
    } else {
      var g := FirstNamed(FieldsOf(tbl, c), name).value;
      assert FieldOnChain(tbl, cur, name, ctx) == if IsAccessible(tbl, c, g.flags, ctx) then Ok(g) else Err(FieldInaccessible);
      assert FoundAt(tbl, chain, 0, name, f, ctx);
    }
  }

  /** A field access on a type that is not a reference type is an error. */
  lemma FieldLookupOnNonReference(tbl: ClassTable, t: Type, name: string, ctx: ClassId)
    requires WellFormed(tbl) && ValidType(tbl, t) && ctx in tbl && !IsReference(t)
    ensures FieldLookup(tbl, t, name, ctx) == Err(NotAReferenceType)
  {
  }

  // ---------------------------------------------------------------------
  // Methods
  // ---------------------------------------------------------------------

  /** The methods of ms, declared in c, that accept the call and are
      accessible from ctx, in declaration order. */
  function AcceptableIn(tbl: ClassTable, c: Type, ms: seq<MethodInstance>, call: MethodCall, ctx: ClassId): (r: seq<MethodInstance>)
    requires WellFormed(tbl) && ValidType(tbl, c) && ValidCall(tbl, call) && ctx in tbl
    requires forall i :: 0 <= i < |ms| ==> ValidMethod(tbl, ms[i])
    ensures forall i :: 0 <= i < |r| ==> ValidMethod(tbl, r[i])
  {
    if ms == [] then []
    else
      var m := ms[|ms| - 1];
      AcceptableIn(tbl, c, ms[..|ms| - 1], call, ctx)
        + (if CallAccepts(tbl, m, call) && IsAccessible(tbl, c, m.flags, ctx) then [m] else [])
  }

  /** The acceptable methods of every type on the chain from cur up, nearest
      type first. */
  function MethodSetOn(tbl: ClassTable, cur: Option<Type>, call: MethodCall, ctx: ClassId): (r: seq<MethodInstance>)
    requires WellFormed(tbl) && ValidCall(tbl, call) && ctx in tbl && (cur.Some? ==> ValidType(tbl, cur.value))
    ensures forall i :: 0 <= i < |r| ==> ValidMethod(tbl, r[i])
    decreases ChainRank(cur)
  {
    match cur
    case None => []
    case Some(c) => AcceptableIn(tbl, c, MethodsOf(tbl, c), call, ctx) + MethodSetOn(tbl, SuperOf(tbl, c), call, ctx)
  }

  /** Collects, along the superclass chain of t, the methods that accept the
      call and are accessible from ctx. */
  method GetMethodSet(tbl: ClassTable, t: Type, call: MethodCall, ctx: ClassId) returns (acc: seq<MethodInstance>)
    requires WellFormed(tbl) && ValidType(tbl, t) && ValidCall(tbl, call) && ctx in tbl
    ensures acc == MethodSetOn(tbl, Some(t), call, ctx)
  {
    acc := [];
    var cur: Option<Type> := Some(t);
    while cur.Some?
      invariant cur.Some? ==> ValidType(tbl, cur.value)
      invariant MethodSetOn(tbl, Some(t), call, ctx) == acc + MethodSetOn(tbl, cur, call, ctx)
      decreases ChainRank(cur)
    {
      var c := cur.value;
      var found := AcceptableMethods(tbl, c, call, ctx);
      assert MethodSetOn(tbl, cur, call, ctx) == found + MethodSetOn(tbl, SuperOf(tbl, c), call, ctx);
      acc := acc + found;
      cur := SuperOf(tbl, c);
    }
  }

  /** The methods declared in c, in order, that accept the call and are
      accessible from ctx. */
  method AcceptableMethods(tbl: ClassTable, c: Type, call: MethodCall, ctx: ClassId) returns (found: seq<MethodInstance>)
    requires WellFormed(tbl) && ValidType(tbl, c) && ValidCall(tbl, call) && ctx in tbl
    ensures found == AcceptableIn(tbl, c, MethodsOf(tbl, c), call, ctx)
  {
    var ms := MethodsOf(tbl, c);
    found := [];
    var i := 0;
    while i < |ms|
      invariant 0 <= i <= |ms|
      invariant found == AcceptableIn(tbl, c, ms[..i], call, ctx)
    {
      assert ms[..i + 1][..i] == ms[..i];
      var ok := MethodCallValid(tbl, ms[i], call);
      if ok && IsAccessible(tbl, c, ms[i].flags, ctx) {
        found := found + [ms[i]];
      }
      i := i + 1;
    }
    assert ms[..i] == ms;
  }

  /** A method is in AcceptableIn exactly when it is one of the listed
      methods, accepts the call and is accessible from ctx. */
  lemma {:induction false} AcceptableInMembers(tbl: ClassTable, c: Type, ms: seq<MethodInstance>, call: MethodCall, ctx: ClassId, m: MethodInstance)
    requires WellFormed(tbl) && ValidType(tbl, c) && ValidCall(tbl, call) && ctx in tbl
    requires forall i :: 0 <= i < |ms| ==> ValidMethod(tbl, ms[i])
    ensures m in AcceptableIn(tbl, c, ms, call, ctx) <==>
      exists i :: 0 <= i < |ms| && ms[i] == m && CallAccepts(tbl, m, call) && IsAccessible(tbl, c, m.flags, ctx)
  {
    if ms != [] {
      var init := ms[..|ms| - 1];
      AcceptableInMembers(tbl, c, init, call, ctx, m);
      assert forall i :: 0 <= i < |init| ==> init[i] == ms[i];
    }
  }

  /** t declares m, m accepts the call, and m is accessible from ctx when
      looked up in t. */
  predicate OfferedBy(tbl: ClassTable, t: Type, m: MethodInstance, call: MethodCall, ctx: ClassId)
    requires WellFormed(tbl) && ValidType(tbl, t) && ValidCall(tbl, call) && ctx in tbl
  {
    m in MethodsOf(tbl, t) && CallAccepts(tbl, m, call) && IsAccessible(tbl, t, m.flags, ctx)
  }

  /** Every method in the acceptable set is offered by a type on the
      superclass chain starting at cur. */
  lemma {:induction false} MethodSetSound(tbl: ClassTable, cur: Option<Type>, call: MethodCall, ctx: ClassId, m: MethodInstance)
    requires WellFormed(tbl) && ValidCall(tbl, call) && ctx in tbl && (cur.Some? ==> ValidType(tbl, cur.value))
    requires m in MethodSetOn(tbl, cur, call, ctx)
    ensures exists k :: 0 <= k < |SuperChain(tbl, cur)| && OfferedBy(tbl, SuperChain(tbl, cur)[k], m, call, ctx)
    decreases ChainRank(cur)
  {
    var c := cur.value;
    var chain := SuperChain(tbl, cur);
    var rest := SuperChain(tbl, SuperOf(tbl, c));
    assert chain == [c] + rest;
    var here := AcceptableIn(tbl, c, MethodsOf(tbl, c), call, ctx);
    assert MethodSetOn(tbl, cur, call, ctx) == here + MethodSetOn(tbl, SuperOf(tbl, c), call, ctx);
    if m in here {
      AcceptableInMembers(tbl, c, MethodsOf(tbl, c), call, ctx, m);
      assert OfferedBy(tbl, chain[0], m, call, ctx);
    } else {
      MethodSetSound(tbl, SuperOf(tbl, c), call, ctx, m);
      var k :| 0 <= k < |rest| && OfferedBy(tbl, rest[k], m, call, ctx);
      assert chain[k + 1] == rest[k];
    }
  }

  /** A method offered by c is kept among c's acceptable methods. */
  lemma OfferedIsAcceptable(tbl: ClassTable, c: Type, m: MethodInstance, call: MethodCall, ctx: ClassId)
    requires WellFormed(tbl) && ValidType(tbl, c) && ValidCall(tbl, call) && ctx in tbl
    requires OfferedBy(tbl, c, m, call, ctx)
    ensures m in AcceptableIn(tbl, c, MethodsOf(tbl, c), call, ctx)
  {
    var ms := MethodsOf(tbl, c);
    var i :| 0 <= i < |ms| && ms[i] == m;
    AcceptableInMembers(tbl, c, ms, call, ctx, m);
  }

  /** Every method offered by the k-th type on the superclass chain starting
      at cur is in the acceptable set. */
  lemma {:induction false} MethodSetComplete(tbl: ClassTable, cur: Option<Type>, call: MethodCall, ctx: ClassId, m: MethodInstance, k: nat)
    requires WellFormed(tbl) && ValidCall(tbl, call) && ctx in tbl && (cur.Some? ==> ValidType(tbl, cur.value))
    requires k < |SuperChain(tbl, cur)| && OfferedBy(tbl, SuperChain(tbl, cur)[k], m, call, ctx)
    ensures m in MethodSetOn(tbl, cur, call, ctx)
    decreases ChainRank(cur)
  {
    var c := cur.value;
    var chain := SuperChain(tbl, cur);
    var rest := SuperChain(tbl, SuperOf(tbl, c));
    assert chain == [c] + rest;
    var here := AcceptableIn(tbl, c, MethodsOf(tbl, c), call, ctx);
    assert MethodSetOn(tbl, cur, call, ctx) == here + MethodSetOn(tbl, SuperOf(tbl, c), call, ctx);
    if k == 0 {
      OfferedIsAcceptable(tbl, c, m, call, ctx);
    } else {
      assert chain[k] == rest[k - 1];
      MethodSetComplete(tbl, SuperOf(tbl, c), call, ctx, m, k - 1);
    }
  }

  /** The acceptable set holds exactly the methods offered by a type on the
      superclass chain starting at cur. */
  lemma MethodSetMembers(tbl: ClassTable, cur: Option<Type>, call: MethodCall, ctx: ClassId, m: MethodInstance)
    requires WellFormed(tbl) && ValidCall(tbl, call) && ctx in tbl && (cur.Some? ==> ValidType(tbl, cur.value))
    ensures var chain := SuperChain(tbl, cur);
      m in MethodSetOn(tbl, cur, call, ctx) <==>
        exists k :: 0 <= k < |chain| && OfferedBy(tbl, chain[k], m, call, ctx)
  {
    var chain := SuperChain(tbl, cur);
    if m in MethodSetOn(tbl, cur, call, ctx) {
      MethodSetSound(tbl, cur, call, ctx, m);
    }
    if exists k :: 0 <= k < |chain| && OfferedBy(tbl, chain[k], m, call, ctx) {
      var k :| 0 <= k < |chain| && OfferedBy(tbl, chain[k], m, call, ctx);
      MethodSetComplete(tbl, cur, call, ctx, m, k);
    }
  }

  /** m1 is more specific than m2: m1's enclosing type equals m2's, descends
      from it or (for two classes) is nested in it, and m2 accepts a call
      made with m1's formal types. */
  predicate MoreSpecificThan(tbl: ClassTable, m1: MethodInstance, m2: MethodInstance)
    requires WellFormed(tbl) && ValidMethod(tbl, m1) && ValidMethod(tbl, m2)
    ensures MoreSpecificThan(tbl, m1, m2) ==> m1.name == m2.name && |m1.formals| == |m2.formals|
  {
    var t1, t2 := m1.container, m2.container;
    && (if t1.ClassType? && t2.ClassType? then DescendsFrom(tbl, t1, t2) || t1 == t2 || EnclosedBy(tbl, t1.id, t2.id)
        else DescendsFrom(tbl, t1, t2) || t1 == t2)
    && CallAccepts(tbl, m2, AsCall(m1))
  }

  /** Decides MoreSpecificThan with the enclosure walk and the call check. */
  method MoreSpecific(tbl: ClassTable, m1: MethodInstance, m2: MethodInstance) returns (r: bool)
    requires WellFormed(tbl) && ValidMethod(tbl, m1) && ValidMethod(tbl, m2)
    ensures r == MoreSpecificThan(tbl, m1, m2)
  {
    var t1, t2 := m1.container, m2.container;
    if t1.ClassType? && t2.ClassType? {
      var enclosed := IsEnclosed(tbl, t1.id, t2.id);
      if !(DescendsFrom(tbl, t1, t2) || t1 == t2 || enclosed) {
        return false;
      }
    } else if !(DescendsFrom(tbl, t1, t2) || t1 == t2) {
      return false;
    }
    r := MethodCallValid(tbl, m2, AsCall(m1));
  }

  /** Every method is more specific than itself. */
  lemma MoreSpecificReflexive(tbl: ClassTable, m: MethodInstance)
    requires WellFormed(tbl) && ValidMethod(tbl, m)
    ensures MoreSpecificThan(tbl, m, m)
  {
    CallAcceptsOwnFormals(tbl, m);
  }

  /** A more specific method has as many formals as the other, each
      assignable to the corresponding formal of the other. */
  lemma MoreSpecificFormals(tbl: ClassTable, m1: MethodInstance, m2: MethodInstance, i: nat)
    requires WellFormed(tbl) && ValidMethod(tbl, m1) && ValidMethod(tbl, m2)
    requires MoreSpecificThan(tbl, m1, m2)
    ensures |m1.formals| == |m2.formals|
    ensures i < |m1.formals| && VoidFree(m1.formals[i]) ==> IsAssignableSubtypeAsWritten(tbl, m1.formals[i], m2.formals[i])
  {
    if i < |m1.formals| && VoidFree(m1.formals[i]) {
      CallAcceptsAssignable(tbl, m2, AsCall(m1), i);
    }
  }

  /** A more specific method lives in the other's class or in one with a
      larger number: a subclass or a nested class. */
  lemma SpecificContainerBound(tbl: ClassTable, m1: MethodInstance, m2: MethodInstance)
    requires WellFormed(tbl) && ValidMethod(tbl, m1) && ValidMethod(tbl, m2)
    requires MoreSpecificThan(tbl, m1, m2)
    ensures m1.container.ClassType? && m2.container.ClassType? ==>
      m1.container == m2.container || m2.container.id < m1.container.id
  {
    var t1, t2 := m1.container, m2.container;
    if t1.ClassType? && t2.ClassType? && t1 != t2 {
      if DescendsFrom(tbl, t1, t2) {
        DescendsFromClassType(tbl, t1, t2);
      } else {
        EnclosedByLowersId(tbl, t1.id, t2.id);
      }
    }
  }

  /** Two methods each more specific than the other share their container. */
  lemma MutuallyMoreSpecificSameContainer(tbl: ClassTable, m1: MethodInstance, m2: MethodInstance)
    requires WellFormed(tbl) && ValidMethod(tbl, m1) && ValidMethod(tbl, m2)
    requires MoreSpecificThan(tbl, m1, m2) && MoreSpecificThan(tbl, m2, m1)
    ensures m1.container == m2.container
  {
    SpecificContainerBound(tbl, m1, m2);
    SpecificContainerBound(tbl, m2, m1);
    DescendsFromAsymmetric(tbl, m1.container, m2.container);
  }

  /** c is among the candidates, is more specific than each of them, and no
      other candidate is more specific than c. */
  predicate AllValid(tbl: ClassTable, s: seq<MethodInstance>)
  {
    forall i :: 0 <= i < |s| ==> ValidMethod(tbl, s[i])
  }

  predicate StrictlyMostSpecific(tbl: ClassTable, s: seq<MethodInstance>, c: MethodInstance)
    requires WellFormed(tbl) && AllValid(tbl, s)
  {
    && c in s
    && (forall x :: x in s ==> MoreSpecificThan(tbl, c, x))
    && (forall x :: x in s && x != c ==> !MoreSpecificThan(tbl, x, c))
  }

  /** At most one candidate is strictly most specific. */
  lemma StrictlyMostSpecificUnique(tbl: ClassTable, s: seq<MethodInstance>, c: MethodInstance, d: MethodInstance)
    requires WellFormed(tbl) && AllValid(tbl, s)
    requires StrictlyMostSpecific(tbl, s, c) && StrictlyMostSpecific(tbl, s, d)
    ensures c == d
  {
  }

  /** Exchanges a[j - 1] and a[j], keeping the contents. */
  method SwapAdjacent<T>(a: array<T>, j: int)
    requires 0 < j < a.Length
    modifies a
    ensures a[j - 1] == old(a[j]) && a[j] == old(a[j - 1])
    ensures forall k :: 0 <= k < a.Length && k != j - 1 && k != j ==> a[k] == old(a[k])
    ensures multiset(a[..]) == multiset(old(a[..]))
  {
    a[j - 1], a[j] := a[j], a[j - 1];
  }

  /** Moves a[i] down to position j by exchanging neighbours, shifting
      a[j..i] one place right. */
  method RotateDown<T>(a: array<T>, i: int, j: int)
    requires 0 <= j <= i < a.Length
    modifies a
    ensures a[j] == old(a[i])
    ensures forall k :: 0 <= k < j ==> a[k] == old(a[k])
    ensures forall k :: j < k <= i ==> a[k] == old(a[k - 1])
    ensures forall k :: i < k < a.Length ==> a[k] == old(a[k])
    ensures multiset(a[..]) == multiset(old(a[..]))
  {
    ghost var prev := a[..];
    var m := i;
    while m > j
      invariant j <= m <= i
      invariant multiset(a[..]) == multiset(prev)
      invariant a[m] == prev[i]
      invariant forall k :: 0 <= k < m ==> a[k] == prev[k]
      invariant forall k :: m < k <= i ==> a[k] == prev[k - 1]
      invariant forall k :: i < k < a.Length ==> a[k] == prev[k]
    {
      SwapAdjacent(a, m);
      m := m - 1;
    }
  }

  /** Where a[i] stops when it moves left past every neighbour that is not
      more specific than it: just after the nearest one that is, or at 0.
      The comparator answers -1 (keep the pair) when the left method is more
      specific and 1 otherwise. */
  method FindSlot(tbl: ClassTable, a: array<MethodInstance>, i: int) returns (j: int)
    requires 0 < i < a.Length
    requires WellFormed(tbl) && forall k :: 0 <= k < a.Length ==> ValidMethod(tbl, a[k])
    ensures 0 <= j <= i
    ensures forall k :: j <= k < i ==> !MoreSpecificThan(tbl, a[k], a[i])
    ensures 0 < j ==> MoreSpecificThan(tbl, a[j - 1], a[i])
  {
    j := i;
    while j > 0
      invariant 0 <= j <= i
      invariant forall k :: j <= k < i ==> !MoreSpecificThan(tbl, a[k], a[i])
    {
      var leftFirst := MoreSpecific(tbl, a[j - 1], a[i]);
      if leftFirst {
        break;
      }
      j := j - 1;
    }
  }

  /** cur is prev with prev[i] moved down to position j and prev[j..i]
      shifted one place right. */
  predicate MovedDown(prev: seq<MethodInstance>, cur: seq<MethodInstance>, i: int, j: int)
  {
    && 0 <= j <= i < |prev| == |cur|
    && cur[j] == prev[i]
    && (forall k :: 0 <= k < j ==> cur[k] == prev[k])
    && (forall k :: j < k <= i ==> cur[k] == prev[k - 1])
    && (forall k :: i < k < |prev| ==> cur[k] == prev[k])
  }

  /** prev[i] stops at j: no method in prev[j..i] is more specific than it,
      and the one just before j is. */
  predicate StopsAt(tbl: ClassTable, prev: seq<MethodInstance>, i: int, j: int)
    requires WellFormed(tbl) && AllValid(tbl, prev)
    requires 0 <= j <= i < |prev|
  {
    && (forall k :: j <= k < i ==> !MoreSpecificThan(tbl, prev[k], prev[i]))
    && (0 < j ==> MoreSpecificThan(tbl, prev[j - 1], prev[i]))
  }

  /** One insertion step of the sort: a[i] moves left past every
      neighbour that is not more specific than it, stopping at one that is.
      Returns where a[i] lands. */
  method InsertLeft(tbl: ClassTable, a: array<MethodInstance>, i: int) returns (j: int)
    requires 0 < i < a.Length
    requires WellFormed(tbl) && AllValid(tbl, a[..])
    modifies a
    ensures 0 <= j <= i
    ensures MovedDown(old(a[..]), a[..], i, j)
    ensures StopsAt(tbl, old(a[..]), i, j)
    ensures multiset(a[..]) == multiset(old(a[..]))
    ensures AllValid(tbl, a[..])
  {
    j := FindSlot(tbl, a, i);
    RotateDown(a, i, j);
  }

  /** An insertion step never moves a strictly most specific candidate away
      from the front, and brings it there when it is the element inserted. */
  lemma {:induction false} InsertKeepsStrictBest(tbl: ClassTable, s0: seq<MethodInstance>,
      b: MethodInstance, prev: seq<MethodInstance>, cur: seq<MethodInstance>, i: int, j: int)
    requires WellFormed(tbl) && AllValid(tbl, s0) && AllValid(tbl, prev)
    requires StrictlyMostSpecific(tbl, s0, b)
    requires multiset(prev) == multiset(s0)
    requires 0 <= j <= i < |prev| && 0 < i
    requires MovedDown(prev, cur, i, j) && StopsAt(tbl, prev, i, j)
    requires InFrontOrAbsent(prev, b, i)
    ensures InFrontOrAbsent(cur, b, i + 1)
  {
    assert prev[i] in multiset(s0);
    if prev[0] == b {
      assert MoreSpecificThan(tbl, b, prev[i]);
      assert 0 < j;
    } else if prev[i] == b {
      assert forall k :: 0 <= k < i ==> prev[k] in multiset(s0);
      assert j == 0;
    } else {
      forall k | 0 <= k <= i
        ensures cur[k] != b
      {
        if k < j {
        } else if k > j {
        }
      }
    }
  }

  /** b is at the front of s, or absent from s[..n]. */
  predicate InFrontOrAbsent(s: seq<MethodInstance>, b: MethodInstance, n: int)
  {
    0 < |s| ==> s[0] == b || forall k :: 0 <= k < n && k < |s| ==> s[k] != b
  }

  /** Sorts the candidates with the comparator that ranks m1 before m2 when
      m1 is more specific: the insertion sort the library applies to short
      arrays. A strictly most specific candidate ends up first. */
  method SortBySpecificity(tbl: ClassTable, a: array<MethodInstance>)
    requires WellFormed(tbl) && AllValid(tbl, a[..])
    modifies a
    ensures multiset(a[..]) == multiset(old(a[..]))
    ensures AllValid(tbl, a[..])
    ensures forall c :: StrictlyMostSpecific(tbl, old(a[..]), c) ==> 0 < a.Length && a[0] == c
  {
    ghost var s0 := a[..];
    ghost var best: Option<MethodInstance> := None;
    if exists c :: StrictlyMostSpecific(tbl, s0, c) {
      var c :| StrictlyMostSpecific(tbl, s0, c);
      best := Some(c);
    }
    var i := 1;
    while i < a.Length
      invariant 1 <= i && (0 < a.Length ==> i <= a.Length)
      invariant multiset(a[..]) == multiset(s0)
      invariant AllValid(tbl, a[..])
      invariant best.Some? ==> InFrontOrAbsent(a[..], best.value, i)
    {
      ghost var prev := a[..];
      var j := InsertLeft(tbl, a, i);
      if best.Some? {
        InsertKeepsStrictBest(tbl, s0, best.value, prev, a[..], i, j);
      }
      i := i + 1;
    }
    forall c | StrictlyMostSpecific(tbl, s0, c)
      ensures 0 < a.Length && a[0] == c
    {
      assert c in multiset(a[..]);
      StrictlyMostSpecificUnique(tbl, s0, c, best.value);
    }
  }

  /** Resolves a call on type t from class ctx: collects the acceptable
      methods and picks the most specific one. */
  method GetMethod(tbl: ClassTable, t: Type, call: MethodCall, ctx: ClassId) returns (r: Result<MethodInstance, SemanticError>)
    requires WellFormed(tbl) && ValidType(tbl, t) && ValidCall(tbl, call) && ctx in tbl
    ensures !IsReference(t) ==> r == Err(NotAReferenceType)
    ensures IsReference(t) ==>
      var acc := MethodSetOn(tbl, Some(t), call, ctx);
      && (acc == [] <==> r == Err(NoApplicableMethod))
      && (r.Ok? ==> r.value in acc && forall j :: 0 <= j < |acc| ==> MoreSpecificThan(tbl, r.value, acc[j]))
      && (r.Err? ==> r.error == NoApplicableMethod || (r.error == AmbiguousMethod && |acc| >= 2))
      && (|acc| == 1 ==> r == Ok(acc[0]))
      && (forall c :: StrictlyMostSpecific(tbl, acc, c) ==> r == Ok(c))
  {
    if !IsReference(t) {
      return Err(NotAReferenceType);
    }
    var acc := GetMethodSet(tbl, t, call, ctx);
    if |acc| == 0 {
      return Err(NoApplicableMethod);
    }
    r := MostSpecific(tbl, acc);
  }

  /** Sorts the candidates by specificity and returns the first one if it
      is more specific than every other, reporting an ambiguity otherwise. */
  method MostSpecific(tbl: ClassTable, acc: seq<MethodInstance>) returns (r: Result<MethodInstance, SemanticError>)
    requires WellFormed(tbl) && |acc| > 0 && forall i :: 0 <= i < |acc| ==> ValidMethod(tbl, acc[i])
    ensures r.Ok? ==> r.value in acc && forall j :: 0 <= j < |acc| ==> MoreSpecificThan(tbl, r.value, acc[j])
    ensures r.Err? ==> r.error == AmbiguousMethod && |acc| >= 2
    ensures |acc| == 1 ==> r == Ok(acc[0])
    ensures forall c :: StrictlyMostSpecific(tbl, acc, c) ==> r == Ok(c)
  {
    var a := new MethodInstance[|acc|](i requires 0 <= i < |acc| => acc[i]);
    assert a[..] == acc;
    SortBySpecificity(tbl, a);
    for i := 1 to a.Length
      invariant multiset(a[..]) == multiset(acc)
      invariant forall k :: 0 <= k < a.Length ==> ValidMethod(tbl, a[k])
      invariant forall k :: 1 <= k < i ==> MoreSpecificThan(tbl, a[0], a[k])
      invariant forall c :: StrictlyMostSpecific(tbl, acc, c) ==> a[0] == c
    {
      assert a[i] in multiset(a[..]);
      var ms := MoreSpecific(tbl, a[0], a[i]);
      if !ms {
        return Err(AmbiguousMethod);
      }
    }
    forall j | 0 <= j < |acc| ensures MoreSpecificThan(tbl, a[0], acc[j]) {
      assert acc[j] in multiset(a[..]);
      var k :| 0 <= k < a.Length && a[k] == acc[j];
      if k == 0 {
        MoreSpecificReflexive(tbl, a[0]);
      }
    }
    assert a[0] in multiset(acc);
    if |acc| == 1 {
      assert acc == [acc[0]];
    }
    return Ok(a[0]);
  }
}
