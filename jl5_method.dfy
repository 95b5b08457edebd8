/** Method instances of the generics (Java 5) extension: variable-arity call
    validity with the erasure fallback, the ordered checks that decide
    whether one method may override another, the most-specific rule of
    section 15.12.2.5 of the Java Language Specification (third edition),
    and the collection of overridden methods up the supertype chain.

    The extension's type representation and the type-system services the
    method instance calls but does not define (implicit conversion,
    erasure, override-equivalence, return-type substitutability, the
    throws-subset test, the access ordering of flags, substitution, the
    supertype link and the methods of a type by name) are parameters,
    gathered in an Oracle. */
module JL5Methods {
  import opened Wrappers
  import opened Types

  /** A method of the generics extension: Ty is the type representation
      and TV the type variables. */
  datatype JL5Method<Ty, TV> = JL5Method(
    container: Ty, flags: Flags, returnType: Ty, name: string,
    formals: seq<Ty>, throwTypes: seq<Ty>, typeParams: seq<TV>)

  /** The method a generic method is asked to override: one of the
      extension, or one built by the base type system. */
  datatype OverrideCandidate<Ty, TV> = BaseMethod | GenericMethod(m: JL5Method<Ty, TV>)

  /** The type-system services the method instance relies on. */
  datatype Oracle<!Ty, !TV(==)> = Oracle(
    implicitCast: (Ty, Ty) -> bool,
    /** The element type of an array type; None for any other type. */
    arrayBase: Ty -> Option<Ty>,
    /** Whether a type is a class type parsed from source, whose formals
        may still mention its type variables. */
    isParsedClass: Ty -> bool,
    /** The container's erasure substitution applied to a type. */
    erasure: (Ty, Ty) -> Ty,
    overrideEquivalent: (JL5Method<Ty, TV>, JL5Method<Ty, TV>) -> bool,
    returnSubstitutable: (Ty, Ty) -> bool,
    throwsSubset: (JL5Method<Ty, TV>, JL5Method<Ty, TV>) -> bool,
    moreRestrictive: (Flags, Flags) -> bool,
    substMethod: (map<TV, TV>, JL5Method<Ty, TV>) -> JL5Method<Ty, TV>,
    /** The reference supertype of a type, if it has one. */
    superType: Ty -> Option<Ty>,
    /** A height along the supertype link, used only to show that walks up
        the chain end. */
    rank: Ty -> nat,
    methodsNamed: (Ty, string) -> seq<JL5Method<Ty, TV>>)

  predicate IsVariableArity<Ty, TV>(m: JL5Method<Ty, TV>)
  {
    m.flags.isVarArgs
  }

  // ---------------------------------------------------------------------
  // Call validity
  // ---------------------------------------------------------------------

  /** A variable-arity method ends in an array-typed formal. */
  predicate VarArgsWellFormed<Ty(!new), TV(==,!new)>(env: Oracle<Ty, TV>, m: JL5Method<Ty, TV>)
  {
    IsVariableArity(m) ==> |m.formals| > 0 && env.arrayBase(m.formals[|m.formals| - 1]).Some?
  }

  /** The element type of a variable-arity method's last formal. */
  function ElementFormal<Ty(!new), TV(==,!new)>(env: Oracle<Ty, TV>, m: JL5Method<Ty, TV>): Ty
    requires VarArgsWellFormed(env, m) && IsVariableArity(m)
  {
    env.arrayBase(m.formals[|m.formals| - 1]).value
  }

  /** The formal the j-th argument is checked against: the j-th formal, or,
      from the last formal on in a variable-arity method, its element type. */
  function FormalFor<Ty(!new), TV(==,!new)>(env: Oracle<Ty, TV>, m: JL5Method<Ty, TV>, j: nat): Ty
    requires VarArgsWellFormed(env, m)
    requires j < |m.formals| || IsVariableArity(m)
  {
    if IsVariableArity(m) && j >= |m.formals| - 1 then ElementFormal(env, m) else m.formals[j]
  }

  /** An argument fits a formal when it converts implicitly to it or, for a
      method of a parsed class, to the formal's erasure. */
  predicate ArgFits<Ty(!new), TV(==,!new)>(env: Oracle<Ty, TV>, m: JL5Method<Ty, TV>, actual: Ty, formal: Ty)
  {
    || env.implicitCast(actual, formal)
    || (env.isParsedClass(m.container) && env.implicitCast(actual, env.erasure(m.container, formal)))
  }

  /** The j-th argument is accepted: it fits its formal, or it is the last of
      exactly as many arguments as formals of a variable-arity method and
      converts to the array type itself. */
  predicate ArgAccepted<Ty(!new), TV(==,!new)>(env: Oracle<Ty, TV>, m: JL5Method<Ty, TV>, args: seq<Ty>, j: nat)
    requires VarArgsWellFormed(env, m)
    requires j < |args|
    requires j < |m.formals| || IsVariableArity(m)
  {
    || ArgFits(env, m, args[j], FormalFor(env, m, j))
    || (IsVariableArity(m) && |args| == |m.formals| && j == |m.formals| - 1
        && env.implicitCast(args[j], m.formals[j]))
  }

  /** The arguments may be passed to m: as many as the formals for a
      fixed-arity method, at least one fewer for a variable-arity one, and
      every argument accepted. */
  predicate Accepts<Ty(!new), TV(==,!new)>(env: Oracle<Ty, TV>, m: JL5Method<Ty, TV>, args: seq<Ty>)
    requires VarArgsWellFormed(env, m)
  {
    && (if IsVariableArity(m) then |args| >= |m.formals| - 1 else |args| == |m.formals|)
    && forall j :: 0 <= j < |args| ==> ArgAccepted(env, m, args, j)
  }

  /** Walks the arguments with an iterator over the formals; once the
      formals run out in a variable-arity method, each further argument is
      checked against the element type of the last formal. */
  method CallValid<Ty(!new), TV(==,!new)>(env: Oracle<Ty, TV>, m: JL5Method<Ty, TV>, args: seq<Ty>) returns (r: bool)
    requires VarArgsWellFormed(env, m)
    ensures r == Accepts(env, m, args)
  {
    var n := |m.formals|;
    if !IsVariableArity(m) && |args| != n {
      return false;
    }
    if IsVariableArity(m) && |args| < n - 1 {
      return false;
    }
    var next := 0;
    var formal: Option<Ty> := None;
    var j := 0;
    while j < |args|
      invariant 0 <= j <= |args|
      invariant next == if j < n then j else n
      invariant forall i :: 0 <= i < j ==> ArgAccepted(env, m, args, i)
    {
      var actual := args[j];
      if next < n {
        formal := Some(m.formals[next]);
        next := next + 1;
      }
      if next == n && IsVariableArity(m) {
        formal := Some(ElementFormal(env, m));
      }
      assert formal == Some(FormalFor(env, m, j));
      if env.implicitCast(actual, formal.value) {
        j := j + 1;
        continue;
      }
      if env.isParsedClass(m.container) && env.implicitCast(actual, env.erasure(m.container, formal.value)) {
        j := j + 1;
        continue;
      }
      if IsVariableArity(m) && n == |args| && next == n {
        if !env.implicitCast(actual, m.formals[n - 1]) {
          assert !ArgAccepted(env, m, args, j);
          return false;
        }
      } else {
        assert !ArgAccepted(env, m, args, j);
        return false;
      }
      j := j + 1;
    }
    return true;
  }

  /** A fixed-arity method accepts exactly the argument lists of its own
      length whose arguments fit their formals position by position. */
  lemma FixedArityAccepts<Ty(!new), TV(!new)>(env: Oracle<Ty, TV>, m: JL5Method<Ty, TV>, args: seq<Ty>)
    requires VarArgsWellFormed(env, m) && !IsVariableArity(m)
    ensures Accepts(env, m, args) <==>
      |args| == |m.formals| && forall j :: 0 <= j < |args| ==> ArgFits(env, m, args[j], m.formals[j])
  {
    if |args| == |m.formals| {
      assert forall j :: 0 <= j < |args| ==>
        (ArgAccepted(env, m, args, j) <==> ArgFits(env, m, args[j], m.formals[j]));
    }
  }

  /** A variable-arity method accepts no more than one argument fewer than
      its formals, and accepts that many when they fit: the trailing
      formal may take no argument at all. */
  lemma VarArgsCount<Ty(!new), TV(!new)>(env: Oracle<Ty, TV>, m: JL5Method<Ty, TV>, args: seq<Ty>)
    requires VarArgsWellFormed(env, m) && IsVariableArity(m)
    ensures |args| < |m.formals| - 1 ==> !Accepts(env, m, args)
    ensures |args| == |m.formals| - 1 ==>
      (Accepts(env, m, args) <==> forall j :: 0 <= j < |args| ==> ArgFits(env, m, args[j], m.formals[j]))
  {
    if |args| == |m.formals| - 1 {
      assert forall j :: 0 <= j < |args| ==>
        (ArgAccepted(env, m, args, j) <==> ArgFits(env, m, args[j], m.formals[j]));
    }
  }

  /** Every argument in the variable-arity tail is checked against the
      element type of the last formal; only when there are exactly as many
      arguments as formals may the last one match the array type instead. */
  lemma VarArgsTail<Ty(!new), TV(!new)>(env: Oracle<Ty, TV>, m: JL5Method<Ty, TV>, args: seq<Ty>, j: nat)
    requires VarArgsWellFormed(env, m) && IsVariableArity(m)
    requires Accepts(env, m, args)
    requires |m.formals| - 1 <= j < |args|
    ensures || ArgFits(env, m, args[j], ElementFormal(env, m))
            || (|args| == |m.formals| && env.implicitCast(args[j], m.formals[|m.formals| - 1]))
    ensures |args| != |m.formals| ==> ArgFits(env, m, args[j], ElementFormal(env, m))
  {
    assert ArgAccepted(env, m, args, j);
  }

  /** With as many arguments as formals, a last argument that converts to
      the array type itself is accepted. */
  lemma VarArgsArrayArgument<Ty(!new), TV(!new)>(env: Oracle<Ty, TV>, m: JL5Method<Ty, TV>, args: seq<Ty>)
    requires VarArgsWellFormed(env, m) && IsVariableArity(m)
    requires |args| == |m.formals|
    requires forall j :: 0 <= j < |args| - 1 ==> ArgFits(env, m, args[j], m.formals[j])
    requires env.implicitCast(args[|args| - 1], m.formals[|m.formals| - 1])
    ensures Accepts(env, m, args)
  {
    assert forall j :: 0 <= j < |args| ==> ArgAccepted(env, m, args, j);
  }

  // ---------------------------------------------------------------------
  // Most specific method (JLS 3rd ed. 15.12.2.5)
  // ---------------------------------------------------------------------

  /** m1 is more specific than m2 when m2 accepts m1's formal types as
      arguments. */
  predicate MoreSpecificThan<Ty(!new), TV(==,!new)>(env: Oracle<Ty, TV>, m1: JL5Method<Ty, TV>, m2: JL5Method<Ty, TV>)
    requires VarArgsWellFormed(env, m2)
    ensures MoreSpecificThan(env, m1, m2) && !IsVariableArity(m2) ==> |m1.formals| == |m2.formals|
  {
    Accepts(env, m2, m1.formals)
  }

  /** When implicit conversion is reflexive, every method, of fixed or
      variable arity, is more specific than itself. */
  lemma MoreSpecificReflexive<Ty(!new), TV(!new)>(env: Oracle<Ty, TV>, m: JL5Method<Ty, TV>)
    requires VarArgsWellFormed(env, m)
    requires forall t :: env.implicitCast(t, t)
    ensures MoreSpecificThan(env, m, m)
  {
    forall j | 0 <= j < |m.formals|
      ensures ArgAccepted(env, m, m.formals, j)
    {
      if IsVariableArity(m) && j == |m.formals| - 1 {
        assert env.implicitCast(m.formals[j], m.formals[j]);
      } else {
        assert FormalFor(env, m, j) == m.formals[j];
        assert env.implicitCast(m.formals[j], m.formals[j]);
      }
    }
  }

  /** A fixed-arity method is less specific than m1 exactly when it has as
      many formals and each of m1's formals fits the matching one. */
  lemma MoreSpecificThanFixedArity<Ty(!new), TV(!new)>(env: Oracle<Ty, TV>, m1: JL5Method<Ty, TV>, m2: JL5Method<Ty, TV>)
    requires VarArgsWellFormed(env, m2) && !IsVariableArity(m2)
    ensures MoreSpecificThan(env, m1, m2) <==>
      |m1.formals| == |m2.formals|
      && forall j :: 0 <= j < |m1.formals| ==> ArgFits(env, m2, m1.formals[j], m2.formals[j])
  {
    FixedArityAccepts(env, m2, m1.formals);
  }

  // ---------------------------------------------------------------------
  // Overridden methods
  // ---------------------------------------------------------------------

  /** Every supertype link goes down in rank, so the chain is finite. */
  ghost predicate WellRanked<Ty(!new), TV(!new)>(env: Oracle<Ty, TV>)
  {
    forall t :: env.superType(t).Some? ==> env.rank(env.superType(t).value) < env.rank(t)
  }

  function OptionRank<Ty(!new), TV(==,!new)>(env: Oracle<Ty, TV>, t: Option<Ty>): nat
  {
    if t.Some? then env.rank(t.value) + 1 else 0
  }

  /** The types from t up the supertype chain. */
  function ChainFrom<Ty(!new), TV(==,!new)>(env: Oracle<Ty, TV>, t: Option<Ty>): (r: seq<Ty>)
    requires WellRanked(env)
    ensures t.Some? ==> |r| > 0 && r[0] == t.value
    decreases OptionRank(env, t)
  {
    if t.None? then [] else [t.value] + ChainFrom(env, env.superType(t.value))
  }

  /** The methods of ms, in order, that are override-equivalent to m. */
  function Equivalents<Ty(!new), TV(==,!new)>(env: Oracle<Ty, TV>, m: JL5Method<Ty, TV>, ms: seq<JL5Method<Ty, TV>>): (r: seq<JL5Method<Ty, TV>>)
    ensures |r| <= |ms|
    ensures forall x :: x in r <==> x in ms && env.overrideEquivalent(m, x)
  {
    if |ms| == 0 then []
    else
      var last := ms[|ms| - 1];
      assert ms == ms[..|ms| - 1] + [last];
      Equivalents(env, m, ms[..|ms| - 1]) + (if env.overrideEquivalent(m, last) then [last] else [])
  }

  /** The override-equivalent methods named like m, type by type from t
      up the supertype chain. */
  function OverriddenFrom<Ty(!new), TV(==,!new)>(env: Oracle<Ty, TV>, m: JL5Method<Ty, TV>, t: Option<Ty>): seq<JL5Method<Ty, TV>>
    requires WellRanked(env)
    decreases OptionRank(env, t)
  {
    if t.None? then []
    else Equivalents(env, m, env.methodsNamed(t.value, m.name)) + OverriddenFrom(env, m, env.superType(t.value))
  }

  /** Collects, from the container up the supertype chain, the methods of
      the same name that m is override-equivalent to. */
  method Overrides<Ty(!new), TV(==,!new)>(env: Oracle<Ty, TV>, m: JL5Method<Ty, TV>) returns (l: seq<JL5Method<Ty, TV>>)
    requires WellRanked(env)
    ensures l == OverriddenFrom(env, m, Some(m.container))
  {
    l := [];
    var rt: Option<Ty> := Some(m.container);
    while rt.Some?
      invariant l + OverriddenFrom(env, m, rt) == OverriddenFrom(env, m, Some(m.container))
      decreases OptionRank(env, rt)
    {
      var found := EquivalentsNamed(env, m, rt.value);
      assert OverriddenFrom(env, m, rt) == found + OverriddenFrom(env, m, env.superType(rt.value));
      l := l + found;
      rt := env.superType(rt.value);
    }
  }

  /** The methods named like m in t that m is override-equivalent to, in
      their declared order. */
  method EquivalentsNamed<Ty(!new), TV(==,!new)>(env: Oracle<Ty, TV>, m: JL5Method<Ty, TV>, t: Ty) returns (found: seq<JL5Method<Ty, TV>>)
    ensures found == Equivalents(env, m, env.methodsNamed(t, m.name))
  {
    var ms := env.methodsNamed(t, m.name);
    found := [];
    var i := 0;
    while i < |ms|
      invariant 0 <= i <= |ms|
      invariant found == Equivalents(env, m, ms[..i])
    {
      assert ms[..i + 1][..i] == ms[..i];
      if env.overrideEquivalent(m, ms[i]) {
        found := found + [ms[i]];
      }
      i := i + 1;
    }
    assert ms[..i] == ms;
  }

  /** A method is collected exactly when some type on the chain declares it
      under m's name and m is override-equivalent to it. */
  lemma {:induction false} OverriddenMembers<Ty(!new), TV(!new)>(env: Oracle<Ty, TV>, m: JL5Method<Ty, TV>, t: Option<Ty>, x: JL5Method<Ty, TV>)
    requires WellRanked(env)
    ensures x in OverriddenFrom(env, m, t) <==>
      env.overrideEquivalent(m, x)
      && exists k :: 0 <= k < |ChainFrom(env, t)| && x in env.methodsNamed(ChainFrom(env, t)[k], m.name)
    decreases OptionRank(env, t)
  {
    if t.Some? {
      var up := env.superType(t.value);
      OverriddenMembers(env, m, up, x);
      var c := ChainFrom(env, t);
      assert c == [t.value] + ChainFrom(env, up);
      if x in OverriddenFrom(env, m, t) {
        if x in Equivalents(env, m, env.methodsNamed(t.value, m.name)) {
          assert x in env.methodsNamed(c[0], m.name);
        } else {
          var k :| 0 <= k < |ChainFrom(env, up)| && x in env.methodsNamed(ChainFrom(env, up)[k], m.name);
          assert c[k + 1] == ChainFrom(env, up)[k];
        }
      }
      if env.overrideEquivalent(m, x) && exists k :: 0 <= k < |c| && x in env.methodsNamed(c[k], m.name) {
        var k :| 0 <= k < |c| && x in env.methodsNamed(c[k], m.name);
        if k > 0 {
          assert ChainFrom(env, up)[k - 1] == c[k];
        }
      }
    }
  }

  /** The container's own override-equivalent methods come first, in their
      declared order. */
  lemma ContainerMethodsFirst<Ty(!new), TV(!new)>(env: Oracle<Ty, TV>, m: JL5Method<Ty, TV>)
    requires WellRanked(env)
    ensures var own := Equivalents(env, m, env.methodsNamed(m.container, m.name));
      OverriddenFrom(env, m, Some(m.container))[..|own|] == own
  {
  }

  // ---------------------------------------------------------------------
  // Overriding
  // ---------------------------------------------------------------------

  /** The checks an overriding method must pass, in the order they run. */
  datatype Rule =
    | OverrideEquivalence
    | ReturnSubstitutable
    | ThrowsSubset
    | AccessNotWeaker
    | SameStaticness
    | NotFinal

  function RuleIndex(r: Rule): nat
  {
    match r
    case OverrideEquivalence => 0
    case ReturnSubstitutable => 1
    case ThrowsSubset => 2
    case AccessNotWeaker => 3
    case SameStaticness => 4
    case NotFinal => 5
  }

  /** The checks run after the type variables are substituted. */
  const LaterRules: seq<Rule> := [ReturnSubstitutable, ThrowsSubset, AccessNotWeaker, SameStaticness, NotFinal]

  /** A rejected override: the rule it breaks, or too few type parameters on
      the overridden method to substitute positionally (an index out of
      bounds). */
  datatype OverrideError = Violates(rule: Rule) | TypeParamCountMismatch

  /** mi and mj satisfy one rule; a method may always stand for a final
      method that is itself. */
  predicate Satisfies<Ty(==,!new), TV(==,!new)>(env: Oracle<Ty, TV>, mi: JL5Method<Ty, TV>, mj: JL5Method<Ty, TV>, r: Rule)
  {
    match r
    case OverrideEquivalence => env.overrideEquivalent(mi, mj)
    case ReturnSubstitutable => env.returnSubstitutable(mi.returnType, mj.returnType)
    case ThrowsSubset => env.throwsSubset(mi, mj)
    case AccessNotWeaker => !env.moreRestrictive(mi.flags, mj.flags)
    case SameStaticness => mi.flags.isStatic == mj.flags.isStatic
    case NotFinal => mi == mj || !mj.flags.isFinal
  }

  /** The map sending the first n keys to the values at the same positions;
      a later key overwrites an earlier equal one. */
  function PositionalMap<TV(==)>(keys: seq<TV>, vals: seq<TV>, n: nat): map<TV, TV>
    requires n <= |keys| && n <= |vals|
  {
    if n == 0 then map[] else PositionalMap(keys, vals, n - 1)[keys[n - 1] := vals[n - 1]]
  }

  /** The keys are the first n keys, and a key that does not occur again
      later maps to the value at its own position. */
  lemma {:induction false} PositionalMapMeaning<TV>(keys: seq<TV>, vals: seq<TV>, n: nat)
    requires n <= |keys| && n <= |vals|
    ensures forall k :: k in PositionalMap(keys, vals, n) <==> k in keys[..n]
    ensures forall i :: 0 <= i < n && keys[i] !in keys[i + 1..n] ==> PositionalMap(keys, vals, n)[keys[i]] == vals[i]
  {
    if n > 0 {
      PositionalMapMeaning(keys, vals, n - 1);
      assert keys[..n] == keys[..n - 1] + [keys[n - 1]];
      forall i | 0 <= i < n && keys[i] !in keys[i + 1..n]
        ensures PositionalMap(keys, vals, n)[keys[i]] == vals[i]
      {
        if i < n - 1 {
          assert keys[n - 1] in keys[i + 1..n];
          assert keys[i + 1..n] == keys[i + 1..n - 1] + [keys[n - 1]];
        }
      }
    }
  }

  /** The overridden method with its type variables replaced by the
      overrider's, position by position; None when it has too few. */
  function Substituted<Ty(!new), TV(==,!new)>(env: Oracle<Ty, TV>, mi: JL5Method<Ty, TV>, mj: JL5Method<Ty, TV>): Option<JL5Method<Ty, TV>>
  {
    if |mi.typeParams| == 0 then Some(mj)
    else if |mj.typeParams| < |mi.typeParams| then None
    else Some(env.substMethod(PositionalMap(mj.typeParams, mi.typeParams, |mi.typeParams|), mj))
  }

  /** The first of the rules that mi and mj break. */
  function FirstViolated<Ty(==,!new), TV(==,!new)>(env: Oracle<Ty, TV>, mi: JL5Method<Ty, TV>, mj: JL5Method<Ty, TV>, rules: seq<Rule>): (r: Option<Rule>)
    ensures r.Some? ==> r.value in rules && !Satisfies(env, mi, mj, r.value)
    ensures r.None? <==> forall k :: 0 <= k < |rules| ==> Satisfies(env, mi, mj, rules[k])
  {
    if |rules| == 0 then None
    else if !Satisfies(env, mi, mj, rules[0]) then Some(rules[0])
    else
      var rest := FirstViolated(env, mi, mj, rules[1..]);
      assert forall k :: 1 <= k < |rules| ==> rules[k] == rules[1..][k - 1];
      rest
  }

  /** The outcome of a failed rule: false when quiet, the error otherwise. */
  function Refuse(rule: Rule, quiet: bool): Result<bool, OverrideError>
  {
    if quiet then Ok(false) else Err(Violates(rule))
  }

  /** Whether mi may override the candidate: never a method of the base
      type system; otherwise the rules in order, the later ones against the
      substituted overridden method. */
  function OverrideVerdict<Ty(==,!new), TV(==,!new)>(env: Oracle<Ty, TV>, mi: JL5Method<Ty, TV>, cand: OverrideCandidate<Ty, TV>, quiet: bool): Result<bool, OverrideError>
  {
    match cand
    case BaseMethod => Ok(false)
    case GenericMethod(mj) =>
      if !Satisfies(env, mi, mj, OverrideEquivalence) then Refuse(OverrideEquivalence, quiet)
      else match Substituted(env, mi, mj)
        case None => Err(TypeParamCountMismatch)
        case Some(mjs) =>
          match FirstViolated(env, mi, mjs, LaterRules)
          case None => Ok(true)
          case Some(r) => Refuse(r, quiet)
  }

  /** Runs the override checks in order; the first failure yields false
      when quiet and an error otherwise. */
  method CanOverride<Ty(==,!new), TV(==,!new)>(env: Oracle<Ty, TV>, mi: JL5Method<Ty, TV>, cand: OverrideCandidate<Ty, TV>, quiet: bool)
    returns (r: Result<bool, OverrideError>)
    ensures r == OverrideVerdict(env, mi, cand, quiet)
  {
    if cand.BaseMethod? {
      return Ok(false);
    }
    var mj := cand.m;
    if !env.overrideEquivalent(mi, mj) {
      if quiet { return Ok(false); }
      return Err(Violates(OverrideEquivalence));
    }
    if |mi.typeParams| != 0 {
      var substm: map<TV, TV> := map[];
      var i := 0;
      while i < |mi.typeParams|
        invariant 0 <= i <= |mi.typeParams|
        invariant i <= |mj.typeParams|
        invariant substm == PositionalMap(mj.typeParams, mi.typeParams, i)
      {
        if i >= |mj.typeParams| {
          return Err(TypeParamCountMismatch);
        }
        substm := substm[mj.typeParams[i] := mi.typeParams[i]];
        i := i + 1;
      }
      mj := env.substMethod(substm, mj);
    }
    assert Substituted(env, mi, cand.m) == Some(mj);
    LaterRulesInOrder(env, mi, mj);
    if !env.returnSubstitutable(mi.returnType, mj.returnType) {
      if quiet { return Ok(false); }
      return Err(Violates(ReturnSubstitutable));
    }
    if !env.throwsSubset(mi, mj) {
      if quiet { return Ok(false); }
      return Err(Violates(ThrowsSubset));
    }
    if env.moreRestrictive(mi.flags, mj.flags) {
      if quiet { return Ok(false); }
      return Err(Violates(AccessNotWeaker));
    }
    if mi.flags.isStatic != mj.flags.isStatic {
      if quiet { return Ok(false); }
      return Err(Violates(SameStaticness));
    }
    if mi != mj && mj.flags.isFinal {
      if quiet { return Ok(false); }
      return Err(Violates(NotFinal));
    }
    return Ok(true);
  }

  /** A rule holds of mi and the overridden method as the checks see it:
      override-equivalence against the method as given, the rest against
      its substituted form. */
  predicate Passes<Ty(==,!new), TV(==,!new)>(env: Oracle<Ty, TV>, mi: JL5Method<Ty, TV>, mj: JL5Method<Ty, TV>, r: Rule)
  {
    if r == OverrideEquivalence then Satisfies(env, mi, mj, r)
    else Substituted(env, mi, mj).Some? && Satisfies(env, mi, Substituted(env, mi, mj).value, r)
  }

  /** An override is accepted exactly when every rule passes, in quiet mode
      or not. */
  lemma OverrideAccepted<Ty(!new), TV(!new)>(env: Oracle<Ty, TV>, mi: JL5Method<Ty, TV>, mj: JL5Method<Ty, TV>, quiet: bool)
    ensures OverrideVerdict(env, mi, GenericMethod(mj), quiet) == Ok(true) <==>
      forall r :: Passes(env, mi, mj, r)
  {
    if forall r :: Passes(env, mi, mj, r) {
      assert Passes(env, mi, mj, OverrideEquivalence);
      assert Passes(env, mi, mj, ReturnSubstitutable);
      assert forall k :: 0 <= k < |LaterRules| ==> Passes(env, mi, mj, LaterRules[k]);
    }
    if OverrideVerdict(env, mi, GenericMethod(mj), quiet) == Ok(true) {
      forall r ensures Passes(env, mi, mj, r) {
        if r != OverrideEquivalence {
          assert r == LaterRules[RuleIndex(r) - 1];
        }
      }
    }
  }

  /** Outside quiet mode the error names the first rule broken, in the
      fixed order: it fails, and every earlier rule passes. */
  lemma OverrideRejectsFirstBroken<Ty(!new), TV(!new)>(env: Oracle<Ty, TV>, mi: JL5Method<Ty, TV>, mj: JL5Method<Ty, TV>, r: Rule)
    requires r == OverrideEquivalence || Substituted(env, mi, mj).Some?
    ensures OverrideVerdict(env, mi, GenericMethod(mj), false) == Err(Violates(r)) <==>
      !Passes(env, mi, mj, r) && forall e :: RuleIndex(e) < RuleIndex(r) ==> Passes(env, mi, mj, e)
  {
    if r != OverrideEquivalence {
      LaterRulesInOrder(env, mi, Substituted(env, mi, mj).value);
      if OverrideVerdict(env, mi, GenericMethod(mj), false) == Err(Violates(r)) {
        forall e | RuleIndex(e) < RuleIndex(r)
          ensures Passes(env, mi, mj, e)
        {
        }
      }
      if !Passes(env, mi, mj, r) && forall e :: RuleIndex(e) < RuleIndex(r) ==> Passes(env, mi, mj, e) {
        assert Passes(env, mi, mj, OverrideEquivalence);
        assert RuleIndex(r) > 1 ==> Passes(env, mi, mj, ReturnSubstitutable);
        assert RuleIndex(r) > 2 ==> Passes(env, mi, mj, ThrowsSubset);
        assert RuleIndex(r) > 3 ==> Passes(env, mi, mj, AccessNotWeaker);
        assert RuleIndex(r) > 4 ==> Passes(env, mi, mj, SameStaticness);
      }
    }
  }

  /** The search over the later rules tries them in their listed order. */
  lemma LaterRulesInOrder<Ty(!new), TV(!new)>(env: Oracle<Ty, TV>, mi: JL5Method<Ty, TV>, mj: JL5Method<Ty, TV>)
    ensures FirstViolated(env, mi, mj, LaterRules) ==
      if !Satisfies(env, mi, mj, ReturnSubstitutable) then Some(ReturnSubstitutable)
      else if !Satisfies(env, mi, mj, ThrowsSubset) then Some(ThrowsSubset)
      else if !Satisfies(env, mi, mj, AccessNotWeaker) then Some(AccessNotWeaker)
      else if !Satisfies(env, mi, mj, SameStaticness) then Some(SameStaticness)
      else if !Satisfies(env, mi, mj, NotFinal) then Some(NotFinal)
      else None
  {
    var r5: seq<Rule> := [NotFinal];
    var r4 := [SameStaticness] + r5;
    var r3 := [AccessNotWeaker] + r4;
    var r2 := [ThrowsSubset] + r3;
    assert r5[1..] == [];
    assert FirstViolated(env, mi, mj, r5) == if !Satisfies(env, mi, mj, NotFinal) then Some(NotFinal) else None;
    assert r4[1..] == r5;
    assert FirstViolated(env, mi, mj, r4) ==
      if !Satisfies(env, mi, mj, SameStaticness) then Some(SameStaticness) else FirstViolated(env, mi, mj, r5);
    assert r3[1..] == r4;
    assert FirstViolated(env, mi, mj, r3) ==
      if !Satisfies(env, mi, mj, AccessNotWeaker) then Some(AccessNotWeaker) else FirstViolated(env, mi, mj, r4);
    assert r2[1..] == r3;
    assert FirstViolated(env, mi, mj, r2) ==
      if !Satisfies(env, mi, mj, ThrowsSubset) then Some(ThrowsSubset) else FirstViolated(env, mi, mj, r3);
    assert LaterRules == [ReturnSubstitutable] + r2;
    assert LaterRules[1..] == r2;
  }

  /** The type-parameter count error is raised whatever the mode, exactly
      when override-equivalence holds and the substitution runs off the
      overridden method's type parameters. */
  lemma OverrideCountMismatch<Ty(!new), TV(!new)>(env: Oracle<Ty, TV>, mi: JL5Method<Ty, TV>, mj: JL5Method<Ty, TV>, quiet: bool)
    ensures OverrideVerdict(env, mi, GenericMethod(mj), quiet) == Err(TypeParamCountMismatch) <==>
      env.overrideEquivalent(mi, mj) && |mj.typeParams| < |mi.typeParams|
  {
  }

  /** Quiet mode turns every rule violation into false and changes nothing
      else. */
  lemma QuietOverride<Ty(!new), TV(!new)>(env: Oracle<Ty, TV>, mi: JL5Method<Ty, TV>, cand: OverrideCandidate<Ty, TV>)
    ensures OverrideVerdict(env, mi, cand, true) == Ok(false) <==>
      || OverrideVerdict(env, mi, cand, false) == Ok(false)
      || (OverrideVerdict(env, mi, cand, false).Err? && OverrideVerdict(env, mi, cand, false).error.Violates?)
    ensures OverrideVerdict(env, mi, cand, true) == Ok(true) <==> OverrideVerdict(env, mi, cand, false) == Ok(true)
    ensures OverrideVerdict(env, mi, cand, true).Err? ==> OverrideVerdict(env, mi, cand, true) == Err(TypeParamCountMismatch)
  {
  }
}
