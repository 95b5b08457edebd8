# Polyglot type-system core in Dafny

This project models the core of the Polyglot extensible Java compiler front
end and proves properties of it:

- **Standard type system** (`StandardTypeSystem`): class hierarchy
  descent, assignability, legal casts, implicit conversions, narrowing of
  constants, member accessibility, nested-class enclosure, throwable and
  unchecked exception types, array dimension arithmetic, field and method
  lookup with most-specific selection, and the least common ancestor of two
  types. Classes live in a table keyed by number. Every super class,
  interface and enclosing class has a smaller number than the class that
  names it, which makes the hierarchy acyclic by construction
  (`Types.WellFormed`). Object is class 0.
- **Java 5 methods** (`JL5MethodInstance_c`): variable-arity call validity,
  the Java 5 "more specific" test, the list of methods a method overrides,
  and the ordered override checks with type-parameter substitution. The
  Java 5 type system is not part of this model. Its answers (subtyping,
  erasure, substitution, override-equivalence and the like) are fields of
  an `Oracle` record that every operation takes as a parameter.
- **Java 5 class declarations** (`JL5ClassDecl_c`): the four class
  declaration checks, in the order the type checker applies them, and the
  linking of type variables to their class when types are built. A
  mutable node class models the copy-on-change `reconstruct` step.
- **Caching resolver** (`CachingResolver`): a class whose two caches are
  maps the methods update in place, in front of an inner resolver whose
  queries are recorded.
- **Parser names** (`Name`): qualified names, their dotted spelling, and
  their conversion into ambiguous prefix, qualifier, receiver, expression,
  type and package nodes.
- **Parser-generator atoms** (`ppg` `Nonterminal`, `SymbolList` and
  `Precedence`): nonterminal equality and cloning, and symbol-list and
  precedence declarations with their removal, cloning and rendering.

Operations that loop in the source are methods with loop invariants, proved
against a specification function: `ensures r == Spec(...)`. The properties
the source promises are then proved as lemmas about the specification
function. Entities whose fields the source updates in place are classes.
Nothing here was executed; every statement below is a proved contract.

## Model

| member | source | states |
|---|---|---|
| TypeRelations.DescendsFrom | src/polyglot/types/StandardTypeSystem.java:63-115 | decides descent through superclass and interface links, null below every reference type and interfaces and arrays below Object; a descent is between distinct types, ends at a reference type and never starts at a primitive |
| TypeRelations.IsAssignableSubtypeAsWritten | src/polyglot/types/StandardTypeSystem.java:124-190 | decides assignability as the code is written, recursing into array element types whatever they are; it never mixes primitive and non-primitive types and void is assignable to nothing |
| TypeRelations.IsAssignableSubtype | src/polyglot/types/StandardTypeSystem.java:168-176 | decides the corrected assignability, which adds the element-type check for arrays of primitives; it only ever refuses more than the as-written relation |
| TypeRelations.IsImplicitCastValid | src/polyglot/types/StandardTypeSystem.java:290-336 | decides implicit conversion: identity, the primitive widenings, and otherwise the as-written assignability, as the code at line 335 calls it; it is reflexive and never converts between primitive and non-primitive types |
| TypeRelations.IsCastValid | src/polyglot/types/StandardTypeSystem.java:197-282 | decides cast legality case by case; it is reflexive and never casts between primitive and non-primitive types |
| TypeRelations.NumericConversionValid | src/polyglot/types/StandardTypeSystem.java:350-364 | decides the narrowing of a long constant as written; it accepts every long for long and only ever accepts the integral kinds |
| TypeRelations.IsThrowable | src/polyglot/types/StandardTypeSystem.java:529-531 | decides throwability: Throwable or a descendant; Throwable itself is throwable, no primitive is |
| TypeRelations.IsUncheckedException | src/polyglot/types/StandardTypeSystem.java:536-539 | decides unchecked exceptions: Error, RuntimeException or a descendant of either; both classes qualify, no primitive does |
| TypeRelations.ExtendArrayDims | src/polyglot/types/StandardTypeSystem.java:961-976 | adds or strips array dimensions; adding never fails and the only failure is an internal compiler error |
| TypeRelations.EnclosedBy | src/polyglot/types/StandardTypeSystem.java:429-435 | decides nesting along the containing-class chain; an enclosing class is in the class table |
| TypeRelations.IsAccessible | src/polyglot/types/StandardTypeSystem.java:382-427 | decides member access case by case; a public member and any member of the current class are accessible, and on a non-class type only public ones are |
| TypeRelations.Lca | src/polyglot/types/StandardTypeSystem.java:756-846 | the least common ancestor as a function; a primitive and a non-primitive have none, and the only failure is the missing ancestor |
| MemberResolver.CallAccepts | src/polyglot/types/StandardTypeSystem.java:877-899 | decides whether a prototype accepts a call: same name, same number of arguments, each converting implicitly to its formal |
| MemberResolver.MoreSpecificThan | src/polyglot/types/StandardTypeSystem.java:700-725 | decides the specificity test; a more specific method has the other's name and as many formals |
| JL5Methods.IsVariableArity | src/polyglot/ext/jl5/types/JL5MethodInstance_c.java:22-24 | a method has variable arity exactly when its flags say so |
| JL5Methods.Accepts | src/polyglot/ext/jl5/types/JL5MethodInstance_c.java:156-223 | decides whether a method accepts an argument list: the arity check for fixed and variable arity, then every argument accepted against its formal or, for a variable-arity method, the element type or the array itself |
| JL5Methods.MoreSpecificThan | src/polyglot/ext/jl5/types/JL5MethodInstance_c.java:230-236 | one method is more specific when the other accepts its formal types; against a fixed-arity method the counts must match |
| JL5ClassDecls.DeclVerdict | src/polyglot/ext/jl5/ast/JL5ClassDecl_c.java:140-177 | the verdict of the four declaration rules in checking order: enum superclass, Object with type variables, generic throwable, duplicate type variable |
| TypeRelations.DescendsFromClassType | src/polyglot/types/StandardTypeSystem.java:63-115 | a class type descends only from class types with smaller numbers |
| TypeRelations.InterfaceAncestors | src/polyglot/types/StandardTypeSystem.java:63-115 | an interface descends only from interfaces and from Object |
| TypeRelations.ArrayAncestors | src/polyglot/types/StandardTypeSystem.java:63-115 | an array type descends from exactly one type, Object |
| TypeRelations.DescendsFromAsymmetric | src/polyglot/types/StandardTypeSystem.java:63-115 | no two types descend from each other, so descent is a strict order |
| TypeRelations.ClassDescendsFromObject | src/polyglot/types/StandardTypeSystem.java:63-115 | every class other than Object descends from Object |
| TypeRelations.ReferenceDescendsFromObject | src/polyglot/types/StandardTypeSystem.java:63-115 | every reference type other than Object descends from Object |
| TypeRelations.DescendsFromTransitive | src/polyglot/types/StandardTypeSystem.java:63-115 | descent is transitive |
| TypeRelations.ParentsOf | src/polyglot/types/StandardTypeSystem.java:63-115 | the direct parents of a type are class types with smaller numbers; an interface's parents are interfaces; a class other than Object has its superclass first |
| TypeRelations.PrimitiveArrayAssignableAsWritten | src/polyglot/types/StandardTypeSystem.java:168-176 | the code as written lets int[] be assigned to long[], although that cast is illegal; the corrected relation refuses it |
| TypeRelations.AssignableAgreesOutsidePrimitiveArrays | src/polyglot/types/StandardTypeSystem.java:124-190 | the corrected and the as-written assignability agree except where the source is an array of primitives |
| TypeRelations.AssignableReflexive | src/polyglot/types/StandardTypeSystem.java:124-190 | every type except void is assignable to itself |
| TypeRelations.VoidNeverAssignable | src/polyglot/types/StandardTypeSystem.java:124-190 | void is assignable to nothing |
| TypeRelations.ArrayAssignableIffElements | src/polyglot/types/StandardTypeSystem.java:124-190 | a reference array is assignable to another exactly when its element type is; with a primitive element type the element types must be equal |
| TypeRelations.NullAssignableIffNotPrimitive | src/polyglot/types/StandardTypeSystem.java:124-190 | null is assignable exactly to the non-primitive types |
| TypeRelations.ArrayAssignableToNonArray | src/polyglot/types/StandardTypeSystem.java:124-190 | an array is assignable to a non-array type exactly when that type is Object |
| TypeRelations.AssignableTransitive | src/polyglot/types/StandardTypeSystem.java:124-190 | assignability is transitive |
| TypeRelations.ImplicitPrimitiveTable | src/polyglot/types/StandardTypeSystem.java:290-336 | between primitives an implicit conversion is valid exactly for identity or a widening step of the conversion table |
| TypeRelations.ImplicitPrimitiveClimbs | src/polyglot/types/StandardTypeSystem.java:313-330 | a non-identity implicit primitive conversion goes between numeric kinds, strictly up the ladder, and never back |
| TypeRelations.WideningSwitchTable | src/polyglot/types/StandardTypeSystem.java:313-330 | the fall-through switch of widenings accepts exactly the widenings of the conversion table |
| TypeRelations.ImplicitNeverUnboxes | src/polyglot/types/StandardTypeSystem.java:290-336 | no reference or null type converts implicitly to a primitive |
| TypeRelations.ImplicitCastIsAssignable | src/polyglot/types/StandardTypeSystem.java:290-336 | every valid implicit conversion from a non-void type is an assignment under the as-written assignability the conversion falls back on |
| TypeRelations.CastPrimitives | src/polyglot/types/StandardTypeSystem.java:197-282 | a cast that involves a primitive and changes the type is valid exactly between two numeric primitives |
| TypeRelations.CastPrimitiveArray | src/polyglot/types/StandardTypeSystem.java:197-282 | an array of primitives casts to an array type exactly when the element types are equal |
| TypeRelations.CastClassTable | src/polyglot/types/StandardTypeSystem.java:197-282 | the class and interface cases of a cast: two classes need descent one way or the other; a non-final class casts to any interface; a final class casts only to interfaces it implements; an interface casts to any non-final interface |
| TypeRelations.CastBetweenClassesSymmetric | src/polyglot/types/StandardTypeSystem.java:197-282 | a cast between two classes is valid in one direction exactly when it is valid in the other |
| TypeRelations.AssignableIsCastValid | src/polyglot/types/StandardTypeSystem.java:124-282 | every assignment between non-void types is a valid cast |
| TypeRelations.LongAbs | src/polyglot/types/StandardTypeSystem.java:350-364 | Java's long absolute value: non-negative, except that Long.MIN_VALUE stays negative |
| TypeRelations.NumericConversionAcceptsLongMin | src/polyglot/types/StandardTypeSystem.java:350-364 | the code as written accepts Long.MIN_VALUE as a byte, a short and an int constant, although it is out of range for each |
| TypeRelations.NumericConversionValidCorrected | src/polyglot/types/StandardTypeSystem.java:350-364 | a constant converts to byte, short, char, int or long exactly when it lies in the range the code checks, and an accepted constant always fits its type |
| TypeRelations.NumericConversionAgreesAwayFromLongMin | src/polyglot/types/StandardTypeSystem.java:350-364 | the corrected and the as-written check agree on every long value except Long.MIN_VALUE |
| TypeRelations.UncheckedIsThrowable | src/polyglot/types/StandardTypeSystem.java:529-539 | every unchecked exception type is throwable |
| TypeRelations.ExtendArrayDimsRoundTrip | src/polyglot/types/StandardTypeSystem.java:961-976 | adding n dimensions builds the n-fold array, and removing n dimensions undoes it |
| TypeRelations.ExtendArrayDimsOverStrip | src/polyglot/types/StandardTypeSystem.java:961-976 | removing more dimensions than a type has is an internal compiler error |
| TypeRelations.IsEnclosed | src/polyglot/types/StandardTypeSystem.java:429-435 | the loop over enclosing classes decides whether one class is nested, at any depth, inside another |
| TypeRelations.EnclosedByLowersId | src/polyglot/types/StandardTypeSystem.java:429-435 | an enclosing class has a smaller number than the class it encloses |
| TypeRelations.NoClassEnclosesItself | src/polyglot/types/StandardTypeSystem.java:429-435 | no class encloses itself |
| TypeRelations.EnclosedByTransitive | src/polyglot/types/StandardTypeSystem.java:429-435 | enclosure is transitive |
| TypeRelations.PrivateAccess | src/polyglot/types/StandardTypeSystem.java:382-427 | a private member is accessible exactly from its own class or from a class nested in it or enclosing it |
| TypeRelations.PackageAccess | src/polyglot/types/StandardTypeSystem.java:382-427 | a package-private member is accessible from its own package |
| TypeRelations.ArrayMemberAccess | src/polyglot/types/StandardTypeSystem.java:382-427 | a member of an array type is accessible exactly when it is public |
| TypeRelations.FirstReachedIsFirst | src/polyglot/types/StandardTypeSystem.java:756-846 | the ancestor search fails exactly when the second type reaches no type on the first type's superclass chain; otherwise it returns the first one reached |
| TypeRelations.LeastCommonAncestor | src/polyglot/types/StandardTypeSystem.java:756-846 | the recursive method computes the least-common-ancestor function, including its failure cases |
| TypeRelations.SuperChainAncestors | src/polyglot/types/StandardTypeSystem.java:756-846 | each later type on a superclass chain is a class type the first type descends from |
| TypeRelations.SuperChainReachesObject | src/polyglot/types/StandardTypeSystem.java:756-846 | every class's superclass chain reaches Object |
| TypeRelations.LcaIsCommonSupertype | src/polyglot/types/StandardTypeSystem.java:756-846 | a least common ancestor, when found, is a valid type that both arguments are assignable to |
| TypeRelations.ReachedIsCommonSupertype | src/polyglot/types/StandardTypeSystem.java:756-846 | a type on the first chain that the second type reaches is a supertype of both |
| TypeRelations.DescendsIsAssignableAsWritten | src/polyglot/types/StandardTypeSystem.java:124-190 | descent outside the array-to-array case implies assignability |
| TypeRelations.AssignableAsWrittenReflexive | src/polyglot/types/StandardTypeSystem.java:124-190 | the as-written assignability is reflexive on non-void types |
| TypeRelations.LcaOfClassSucceeds | src/polyglot/types/StandardTypeSystem.java:756-846 | a class and any reference type always have a least common ancestor |
| TypeRelations.LcaNumeric | src/polyglot/types/StandardTypeSystem.java:756-846 | two numeric primitives always have a least common ancestor, which is one of the two, whichever order they come in |
| MemberResolver.HasSameArguments | src/polyglot/types/StandardTypeSystem.java:856-871 | the pairwise loop answers true exactly when the two formal lists are equal |
| MemberResolver.MethodCallValid | src/polyglot/types/StandardTypeSystem.java:877-899 | the loop decides whether the name matches, the argument count matches and every argument converts implicitly to its formal |
| MemberResolver.CallAcceptsOwnFormals | src/polyglot/types/StandardTypeSystem.java:877-899 | a method accepts a call made with its own formal types |
| MemberResolver.CallAcceptsAssignable | src/polyglot/types/StandardTypeSystem.java:877-899 | every non-void argument of an accepted call is assignable to its formal under the as-written assignability |
| MemberResolver.CallAcceptsNullArgument | src/polyglot/types/StandardTypeSystem.java:877-899 | a null argument is never accepted by a primitive formal |
| MemberResolver.FirstNamed | src/polyglot/types/StandardTypeSystem.java:552-588 | the first field of a class with the given name, or none exactly when no field has that name |
| MemberResolver.GetField | src/polyglot/types/StandardTypeSystem.java:552-588 | the superclass-chain walk computes the field-lookup function, errors included |
| MemberResolver.FieldNotFoundMeaning | src/polyglot/types/StandardTypeSystem.java:552-588 | a field is reported missing exactly when no class on the chain declares the name; the only errors are missing and inaccessible |
| MemberResolver.FieldFoundMeaning | src/polyglot/types/StandardTypeSystem.java:552-588 | a found field is the first of its name in the first class on the chain declaring the name, and it is accessible there |
| MemberResolver.FieldLookupOnNonReference | src/polyglot/types/StandardTypeSystem.java:552-588 | a field lookup on a primitive or null type is an error |
| MemberResolver.GetMethodSet | src/polyglot/types/StandardTypeSystem.java:661-690 | the superclass-chain walk collects the acceptable methods of each class on the chain, in order |
| MemberResolver.AcceptableMethods | src/polyglot/types/StandardTypeSystem.java:661-690 | the loop keeps exactly the declared methods that accept the call and are accessible, in order |
| MemberResolver.AcceptableInMembers | src/polyglot/types/StandardTypeSystem.java:661-690 | a method is kept exactly when it is listed, accepts the call and is accessible |
| MemberResolver.MethodSetSound | src/polyglot/types/StandardTypeSystem.java:661-690 | every collected method is declared, acceptable and accessible in some class on the chain |
| MemberResolver.MethodSetComplete | src/polyglot/types/StandardTypeSystem.java:661-690 | every method declared, acceptable and accessible in a class on the chain is collected |
| MemberResolver.MethodSetMembers | src/polyglot/types/StandardTypeSystem.java:661-690 | the collected set holds exactly the methods offered by the classes on the chain |
| MemberResolver.MoreSpecific | src/polyglot/types/StandardTypeSystem.java:700-725 | decides that the first method's container equals, descends from or is nested in the second's, and that the second accepts the first's formals |
| MemberResolver.MoreSpecificReflexive | src/polyglot/types/StandardTypeSystem.java:700-725 | every method is as specific as itself |
| MemberResolver.MoreSpecificFormals | src/polyglot/types/StandardTypeSystem.java:700-725 | a more specific method has as many formals as the other, and each non-void formal is assignable, as written, to the other's |
| MemberResolver.SpecificContainerBound | src/polyglot/types/StandardTypeSystem.java:700-725 | when both containers are classes, a more specific method's container is the other's or has a larger number (it descends from or is nested in the other) |
| MemberResolver.MutuallyMoreSpecificSameContainer | src/polyglot/types/StandardTypeSystem.java:700-725 | two methods each more specific than the other share their container |
| MemberResolver.StrictlyMostSpecificUnique | src/polyglot/types/StandardTypeSystem.java:700-725 | at most one candidate is more specific than every candidate while no other candidate is more specific than it |
| MemberResolver.SwapAdjacent | src/polyglot/types/StandardTypeSystem.java:623 | one exchange step of the sort: the two neighbours trade places, nothing else moves, and the contents are kept |
| MemberResolver.RotateDown | src/polyglot/types/StandardTypeSystem.java:623 | exchanging neighbours moves one element down to a given position, shifts the ones it passes one place right, and keeps the contents |
| MemberResolver.FindSlot | src/polyglot/types/StandardTypeSystem.java:644-654 | with the comparator answering -1 (keep the pair) exactly when the left method is more specific, the element stops just after the nearest method more specific than it, having passed only methods that are not |
| MemberResolver.InsertLeft | src/polyglot/types/StandardTypeSystem.java:623 | one insertion step: the element moves down to where the comparator stops it, the others shift, and the contents are kept |
| MemberResolver.InsertKeepsStrictBest | src/polyglot/types/StandardTypeSystem.java:621-636 | an insertion step never moves a strictly most specific candidate away from the front, and brings it there when it is the element inserted |
| MemberResolver.SortBySpecificity | src/polyglot/types/StandardTypeSystem.java:597-637 | the in-place sort by the specificity comparator permutes the array and puts a strictly most specific candidate, when there is one, first |
| MemberResolver.GetMethod | src/polyglot/types/StandardTypeSystem.java:597-637 | a non-reference receiver is an error; no applicable method exactly when the set is empty; a returned method is in the set and more specific than every member; a single candidate is returned, and so is a strictly most specific candidate; otherwise the call is ambiguous |
| MemberResolver.MostSpecific | src/polyglot/types/StandardTypeSystem.java:597-637 | the chosen method is a candidate more specific than every candidate, and a strictly most specific candidate is always chosen; the only error is ambiguity among two or more |
| JL5Methods.CallValid | src/polyglot/ext/jl5/types/JL5MethodInstance_c.java:156-223 | the argument loop decides acceptance for fixed and variable arity, including an array passed directly in the variable-arity position |
| JL5Methods.FixedArityAccepts | src/polyglot/ext/jl5/types/JL5MethodInstance_c.java:156-223 | a fixed-arity method accepts exactly a same-length argument list whose arguments each fit their formal |
| JL5Methods.VarArgsCount | src/polyglot/ext/jl5/types/JL5MethodInstance_c.java:156-223 | a variable-arity method refuses fewer arguments than its fixed formals; with exactly that many, the fixed formals decide |
| JL5Methods.VarArgsTail | src/polyglot/ext/jl5/types/JL5MethodInstance_c.java:156-223 | each trailing argument of an accepted variable-arity call fits the array's element type, or it is the one array argument passed directly |
| JL5Methods.VarArgsArrayArgument | src/polyglot/ext/jl5/types/JL5MethodInstance_c.java:156-223 | an array argument in the last position that converts to the last formal is accepted |
| JL5Methods.MoreSpecificReflexive | src/polyglot/ext/jl5/types/JL5MethodInstance_c.java:230-236 | with a reflexive implicit conversion, every method is as specific as itself |
| JL5Methods.MoreSpecificThanFixedArity | src/polyglot/ext/jl5/types/JL5MethodInstance_c.java:230-236 | against a fixed-arity method, more specific means the same number of formals, each fitting the other's |
| JL5Methods.ChainFrom | src/polyglot/ext/jl5/types/JL5MethodInstance_c.java:27-49 | the supertype chain starts at the given type |
| JL5Methods.Equivalents | src/polyglot/ext/jl5/types/JL5MethodInstance_c.java:27-49 | keeps exactly the listed methods override-equivalent to the given one |
| JL5Methods.Overrides | src/polyglot/ext/jl5/types/JL5MethodInstance_c.java:27-49 | the supertype walk computes the overridden-methods list |
| JL5Methods.EquivalentsNamed | src/polyglot/ext/jl5/types/JL5MethodInstance_c.java:36-44 | the loop over a type's methods of the same name keeps the override-equivalent ones |
| JL5Methods.OverriddenMembers | src/polyglot/ext/jl5/types/JL5MethodInstance_c.java:27-49 | a method is listed exactly when it is override-equivalent and declared with the same name by a type on the supertype chain |
| JL5Methods.ContainerMethodsFirst | src/polyglot/ext/jl5/types/JL5MethodInstance_c.java:27-49 | the list starts with the equivalent methods of the method's own class |
| JL5Methods.PositionalMapMeaning | src/polyglot/ext/jl5/types/JL5MethodInstance_c.java:70-77 | the substitution maps exactly the first n type parameters, each one not repeated later to its counterpart |
| JL5Methods.FirstViolated | src/polyglot/ext/jl5/types/JL5MethodInstance_c.java:80-150 | reports a rule that is broken, or none exactly when every rule holds |
| JL5Methods.CanOverride | src/polyglot/ext/jl5/types/JL5MethodInstance_c.java:51-153 | the ordered checks compute the override verdict |
| JL5Methods.OverrideAccepted | src/polyglot/ext/jl5/types/JL5MethodInstance_c.java:51-153 | an override is accepted exactly when every rule passes |
| JL5Methods.OverrideRejectsFirstBroken | src/polyglot/ext/jl5/types/JL5MethodInstance_c.java:51-153 | a non-quiet rejection names exactly the first broken rule in the checking order |
| JL5Methods.LaterRulesInOrder | src/polyglot/ext/jl5/types/JL5MethodInstance_c.java:80-150 | return type, throws, access, staticness and finality are checked in that order |
| JL5Methods.OverrideCountMismatch | src/polyglot/ext/jl5/types/JL5MethodInstance_c.java:70-77 | the substitution fails exactly for override-equivalent methods where the overridden one has fewer type parameters |
| JL5Methods.QuietOverride | src/polyglot/ext/jl5/types/JL5MethodInstance_c.java:51-153 | a quiet check answers false where a loud one reports a rule violation, and agrees with it otherwise |
| JL5ClassDecls.NextSame | src/polyglot/ext/jl5/ast/JL5ClassDecl_c.java:165-175 | the next later position holding the same name, or none exactly when no later name repeats it |
| JL5ClassDecls.DuplicateFromMeaning | src/polyglot/ext/jl5/ast/JL5ClassDecl_c.java:165-175 | no duplicate is reported exactly when the names are distinct; a reported position repeats the earliest name that recurs |
| JL5ClassDecls.TypeCheck | src/polyglot/ext/jl5/ast/JL5ClassDecl_c.java:140-177 | the checks, duplicate-name loops included, compute the declaration verdict |
| JL5ClassDecls.EnumSuperRejected | src/polyglot/ext/jl5/ast/JL5ClassDecl_c.java:143-146 | extending an enum is rejected first, at the declaration |
| JL5ClassDecls.ObjectTypeVariablesRejected | src/polyglot/ext/jl5/ast/JL5ClassDecl_c.java:148-151 | Object may not declare type variables |
| JL5ClassDecls.GenericThrowableRejected | src/polyglot/ext/jl5/ast/JL5ClassDecl_c.java:155-162 | a generic class may not extend a throwable class, reported at the superclass |
| JL5ClassDecls.DuplicateTypeVariables | src/polyglot/ext/jl5/ast/JL5ClassDecl_c.java:140-177 | a declaration passes exactly when the first three checks pass and its type variables are distinct; otherwise the error names a repeated type variable or an earlier check |
| JL5ClassDecls.NonGenericDecl | src/polyglot/ext/jl5/ast/JL5ClassDecl_c.java:140-177 | a declaration without type variables can fail only by extending an enum |
| JL5ClassDecls.BuildTypes | src/polyglot/ext/jl5/ast/JL5ClassDecl_c.java:57-79 | the new class object points at the type; each type variable now names the type as its declaring class; the type keeps its variables unless there are none |
| JL5ClassDecls.ClassDeclNode.Copy | src/polyglot/ext/jl5/ast/JL5ClassDecl_c.java:88-103 | a fresh node with the same fields |
| JL5ClassDecls.ClassDeclNode.ReconstructAsWritten | src/polyglot/ext/jl5/ast/JL5ClassDecl_c.java:88-103 | the code as written returns the node itself when only the name changed, and never stores a new name |
| JL5ClassDecls.RenameIsLost | src/polyglot/ext/jl5/ast/JL5ClassDecl_c.java:106-113 | visiting a declaration where only the name changes returns the old name |
| JL5ClassDecls.ClassDeclNode.Reconstruct | src/polyglot/ext/jl5/ast/JL5ClassDecl_c.java:88-103 | the node itself when every child is unchanged, otherwise a fresh copy holding the new children, name included |
| JL5ClassDecls.RenameIsKept | src/polyglot/ext/jl5/ast/JL5ClassDecl_c.java:106-113 | with the corrected reconstruct a rename yields a new node with the new name |
| Resolvers.InnerResolver.Find | src/polyglot/types/CachingResolver.java:62-71 | the inner lookup answers from its table and records the query |
| Resolvers.CachingResolver.PackageExists | src/polyglot/types/CachingResolver.java:42-52 | a cached answer is returned without asking the inner resolver; otherwise the inner answer is returned and cached |
| Resolvers.CachingResolver.Find | src/polyglot/types/CachingResolver.java:58-83 | a hit is answered from the cache; a miss asks the inner resolver once and caches only a success |
| Resolvers.CachingResolver.CheckType | src/polyglot/types/CachingResolver.java:89-91 | no entry gives nothing; a cached type gives that type; a cached package is an error |
| Resolvers.CachingResolver.Install | src/polyglot/types/CachingResolver.java:98-100 | installs under the name and leaves the package cache alone |
| Resolvers.FindTwice | src/polyglot/types/CachingResolver.java:58-83 | a second find of a found name returns the same answer without asking the inner resolver again |
| Resolvers.PackageExistsTwice | src/polyglot/types/CachingResolver.java:42-52 | two package queries agree, and at most the first reaches the inner resolver |
| Resolvers.InstallThenFind | src/polyglot/types/CachingResolver.java:58-100 | after an install, find returns the installed object without asking the inner resolver |
| Resolvers.CachesIndependent | src/polyglot/types/CachingResolver.java:12-100 | package queries do not disturb the class cache, and finds and installs leave a cached package answer as it was |
| Names.NameToStringJoins | src/polyglot/parse/Name.java:80-86 | the dotted spelling is the identifiers joined by dots |
| Names.SplitJoin | src/polyglot/parse/Name.java:80-86 | splitting at dots undoes joining when no identifier holds a dot |
| Names.FromSegmentsInverse | src/polyglot/parse/Name.java:80-86 | a name is rebuilt from its identifiers |
| Names.NameRoundTrip | src/polyglot/parse/Name.java:80-86 | a name without dots in its identifiers is read back from its spelling |
| Names.ToPrefix | src/polyglot/parse/Name.java:49-55 | a prefix node carries the last identifier, and has a qualifier exactly when the name is qualified |
| Names.ToQualifier | src/polyglot/parse/Name.java:58-64 | a qualifier node carries the last identifier, and has a qualifier exactly when the name is qualified |
| Names.ToReceiver | src/polyglot/parse/Name.java:40-46 | a receiver carries the last identifier over the prefix node of the prefix, if any |
| Names.ToExpr | src/polyglot/parse/Name.java:31-37 | a simple name becomes an ambiguous expression; a qualified one becomes a field access on the receiver of its prefix |
| Names.ToType | src/polyglot/parse/Name.java:72-78 | a type node carries the last identifier over the qualifier node of the prefix, if any |
| Names.ToPackage | src/polyglot/parse/Name.java:67-69 | the package is named by the whole dotted name: all segments, outermost first, joined with dots (for a simple name, its identifier) |
| Names.ConversionsSpellName | src/polyglot/parse/Name.java:31-86 | every node a name becomes spells the name's dotted form |
| Names.ConversionsInjective | src/polyglot/parse/Name.java:31-86 | different well-formed names become different nodes of every kind |
| GrammarAtoms.NewNonterminal | tools/ppg/src/ppg/atoms/Nonterminal.java:4-12 | a new nonterminal has the given name and no label |
| GrammarAtoms.CloneSymbol | tools/ppg/src/ppg/atoms/Nonterminal.java:14-17 | a clone keeps name, label and kind |
| GrammarAtoms.NonterminalEqualsByName | tools/ppg/src/ppg/atoms/Nonterminal.java:19-29 | nonterminals are equal exactly when their names are; the equality is reflexive, symmetric and transitive, and ignores labels |
| GrammarAtoms.NonterminalEqualsOther | tools/ppg/src/ppg/atoms/Nonterminal.java:19-29 | a nonterminal equals a string exactly when it is its name, and never equals a terminal or any other object |
| GrammarAtoms.CloneEqualsOriginal | tools/ppg/src/ppg/atoms/Nonterminal.java:14-29 | a clone of a nonterminal equals the original both ways |
| GrammarAtoms.JoinWithCommas | tools/ppg/src/ppg/atoms/SymbolList.java:40-65 | the loop puts a comma after every symbol except the last |
| GrammarAtoms.FirstIndex | tools/ppg/src/ppg/atoms/SymbolList.java:19-28 | the position of the first occurrence |
| GrammarAtoms.RemoveFirstMeaning | tools/ppg/src/ppg/atoms/SymbolList.java:19-28 | removing the first occurrence shortens the list by one, keeps what comes before it, and shifts what comes after it down by one |
| GrammarAtoms.RemoveFirstCount | tools/ppg/src/ppg/atoms/SymbolList.java:19-28 | removing the first occurrence removes exactly one copy of the symbol |
| GrammarAtoms.SymbolList.DropSymbol | tools/ppg/src/ppg/atoms/SymbolList.java:19-28 | reports whether the symbol was present, removes its first occurrence if so, and changes nothing else |
| GrammarAtoms.SymbolList.Clone | tools/ppg/src/ppg/atoms/SymbolList.java:30-38 | a fresh list with the same kind, type and symbols |
| GrammarAtoms.SymbolList.ToString | tools/ppg/src/ppg/atoms/SymbolList.java:40-65 | renders the declaration |
| GrammarAtoms.SymbolListShape | tools/ppg/src/ppg/atoms/SymbolList.java:40-65 | an empty list renders as nothing; otherwise the text starts with the kind keyword and ends with a semicolon |
| GrammarAtoms.Precedence.Clone | tools/ppg/src/ppg/atoms/Precedence.java:18-25 | a fresh declaration with the same associativity and a clone of each symbol in order |
| GrammarAtoms.Precedence.ToString | tools/ppg/src/ppg/atoms/Precedence.java:27-47 | renders the declaration |
| GrammarAtoms.PrecedenceShape | tools/ppg/src/ppg/atoms/Precedence.java:27-47 | the text starts with the precedence keyword and ends with a semicolon, even with no symbols |

## Left out

- Array types have no fields, methods or interfaces, and no superclass link. isSameType is structural equality of type values.
- Primitive kinds are ordered byte < short < char < int < long < float < double. A widening conversion climbs that order as the conversion table in the source lists it. byte to short is not implicit in the source's table, and the model keeps that.
- The null type is not a reference type, and void is not assignable to itself. Both follow the code.
- MemberResolver.SortBySpecificity: the source sorts with Arrays.sort, a library merge sort. The model uses an insertion sort, the shape of that sort's small-array path. It states that the result is a permutation with a strictly most specific candidate first. That second fact is proved for the insertion sort only. The comparator is not a total order, so no sortedness property is claimed. GetMethod's other properties hold for any permutation.
- Implicit conversion (TypeRelations.IsImplicitCastValid), and with it call acceptance and the specificity test, uses the as-written assignability, as the source does. So an int[] argument is accepted for a long[] parameter. The corrected relation, TypeRelations.IsAssignableSubtype, stands apart and is what TypeRelations.AssignableIsCastValid is proved for.
- TypeRelations.LeastCommonAncestor: when the first type's superclass chain runs out, the source asks whether the second type descends from null. That call is not part of this model. The model reports that no common ancestor exists.
- JL5Methods: subtyping, erasure, substitution, override-equivalence, return-type substitutability, throws subsets, access comparison, supertypes and method lists of the Java 5 type system are not part of this model. They are fields of an `Oracle` value.
- JL5Methods: method identity (`!=` together with `equals`) is value equality of method records.
- JL5Methods.CallValid requires a variable-arity method to end in an array formal. The source would fail with a cast or index exception otherwise.
- JL5Methods.OverrideCountMismatch: when the overridden method has fewer type parameters than the overriding one, the source indexes past the end of a list. The model reports that case as an error value.
- JL5Methods: setTypeParams is a value update of the record. toString and the error-message texts are left out; a rejection names the rule it violates.
- JL5ClassDecls: positions, error-message texts and the parser's type-node rewriting are left out. Class declaration children are node identifiers.
- Resolvers: the inner resolver is a table with a fixed answer per name, so an inner resolver whose answers change over time is not modelled. Reporting and job dependency recording are left out, and so is an inner resolver that returns null.
- Names: source positions and the node factory are left out. A package node carries its dotted name rather than a resolved package.
- GrammarAtoms: symbols are values, so the aliasing of the Vector the constructors store is lost. Precedence renders each symbol through a `show` parameter, which stands for the symbol's own toString. A terminal's clone is taken to copy it.

## Findings

| source | as written | input that shows it | evidently intended | confidence | as-written member | corrected member |
|---|---|---|---|---|---|---|
| src/polyglot/types/StandardTypeSystem.java:350-364 | the range check compares Math.abs of the value against the bound, and Math.abs(Long.MIN_VALUE) is negative | the constant Long.MIN_VALUE checked against byte, short or int | reject Long.MIN_VALUE for every type narrower than long | not executed | TypeRelations.NumericConversionAcceptsLongMin | TypeRelations.NumericConversionValidCorrected |
| src/polyglot/types/StandardTypeSystem.java:168-176 | two arrays are assignable when their element types are, including primitive element types; implicit conversion (line 335) and so method calls inherit this | int[] assigned to long[], or passed for a long[] parameter | arrays of primitives are assignable only when their element types are equal, as the cast rule requires | not executed | TypeRelations.PrimitiveArrayAssignableAsWritten | TypeRelations.AssignableIsCastValid |
| src/polyglot/ext/jl5/ast/JL5ClassDecl_c.java:88-103 | reconstruct never compares or stores the name it is given | a visit whose only change is the class name | a changed name yields a copy holding the new name | not executed | JL5ClassDecls.RenameIsLost | JL5ClassDecls.RenameIsKept |
