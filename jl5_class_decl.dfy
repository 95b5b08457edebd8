/** Class declarations of the generics (Java 5) extension: the four rules a
    declaration must pass before the base checks run, the attachment of
    its type variables to the class type, and the copy-on-change rebuild of
    the node after its children are visited. */
module JL5ClassDecls {
  import opened Wrappers
  import opened Types
  import opened TypeRelations

  // ---------------------------------------------------------------------
  // Declaration rules
  // ---------------------------------------------------------------------

  datatype DeclRule =
    | ExtendsEnum
    | ObjectTypeVariables
    | GenericThrowable
    | DuplicateTypeVariable

  /** Where an error is reported: at the declaration, at its superclass
      clause, or at the index-th type parameter. */
  datatype Site = AtDeclaration | AtSuperClass | AtTypeParameter(index: nat)

  datatype DeclError = DeclError(rule: DeclRule, site: Site)

  /** The index of the first occurrence of names[i] at or after from. */
  function NextSame(names: seq<string>, i: nat, from: nat): (r: Option<nat>)
    requires i < from <= |names|
    ensures r.Some? ==>
      from <= r.value < |names| && names[r.value] == names[i]
      && forall k :: from <= k < r.value ==> names[k] != names[i]
    ensures r.None? <==> forall k :: from <= k < |names| ==> names[k] != names[i]
    decreases |names| - from
  {
    if from == |names| then None
    else if names[from] == names[i] then Some(from)
    else NextSame(names, i, from + 1)
  }

  /** The name at i occurs again later. */
  predicate Recurs(names: seq<string>, i: nat)
    requires i < |names|
  {
    exists k :: i < k < |names| && names[k] == names[i]
  }

  /** The duplicate the pairwise search reports, starting from index i: the
      first later occurrence of the first name at or after i that recurs. */
  function DuplicateFrom(names: seq<string>, i: nat): Option<nat>
    requires i <= |names|
    decreases |names| - i
  {
    if i == |names| then None
    else match NextSame(names, i, i + 1)
      case Some(j) => Some(j)
      case None => DuplicateFrom(names, i + 1)
  }

  /** No duplicate is reported exactly when the names from i on are
      pairwise distinct; a reported index is the first later occurrence of
      the first recurring name, so it is later than an equal name. */
  lemma {:induction false} DuplicateFromMeaning(names: seq<string>, i: nat)
    requires i <= |names|
    ensures DuplicateFrom(names, i).None? <==>
      forall a, b :: i <= a < b < |names| ==> names[a] != names[b]
    ensures DuplicateFrom(names, i).Some? ==>
      exists a :: i <= a < DuplicateFrom(names, i).value < |names|
        && names[a] == names[DuplicateFrom(names, i).value]
        && (forall a' :: i <= a' < a ==> !Recurs(names, a'))
        && (forall k :: a < k < DuplicateFrom(names, i).value ==> names[k] != names[a])
    decreases |names| - i
  {
    if i < |names| {
      DuplicateFromMeaning(names, i + 1);
      match NextSame(names, i, i + 1)
      case Some(j) =>
        assert Recurs(names, i);
      case None =>
        assert !Recurs(names, i);
        if DuplicateFrom(names, i).Some? {
          var j := DuplicateFrom(names, i).value;
          var a :| i + 1 <= a < j < |names| && names[a] == names[j]
            && (forall a' :: i + 1 <= a' < a ==> !Recurs(names, a'))
            && (forall k :: a < k < j ==> names[k] != names[a]);
          assert forall a' :: i <= a' < a ==> !Recurs(names, a');
        }
    }
  }

  /** The verdict of the four rules, in order, for the declaration of class
      self with the given type-parameter names; None lets the base checks
      run. */
  function DeclVerdict(tbl: ClassTable, self: ClassId, params: seq<string>): Option<DeclError>
    requires WellFormed(tbl) && self in tbl
  {
    var sup := SuperOf(tbl, ClassType(self));
    if sup.Some? && tbl[sup.value.id].flags.isEnum then Some(DeclError(ExtendsEnum, AtDeclaration))
    else if self == ObjectId && |params| > 0 then Some(DeclError(ObjectTypeVariables, AtDeclaration))
    else if sup.Some? && IsThrowable(tbl, sup.value) && |params| > 0 then Some(DeclError(GenericThrowable, AtSuperClass))
    else match DuplicateFrom(params, 0)
      case Some(j) => Some(DeclError(DuplicateTypeVariable, AtTypeParameter(j)))
      case None => None
  }

  /** Applies the four rules in order; the duplicate check compares every
      pair of type parameters i < j and reports the later one. */
  method TypeCheck(tbl: ClassTable, self: ClassId, params: seq<string>) returns (err: Option<DeclError>)
    requires WellFormed(tbl) && self in tbl
    ensures err == DeclVerdict(tbl, self, params)
  {
    var sup := SuperOf(tbl, ClassType(self));
    if sup.Some? && tbl[sup.value.id].flags.isEnum {
      return Some(DeclError(ExtendsEnum, AtDeclaration));
    }
    if self == ObjectId && |params| > 0 {
      return Some(DeclError(ObjectTypeVariables, AtDeclaration));
    }
    if sup.Some? && IsThrowable(tbl, sup.value) && |params| > 0 {
      return Some(DeclError(GenericThrowable, AtSuperClass));
    }
    var i := 0;
    while i < |params|
      invariant 0 <= i <= |params|
      invariant DuplicateFrom(params, i) == DuplicateFrom(params, 0)
    {
      var j := i + 1;
      while j < |params|
        invariant i + 1 <= j <= |params|
        invariant NextSame(params, i, i + 1) == NextSame(params, i, j)
      {
        if params[i] == params[j] {
          return Some(DeclError(DuplicateTypeVariable, AtTypeParameter(j)));
        }
        j := j + 1;
      }
      i := i + 1;
    }
    return None;
  }

  /** A class whose superclass is an enum is rejected, with or without type
      parameters. */
  lemma EnumSuperRejected(tbl: ClassTable, self: ClassId, params: seq<string>)
    requires WellFormed(tbl) && self in tbl
    requires tbl[self].superType.Some? && tbl[tbl[self].superType.value].flags.isEnum
    ensures DeclVerdict(tbl, self, params) == Some(DeclError(ExtendsEnum, AtDeclaration))
  {
  }

  /** Object may not declare type variables. */
  lemma ObjectTypeVariablesRejected(tbl: ClassTable, params: seq<string>)
    requires WellFormed(tbl) && |params| > 0
    ensures DeclVerdict(tbl, ObjectId, params) == Some(DeclError(ObjectTypeVariables, AtDeclaration))
  {
  }

  /** A generic class may not extend Throwable or one of its subclasses;
      the error is placed at the superclass. */
  lemma GenericThrowableRejected(tbl: ClassTable, self: ClassId, params: seq<string>)
    requires WellFormed(tbl) && self in tbl && self != ObjectId && |params| > 0
    requires tbl[self].superType.Some? && !tbl[tbl[self].superType.value].flags.isEnum
    requires IsThrowable(tbl, ClassType(tbl[self].superType.value))
    ensures DeclVerdict(tbl, self, params) == Some(DeclError(GenericThrowable, AtSuperClass))
  {
  }

  /** The superclass is not an enum, Object declares no type variables,
      and a generic class does not extend Throwable or a subclass of it. */
  predicate FirstThreeRulesHold(tbl: ClassTable, self: ClassId, params: seq<string>)
    requires WellFormed(tbl) && self in tbl
  {
    var sup := SuperOf(tbl, ClassType(self));
    && !(sup.Some? && tbl[sup.value.id].flags.isEnum)
    && !(self == ObjectId && |params| > 0)
    && !(sup.Some? && IsThrowable(tbl, sup.value) && |params| > 0)
  }

  /** A declaration is accepted exactly when the first three rules hold
      and no two type parameters share a name. One that breaks none of
      the first three rules but repeats a name is rejected at a later
      occurrence of a repeated name; one that breaks any of them is
      rejected for that rule, not for a duplicate. */
  lemma DuplicateTypeVariables(tbl: ClassTable, self: ClassId, params: seq<string>)
    requires WellFormed(tbl) && self in tbl
    ensures DeclVerdict(tbl, self, params).None? <==>
      FirstThreeRulesHold(tbl, self, params) && forall a, b :: 0 <= a < b < |params| ==> params[a] != params[b]
    ensures FirstThreeRulesHold(tbl, self, params) && DeclVerdict(tbl, self, params).Some? ==>
      && DeclVerdict(tbl, self, params).value.rule == DuplicateTypeVariable
      && DeclVerdict(tbl, self, params).value.site.AtTypeParameter?
      && DeclVerdict(tbl, self, params).value.site.index < |params|
      && exists a :: 0 <= a < DeclVerdict(tbl, self, params).value.site.index
                     && params[a] == params[DeclVerdict(tbl, self, params).value.site.index]
    ensures !FirstThreeRulesHold(tbl, self, params) ==>
      DeclVerdict(tbl, self, params).Some? && DeclVerdict(tbl, self, params).value.rule != DuplicateTypeVariable
  {
    DuplicateFromMeaning(params, 0);
  }

  /** A class without type parameters can only be rejected for extending
      an enum. */
  lemma NonGenericDecl(tbl: ClassTable, self: ClassId)
    requires WellFormed(tbl) && self in tbl
    ensures DeclVerdict(tbl, self, []) == None || DeclVerdict(tbl, self, []) == Some(DeclError(ExtendsEnum, AtDeclaration))
  {
  }

  // ---------------------------------------------------------------------
  // Type-variable attachment
  // ---------------------------------------------------------------------

  class TypeVariable {
    var name: string
    var declaringClass: ParsedClassType?

    constructor(name: string)
      ensures this.name == name && declaringClass == null
    {
      this.name := name;
      declaringClass := null;
    }
  }

  /** The class type built for a declaration. */
  class ParsedClassType {
    var typeVariables: seq<TypeVariable>
    var pClass: PClass?

    constructor()
      ensures typeVariables == [] && pClass == null
    {
      typeVariables := [];
      pClass := null;
    }
  }

  /** The parametric class of a class type: the class and its formals. */
  class PClass {
    var clazz: ParsedClassType?
    var formals: seq<TypeVariable>

    constructor()
      ensures clazz == null && formals == []
    {
      clazz := null;
      formals := [];
    }
  }

  /** Links a fresh parametric class to the class type and, when there are
      type parameters, attaches them in declaration order: each one's
      declaring class becomes the class type, and the parametric class gets
      the same list as its formals. */
  method BuildTypes(ct: ParsedClassType, params: seq<TypeVariable>) returns (pc: PClass)
    modifies ct, set i | 0 <= i < |params| :: params[i]
    ensures fresh(pc) && pc.clazz == ct && ct.pClass == pc
    ensures |params| > 0 ==> ct.typeVariables == params && pc.formals == params
    ensures |params| == 0 ==> ct.typeVariables == old(ct.typeVariables) && pc.formals == []
    ensures forall i :: 0 <= i < |params| ==> params[i].declaringClass == ct && params[i].name == old(params[i].name)
  {
    pc := new PClass();
    ct.pClass := pc;
    pc.clazz := ct;
    if |params| > 0 {
      var typeVars: seq<TypeVariable> := [];
      var i := 0;
      while i < |params|
        invariant 0 <= i <= |params|
        invariant typeVars == params[..i]
        invariant ct.pClass == pc && pc.clazz == ct && pc.formals == []
        invariant forall k :: 0 <= k < i ==> params[k].declaringClass == ct
        invariant forall k :: 0 <= k < |params| ==> params[k].name == old(params[k].name)
      {
        var tv := params[i];
        typeVars := typeVars + [tv];
        tv.declaringClass := ct;
        i := i + 1;
      }
      assert typeVars == params;
      ct.typeVariables := typeVars;
      pc.formals := typeVars;
    }
  }

  // ---------------------------------------------------------------------
  // Rebuilding after a visit
  // ---------------------------------------------------------------------

  /** Child nodes are compared by identity. */
  type NodeId = nat

  class ClassDeclNode {
    var flags: Flags
    var name: NodeId
    var superClass: Option<NodeId>
    var interfaces: seq<NodeId>
    var body: NodeId
    var paramTypes: seq<NodeId>

    constructor(flags: Flags, name: NodeId, superClass: Option<NodeId>, interfaces: seq<NodeId>,
                body: NodeId, paramTypes: seq<NodeId>)
      ensures this.flags == flags && this.name == name && this.superClass == superClass
      ensures this.interfaces == interfaces && this.body == body && this.paramTypes == paramTypes
    {
      this.flags := flags;
      this.name := name;
      this.superClass := superClass;
      this.interfaces := interfaces;
      this.body := body;
      this.paramTypes := paramTypes;
    }

    /** A shallow copy. */
    method Copy() returns (n: ClassDeclNode)
      ensures fresh(n)
      ensures n.flags == flags && n.name == name && n.superClass == superClass
      ensures n.interfaces == interfaces && n.body == body && n.paramTypes == paramTypes
    {
      n := new ClassDeclNode(flags, name, superClass, interfaces, body, paramTypes);
    }

    /** The rebuild as the extension writes it: the name passed in is
        neither compared nor stored. */
    method ReconstructAsWritten(name': NodeId, superClass': Option<NodeId>, interfaces': seq<NodeId>,
                                body': NodeId, paramTypes': seq<NodeId>) returns (n: ClassDeclNode)
      ensures superClass' == superClass && interfaces' == interfaces && body' == body && paramTypes' == paramTypes
        ==> n == this
      ensures !(superClass' == superClass && interfaces' == interfaces && body' == body && paramTypes' == paramTypes)
        ==> fresh(n) && n.flags == flags && n.name == name
            && n.superClass == superClass' && n.interfaces == interfaces' && n.body == body' && n.paramTypes == paramTypes'
    {
      if superClass' != superClass || interfaces' != interfaces || body' != body || paramTypes' != paramTypes {
        n := Copy();
        n.superClass := superClass';
        n.interfaces := interfaces';
        n.body := body';
        n.paramTypes := paramTypes';
        return n;
      }
      return this;
    }

    /** The rebuild with the name treated like every other child: the same
        node when no child changed, otherwise a copy carrying the new
        children. */
    method Reconstruct(name': NodeId, superClass': Option<NodeId>, interfaces': seq<NodeId>,
                       body': NodeId, paramTypes': seq<NodeId>) returns (n: ClassDeclNode)
      ensures name' == name && superClass' == superClass && interfaces' == interfaces && body' == body && paramTypes' == paramTypes
        ==> n == this
      ensures !(name' == name && superClass' == superClass && interfaces' == interfaces && body' == body && paramTypes' == paramTypes)
        ==> fresh(n) && n.flags == flags && n.name == name'
            && n.superClass == superClass' && n.interfaces == interfaces' && n.body == body' && n.paramTypes == paramTypes'
    {
      if name' != name || superClass' != superClass || interfaces' != interfaces || body' != body || paramTypes' != paramTypes {
        n := Copy();
        n.name := name';
        n.superClass := superClass';
        n.interfaces := interfaces';
        n.body := body';
        n.paramTypes := paramTypes';
        return n;
      }
      return this;
    }
  }

  /** A visit that renames the declaration and changes nothing else loses
      the new name in the rebuild as written. */
  method RenameIsLost(d: ClassDeclNode, newName: NodeId) returns (n: ClassDeclNode)
    requires newName != d.name
    ensures n.name != newName
  {
    n := d.ReconstructAsWritten(newName, d.superClass, d.interfaces, d.body, d.paramTypes);
  }

  /** The corrected rebuild keeps the new name. */
  method RenameIsKept(d: ClassDeclNode, newName: NodeId) returns (n: ClassDeclNode)
    requires newName != d.name
    ensures n.name == newName && n != d
  {
    n := d.Reconstruct(newName, d.superClass, d.interfaces, d.body, d.paramTypes);
  }
}
