/** Possibly qualified identifiers met by the parser before it knows what
    they denote, their dotted rendering, and the ambiguous syntax nodes they
    become as an expression, a receiver, a prefix, a qualifier, a type or a
    package. */
module Names {
  import opened Wrappers

  /** An identifier, possibly qualified by a prefix name. */
  datatype Name = Simple(id: string) | Qualified(prefix: Name, id: string)

  /** Ambiguous nodes, each carrying the converted prefix (if any) and the
      last identifier. */
  datatype Prefix = AmbPrefix(qual: Option<Prefix>, name: string)
  datatype QualifierNode = AmbQualifierNode(qual: Option<QualifierNode>, name: string)
  datatype Receiver = AmbReceiver(prefix: Option<Prefix>, name: string)
  datatype Expr = AmbExpr(name: string) | Field(target: Receiver, name: string)
  datatype TypeNode = AmbTypeNode(qual: Option<QualifierNode>, name: string)
  datatype PackageNode = PackageNode(packageName: string)

  // ---------------------------------------------------------------------
  // Rendering
  // ---------------------------------------------------------------------

  /** The identifiers of a name, outermost first. */
  function Segments(n: Name): (r: seq<string>)
    ensures |r| > 0 && r[|r| - 1] == n.id
  {
    match n
    case Simple(id) => [id]
    case Qualified(p, id) => Segments(p) + [id]
  }

  /** The segments joined with dots. */
  function JoinDots(segs: seq<string>): string
    requires |segs| > 0
  {
    if |segs| == 1 then segs[0] else segs[0] + "." + JoinDots(segs[1..])
  }

  /** The dotted form of a name: the prefix's dotted form, a dot, and the
      identifier. */
  function NameToString(n: Name): string
  {
    match n
    case Simple(id) => id
    case Qualified(p, id) => NameToString(p) + "." + id
  }

  lemma {:induction false} JoinDotsSnoc(segs: seq<string>, x: string)
    requires |segs| > 0
    ensures JoinDots(segs + [x]) == JoinDots(segs) + "." + x
    decreases |segs|
  {
    if |segs| > 1 {
      assert (segs + [x])[1..] == segs[1..] + [x];
      JoinDotsSnoc(segs[1..], x);
    } else {
      assert (segs + [x])[1..] == [x];
    }
  }

  /** The dotted form is the join of the segments. */
  lemma {:induction false} NameToStringJoins(n: Name)
    ensures NameToString(n) == JoinDots(Segments(n))
  {
    if n.Qualified? {
      NameToStringJoins(n.prefix);
      JoinDotsSnoc(Segments(n.prefix), n.id);
    }
  }

  /** Splits a string at every dot. */
  function SplitDots(s: string): (r: seq<string>)
    ensures |r| > 0
  {
    if |s| == 0 then [""]
    else
      var rest := SplitDots(s[1..]);
      if s[0] == '.' then [""] + rest else [[s[0]] + rest[0]] + rest[1..]
  }

  predicate DotFree(x: string)
  {
    '.' !in x
  }

  /** Every identifier of the name is free of dots. */
  predicate WellFormedName(n: Name)
  {
    forall i :: 0 <= i < |Segments(n)| ==> DotFree(Segments(n)[i])
  }

  lemma {:induction false} SplitDotFreeHead(x: string, s: string)
    requires DotFree(x)
    ensures SplitDots(x + s) == [x + SplitDots(s)[0]] + SplitDots(s)[1..]
    decreases |x|
  {
    if |x| > 0 {
      assert (x + s)[1..] == x[1..] + s;
      SplitDotFreeHead(x[1..], s);
      assert [x[0]] + (x[1..] + SplitDots(s)[0]) == x + SplitDots(s)[0];
    } else {
      var r := SplitDots(s);
      assert x + s == s && x + r[0] == r[0];
      assert r == [r[0]] + r[1..];
    }
  }

  /** Splitting undoes joining when no segment holds a dot. */
  lemma {:induction false} SplitJoin(segs: seq<string>)
    requires |segs| > 0
    requires forall i :: 0 <= i < |segs| ==> DotFree(segs[i])
    ensures SplitDots(JoinDots(segs)) == segs
    decreases |segs|
  {
    if |segs| == 1 {
      SplitDotFreeHead(segs[0], "");
      assert segs[0] + "" == segs[0];
      assert segs == [segs[0]];
    } else {
      var rest := JoinDots(segs[1..]);
      SplitJoin(segs[1..]);
      assert segs[0] + "." + rest == segs[0] + ("." + rest);
      SplitDotFreeHead(segs[0], "." + rest);
      assert ("." + rest)[1..] == rest;
      assert SplitDots("." + rest) == [""] + segs[1..];
      assert SplitDots("." + rest)[0] == "" && SplitDots("." + rest)[1..] == segs[1..];
      assert segs[0] + "" == segs[0];
      assert JoinDots(segs) == segs[0] + ("." + rest);
      assert segs == [segs[0]] + segs[1..];
    }
  }

  /** The name with the given segments. */
  function FromSegments(segs: seq<string>): Name
    requires |segs| > 0
  {
    if |segs| == 1 then Simple(segs[0]) else Qualified(FromSegments(segs[..|segs| - 1]), segs[|segs| - 1])
  }

  lemma {:induction false} FromSegmentsInverse(n: Name)
    ensures FromSegments(Segments(n)) == n
  {
    if n.Qualified? {
      FromSegmentsInverse(n.prefix);
      assert (Segments(n.prefix) + [n.id])[..|Segments(n)| - 1] == Segments(n.prefix);
    }
  }

  /** Reads a name back from its dotted form. */
  function ParseName(s: string): Name
  {
    FromSegments(SplitDots(s))
  }

  /** A name whose identifiers hold no dots is recovered from its dotted
      form. */
  lemma NameRoundTrip(n: Name)
    requires WellFormedName(n)
    ensures ParseName(NameToString(n)) == n
  {
    NameToStringJoins(n);
    SplitJoin(Segments(n));
    FromSegmentsInverse(n);
  }

  // ---------------------------------------------------------------------
  // Conversions to ambiguous nodes
  // ---------------------------------------------------------------------

  /** Prefix nodes all the way down. */
  function ToPrefix(n: Name): (r: Prefix)
    ensures r.name == n.id && (r.qual.Some? <==> n.Qualified?)
  {
    match n
    case Simple(id) => AmbPrefix(None, id)
    case Qualified(p, id) => AmbPrefix(Some(ToPrefix(p)), id)
  }

  /** Qualifier nodes all the way down. */
  function ToQualifier(n: Name): (r: QualifierNode)
    ensures r.name == n.id && (r.qual.Some? <==> n.Qualified?)
  {
    match n
    case Simple(id) => AmbQualifierNode(None, id)
    case Qualified(p, id) => AmbQualifierNode(Some(ToQualifier(p)), id)
  }

  /** A receiver over the prefix's prefix node. */
  function ToReceiver(n: Name): (r: Receiver)
    ensures r.name == n.id
    ensures n.Qualified? ==> r.prefix == Some(ToPrefix(n.prefix))
    ensures n.Simple? ==> r.prefix.None?
  {
    match n
    case Simple(id) => AmbReceiver(None, id)
    case Qualified(p, id) => AmbReceiver(Some(ToPrefix(p)), id)
  }

  /** An ambiguous expression, or a field access on the prefix's receiver. */
  function ToExpr(n: Name): (r: Expr)
    ensures r.name == n.id
    ensures r.AmbExpr? <==> n.Simple?
    ensures n.Qualified? ==> r.target == ToReceiver(n.prefix)
  {
    match n
    case Simple(id) => AmbExpr(id)
    case Qualified(p, id) => Field(ToReceiver(p), id)
  }

  /** An ambiguous type over the prefix's qualifier node. */
  function ToType(n: Name): (r: TypeNode)
    ensures r.name == n.id
    ensures n.Qualified? ==> r.qual == Some(ToQualifier(n.prefix))
    ensures n.Simple? ==> r.qual.None?
  {
    match n
    case Simple(id) => AmbTypeNode(None, id)
    case Qualified(p, id) => AmbTypeNode(Some(ToQualifier(p)), id)
  }

  /** A package named by the whole dotted form: every segment of the name,
      outermost first, joined with dots. */
  function ToPackage(n: Name): (r: PackageNode)
    ensures r.packageName == JoinDots(Segments(n))
    ensures n.Simple? ==> r.packageName == n.id
  {
    NameToStringJoins(n);
    PackageNode(NameToString(n))
  }

  function PrefixText(p: Prefix): string
  {
    match p.qual
    case None => p.name
    case Some(q) => PrefixText(q) + "." + p.name
  }

  function QualifierText(q: QualifierNode): string
  {
    match q.qual
    case None => q.name
    case Some(r) => QualifierText(r) + "." + q.name
  }

  function ReceiverText(r: Receiver): string
  {
    match r.prefix
    case None => r.name
    case Some(p) => PrefixText(p) + "." + r.name
  }

  function ExprText(e: Expr): string
  {
    match e
    case AmbExpr(name) => name
    case Field(t, name) => ReceiverText(t) + "." + name
  }

  function TypeText(t: TypeNode): string
  {
    match t.qual
    case None => t.name
    case Some(q) => QualifierText(q) + "." + t.name
  }

  /** Whatever node a name becomes, it spells the same dotted name. */
  lemma {:induction false} ConversionsSpellName(n: Name)
    ensures PrefixText(ToPrefix(n)) == NameToString(n)
    ensures QualifierText(ToQualifier(n)) == NameToString(n)
    ensures ReceiverText(ToReceiver(n)) == NameToString(n)
    ensures ExprText(ToExpr(n)) == NameToString(n)
    ensures TypeText(ToType(n)) == NameToString(n)
    ensures ToPackage(n).packageName == NameToString(n)
  {
    if n.Qualified? {
      ConversionsSpellName(n.prefix);
    }
  }

  /** Distinct well-formed names become distinct nodes. */
  lemma ConversionsInjective(n1: Name, n2: Name)
    requires WellFormedName(n1) && WellFormedName(n2) && n1 != n2
    ensures ToPrefix(n1) != ToPrefix(n2) && ToQualifier(n1) != ToQualifier(n2)
    ensures ToExpr(n1) != ToExpr(n2) && ToType(n1) != ToType(n2)
    ensures ToPackage(n1) != ToPackage(n2)
  {
    ConversionsSpellName(n1);
    ConversionsSpellName(n2);
    NameRoundTrip(n1);
    NameRoundTrip(n2);
  }
}
