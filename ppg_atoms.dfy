/** Atoms of the parser-generator's grammar files: symbol lists declaring
    terminals or nonterminals, precedence declarations, and nonterminal
    symbols compared by name. */
module GrammarAtoms {
  import opened Wrappers

  // ---------------------------------------------------------------------
  // Grammar symbols
  // ---------------------------------------------------------------------

  /** A grammar symbol: a name and an optional label. */
  datatype GrammarSymbol =
    | Nonterminal(name: string, tag: Option<string>)
    | Terminal(name: string, tag: Option<string>)

  /** The objects a nonterminal can be compared with. */
  datatype Value = SymbolValue(sym: GrammarSymbol) | StringValue(s: string) | OtherValue

  /** The one-argument constructor: a nonterminal without a label. */
  function NewNonterminal(name: string): (r: GrammarSymbol)
    ensures r.Nonterminal? && r.name == name && r.tag.None?
  {
    Nonterminal(name, None)
  }

  /** A nonterminal equals another nonterminal, or a string, with the same
      name; labels do not matter, and nothing else is equal to it. */
  predicate NonterminalEquals(n: GrammarSymbol, o: Value)
    requires n.Nonterminal?
  {
    match o
    case SymbolValue(s) => s.Nonterminal? && s.name == n.name
    case StringValue(str) => str == n.name
    case OtherValue => false
  }

  /** A copy of a symbol: a nonterminal keeps its name and label. */
  function CloneSymbol(s: GrammarSymbol): (r: GrammarSymbol)
    ensures r.name == s.name && r.tag == s.tag && (r.Nonterminal? <==> s.Nonterminal?)
  {
    match s
    case Nonterminal(name, tag) => Nonterminal(name, tag)
    case Terminal(name, tag) => Terminal(name, tag)
  }

  /** Equality of nonterminals is decided by the name alone, and it is an
      equivalence. */
  lemma NonterminalEqualsByName(a: GrammarSymbol, b: GrammarSymbol, c: GrammarSymbol)
    requires a.Nonterminal? && b.Nonterminal? && c.Nonterminal?
    ensures NonterminalEquals(a, SymbolValue(b)) <==> a.name == b.name
    ensures NonterminalEquals(a, SymbolValue(a))
    ensures NonterminalEquals(a, SymbolValue(b)) ==> NonterminalEquals(b, SymbolValue(a))
    ensures NonterminalEquals(a, SymbolValue(b)) && NonterminalEquals(b, SymbolValue(c)) ==> NonterminalEquals(a, SymbolValue(c))
    ensures NonterminalEquals(a, SymbolValue(Nonterminal(a.name, None)))
  {
  }

  /** A nonterminal equals the string of its name and no other string,
      and it never equals a terminal or any other object. */
  lemma NonterminalEqualsOther(n: GrammarSymbol, s: string, t: GrammarSymbol)
    requires n.Nonterminal? && t.Terminal?
    ensures NonterminalEquals(n, StringValue(s)) <==> s == n.name
    ensures !NonterminalEquals(n, SymbolValue(t)) && !NonterminalEquals(n, OtherValue)
  {
  }

  /** A clone equals its original. */
  lemma CloneEqualsOriginal(n: GrammarSymbol)
    requires n.Nonterminal?
    ensures CloneSymbol(n).Nonterminal? && NonterminalEquals(n, SymbolValue(CloneSymbol(n)))
    ensures NonterminalEquals(CloneSymbol(n), SymbolValue(n))
  {
  }

  // ---------------------------------------------------------------------
  // Joining
  // ---------------------------------------------------------------------

  /** The items with the separator between consecutive ones. */
  function Join(items: seq<string>, sep: string): string
  {
    if |items| == 0 then "" else if |items| == 1 then items[0] else items[0] + sep + Join(items[1..], sep)
  }

  /** Appending an item adds the separator and the item at the end. */
  lemma {:induction false} JoinSnoc(items: seq<string>, x: string, sep: string)
    requires |items| > 0
    ensures Join(items + [x], sep) == Join(items, sep) + sep + x
    decreases |items|
  {
    if |items| > 1 {
      assert (items + [x])[1..] == items[1..] + [x];
      JoinSnoc(items[1..], x, sep);
    } else {
      assert (items + [x])[1..] == [x];
    }
  }

  /** Joining a list of two or more items puts the separator after the
      first item and the last item at the end. */
  lemma {:induction false} JoinEnds(items: seq<string>, sep: string)
    requires |items| >= 2
    ensures Join(items, sep) == items[0] + sep + Join(items[1..], sep)
    ensures Join(items, sep) == Join(items[..|items| - 1], sep) + sep + items[|items| - 1]
  {
    JoinSnoc(items[..|items| - 1], items[|items| - 1], sep);
    assert items[..|items| - 1] + [items[|items| - 1]] == items;
  }

  /** The first i items joined, followed by a separator when more items
      come after them: what a loop that appends item after item and a
      separator after every item but the last has produced after i steps. */
  function JoinedPrefix(items: seq<string>, i: nat, sep: string): string
    requires i <= |items|
  {
    Join(items[..i], sep) + (if 0 < i < |items| then sep else "")
  }

  /** One more step appends the item and, unless it is the last, a
      separator; after the last step the whole list is joined. */
  lemma JoinStep(items: seq<string>, i: nat, sep: string)
    requires i < |items|
    ensures JoinedPrefix(items, i + 1, sep)
      == JoinedPrefix(items, i, sep) + items[i] + (if i < |items| - 1 then sep else "")
    ensures i + 1 == |items| ==> JoinedPrefix(items, i + 1, sep) == Join(items, sep)
  {
    if i > 0 {
      JoinSnoc(items[..i], items[i], sep);
      assert items[..i] + [items[i]] == items[..i + 1];
    } else {
      assert items[..1] == [items[0]];
    }
    assert items[..|items|] == items;
  }

  /** The items separated by commas, appended one at a time with a comma
      after every item but the last. */
  method JoinWithCommas(items: seq<string>) returns (body: string)
    ensures body == Join(items, ", ")
  {
    body := "";
    var size := |items|;
    var i := 0;
    while i < size
      invariant 0 <= i <= size
      invariant body == JoinedPrefix(items, i, ", ")
      invariant i == size ==> body == Join(items, ", ")
    {
      JoinStep(items, i, ", ");
      body := body + items[i];
      if i < size - 1 {
        body := body + ", ";
      }
      i := i + 1;
    }
  }

  // ---------------------------------------------------------------------
  // Symbol lists
  // ---------------------------------------------------------------------

  const TERMINAL: int := 0
  const NONTERMINAL: int := 1

  /** The index of the first occurrence of x in s. */
  function FirstIndex(s: seq<string>, x: string): (i: nat)
    requires x in s
    ensures i < |s| && s[i] == x && x !in s[..i]
    ensures forall j :: 0 <= j < |s| && s[j] == x ==> i <= j
  {
    if s[0] == x then 0
    else
      var k := FirstIndex(s[1..], x);
      assert s[..k + 1] == [s[0]] + s[1..][..k];
      k + 1
  }

  /** s without the first occurrence of x. */
  function RemoveFirst(s: seq<string>, x: string): seq<string>
    requires x in s
  {
    s[..FirstIndex(s, x)] + s[FirstIndex(s, x) + 1..]
  }

  /** Removing the first occurrence shortens the list by one and keeps the
      rest in order: the elements before the occurrence, none of them x,
      stay put and those after it move down one place. */
  lemma RemoveFirstMeaning(s: seq<string>, x: string)
    requires x in s
    ensures |RemoveFirst(s, x)| == |s| - 1
    ensures forall k :: 0 <= k < FirstIndex(s, x) ==> RemoveFirst(s, x)[k] == s[k] && s[k] != x
    ensures forall k :: FirstIndex(s, x) <= k < |s| - 1 ==> RemoveFirst(s, x)[k] == s[k + 1]
  {
    var i := FirstIndex(s, x);
    assert RemoveFirst(s, x) == s[..i] + s[i + 1..];
  }

  /** Removing the first occurrence takes exactly one copy of x out of the
      list's contents. */
  lemma RemoveFirstCount(s: seq<string>, x: string)
    requires x in s
    ensures multiset(RemoveFirst(s, x)) == multiset(s) - multiset{x}
  {
    var i := FirstIndex(s, x);
    assert s == s[..i] + ([s[i]] + s[i + 1..]);
    assert multiset(s) == multiset(s[..i]) + (multiset{x} + multiset(s[i + 1..]));
  }

  /** The rendered list of declared symbols: empty when there are none,
      otherwise the kind keyword, the type and a space when present, the
      symbols separated by commas, and a semicolon. */
  function RenderSymbolList(variety: int, symType: Option<string>, symbols: seq<string>): string
  {
    if |symbols| == 0 then ""
    else
      (if variety == TERMINAL then "terminal " else if variety == NONTERMINAL then "non terminal " else "")
      + (if symType.Some? then symType.value + " " else "")
      + Join(symbols, ", ") + ";"
  }

  class SymbolList {
    var variety: int
    var symType: Option<string>
    var symbols: seq<string>

    constructor(which: int, symType: Option<string>, syms: seq<string>)
      ensures variety == which && this.symType == symType && symbols == syms
    {
      variety := which;
      this.symType := symType;
      symbols := syms;
    }

    /** Removes the first occurrence of gs, reporting whether there was one. */
    method DropSymbol(gs: string) returns (found: bool)
      modifies this
      ensures found <==> gs in old(symbols)
      ensures found ==> symbols == RemoveFirst(old(symbols), gs)
      ensures !found ==> symbols == old(symbols)
      ensures variety == old(variety) && symType == old(symType)
    {
      var i := 0;
      while i < |symbols|
        invariant 0 <= i <= |symbols|
        invariant symbols == old(symbols)
        invariant forall k :: 0 <= k < i ==> symbols[k] != gs
      {
        if gs == symbols[i] {
          assert FirstIndex(symbols, gs) == i;
          symbols := symbols[..i] + symbols[i + 1..];
          return true;
        }
        i := i + 1;
      }
      return false;
    }

    /** A copy with the same variety, type and symbols, in new storage. */
    method Clone() returns (c: SymbolList)
      ensures fresh(c)
      ensures c.variety == variety && c.symType == symType && c.symbols == symbols
    {
      var newSyms: seq<string> := [];
      var i := 0;
      while i < |symbols|
        invariant 0 <= i <= |symbols|
        invariant newSyms == symbols[..i]
      {
        newSyms := newSyms + [symbols[i]];
        i := i + 1;
      }
      assert symbols[..i] == symbols;
      c := new SymbolList(variety, symType, newSyms);
    }

    /** The declaration as it appears in a grammar file. */
    method ToString() returns (result: string)
      ensures result == RenderSymbolList(variety, symType, symbols)
    {
      result := "";
      if |symbols| > 0 {
        if variety == TERMINAL {
          result := "terminal ";
        } else if variety == NONTERMINAL {
          result := "non terminal ";
        }
        if symType.Some? {
          result := result + symType.value + " ";
        }
        var body := JoinWithCommas(symbols);
        result := result + body + ";";
      }
    }
  }

  /** The rendering of a symbol list with symbols starts with its kind
      keyword and ends with a semicolon; with no symbols it is empty. */
  lemma SymbolListShape(variety: int, symType: Option<string>, symbols: seq<string>)
    ensures |symbols| == 0 ==> RenderSymbolList(variety, symType, symbols) == ""
    ensures |symbols| > 0 ==>
      var r := RenderSymbolList(variety, symType, symbols);
      |r| > 0 && r[|r| - 1] == ';'
      && (variety == TERMINAL ==> r[..9] == "terminal ")
      && (variety == NONTERMINAL ==> r[..13] == "non terminal ")
  {
  }

  // ---------------------------------------------------------------------
  // Precedence declarations
  // ---------------------------------------------------------------------

  const LEFT: int := 0
  const RIGHT: int := 1
  const NONASSOC: int := 2

  function AssocWord(assoc: int): string
  {
    if assoc == LEFT then "left " else if assoc == RIGHT then "right " else if assoc == NONASSOC then "nonassoc " else ""
  }

  /** The symbols rendered one by one. */
  function Shown(show: GrammarSymbol -> string, symbols: seq<GrammarSymbol>): (r: seq<string>)
    ensures |r| == |symbols| && forall i :: 0 <= i < |r| ==> r[i] == show(symbols[i])
  {
    seq(|symbols|, i requires 0 <= i < |symbols| => show(symbols[i]))
  }

  /** A precedence declaration: the keyword, the associativity, the
      symbols separated by commas and a closing semicolon, which is there
      even with no symbols. */
  function RenderPrecedence(assoc: int, show: GrammarSymbol -> string, symbols: seq<GrammarSymbol>): string
  {
    "precedence " + AssocWord(assoc) + Join(Shown(show, symbols), ", ") + ";"
  }

  class Precedence {
    var assoc: int
    var symbols: seq<GrammarSymbol>

    constructor(assoc: int, syms: seq<GrammarSymbol>)
      ensures this.assoc == assoc && symbols == syms
    {
      this.assoc := assoc;
      symbols := syms;
    }

    /** A copy with the same associativity and a clone of every symbol, in
        order. */
    method Clone() returns (c: Precedence)
      ensures fresh(c)
      ensures c.assoc == assoc && |c.symbols| == |symbols|
      ensures forall i :: 0 <= i < |symbols| ==> c.symbols[i] == CloneSymbol(symbols[i])
    {
      var newSyms: seq<GrammarSymbol> := [];
      var i := 0;
      while i < |symbols|
        invariant 0 <= i <= |symbols|
        invariant |newSyms| == i
        invariant forall k :: 0 <= k < i ==> newSyms[k] == CloneSymbol(symbols[k])
      {
        newSyms := newSyms + [CloneSymbol(symbols[i])];
        i := i + 1;
      }
      c := new Precedence(assoc, newSyms);
    }

    /** The declaration as it appears in a grammar file, each symbol shown
        by show. */
    method ToString(show: GrammarSymbol -> string) returns (result: string)
      ensures result == RenderPrecedence(assoc, show, symbols)
    {
      result := "precedence ";
      if assoc == LEFT {
        result := result + "left ";
      } else if assoc == RIGHT {
        result := result + "right ";
      } else if assoc == NONASSOC {
        result := result + "nonassoc ";
      }
      ghost var texts := Shown(show, symbols);
      var body := "";
      var i := 0;
      while i < |symbols|
        invariant 0 <= i <= |symbols|
        invariant body == JoinedPrefix(texts, i, ", ")
        invariant i == |symbols| ==> body == Join(texts, ", ")
      {
        JoinStep(texts, i, ", ");
        body := body + show(symbols[i]);
        if i < |symbols| - 1 {
          body := body + ", ";
        }
        i := i + 1;
      }
      result := result + body + ";";
    }
  }

  /** A precedence declaration always starts with its keyword and ends with
      a semicolon; with no symbols it is the keyword, the associativity and
      the semicolon. */
  lemma PrecedenceShape(assoc: int, show: GrammarSymbol -> string, symbols: seq<GrammarSymbol>)
    ensures var r := RenderPrecedence(assoc, show, symbols);
      r[..11] == "precedence " && r[|r| - 1] == ';'
    ensures |symbols| == 0 ==> RenderPrecedence(assoc, show, symbols) == "precedence " + AssocWord(assoc) + ";"
  {
  }
}
