/** Which symbols a bundle declares, and how they differ from a golden list. */
module SymbolExtractor {
  import opened Wrappers

  /** Syntax trees by the kinds the visitor tells apart, with the text of the names declared. */
  datatype Node =
    | Function(children: seq<Node>)
    | Container(children: seq<Node>)
    | VariableDeclaration(name: string)
    | NamedDeclaration(declared: Option<string>)
    | Other(children: seq<Node>)

  /** The text up to its last `$`, if it has one. */
  function StripSuffix(text: string): string {
    if '$' !in text then text
    else if text[|text| - 1] == '$' then text[..|text| - 1]
    else StripSuffix(text[..|text| - 1])
  }

  /** What is left out is the last `$` and what follows it. */
  lemma {:induction false} StripSuffixIs(text: string)
    ensures var r := StripSuffix(text);
            if '$' in text then |r| < |text| && text[|r|] == '$' && '$' !in text[|r| + 1..] && r == text[..|r|]
            else r == text
  {
    if '$' in text && text[|text| - 1] != '$' {
      var init := text[..|text| - 1];
      assert text == init + [text[|text| - 1]];
      StripSuffixIs(init);
      var r := StripSuffix(text);
      assert text[|r| + 1..] == init[|r| + 1..] + [text[|text| - 1]];
    }
  }

  function Found(node: Node, depth: nat): seq<string>
    decreases node, 0
  {
    match node
    case Function(children) => if depth == 0 then FoundIn(children, 1) else []
    case Container(children) => FoundIn(children, depth)
    case VariableDeclaration(name) => if depth != 0 then [StripSuffix(name)] else []
    case NamedDeclaration(name) => if name.Some? then [StripSuffix(name.value)] else []
    case Other(_) => []
  }

  function FoundIn(nodes: seq<Node>, depth: nat): seq<string>
    decreases nodes, 1
  {
    if nodes == [] then [] else FoundIn(nodes[..|nodes| - 1], depth) + Found(nodes[|nodes| - 1], depth)
  }

  class Visitor {
    var symbols: seq<string>
    var fnRecurseDepth: nat

    constructor ()
      ensures symbols == [] && fnRecurseDepth == 0
    {
      symbols, fnRecurseDepth := [], 0;
    }

    /** The counter is back where it was, and what the node declares at that depth is added. */
    method Visit(child: Node)
      modifies this
      ensures fnRecurseDepth == old(fnRecurseDepth)
      ensures symbols == old(symbols) + Found(child, fnRecurseDepth)
      decreases child, 0
    {
      match child
      case Function(children) =>
        fnRecurseDepth := fnRecurseDepth + 1;
        if fnRecurseDepth <= 1 {
          ForEachChild(children);
        }
        fnRecurseDepth := fnRecurseDepth - 1;
      case Container(children) => ForEachChild(children);
      case VariableDeclaration(name) =>
        if fnRecurseDepth != 0 { symbols := symbols + [StripSuffix(name)]; }
      case NamedDeclaration(name) =>
        if name.Some? { symbols := symbols + [StripSuffix(name.value)]; }
      case Other(_) =>
    }

    method ForEachChild(children: seq<Node>)
      modifies this
      ensures fnRecurseDepth == old(fnRecurseDepth)
      ensures symbols == old(symbols) + FoundIn(children, fnRecurseDepth)
      decreases children, 1
    {
      assert children[..0] == [];
      for i := 0 to |children|
        invariant fnRecurseDepth == old(fnRecurseDepth)
        invariant symbols == old(symbols) + FoundIn(children[..i], fnRecurseDepth)
      {
        assert children[..i + 1][..i] == children[..i];
        Visit(children[i]);
      }
      assert children[..|children|] == children;
    }
  }

  // ---------- Declarations by their place in the tree ----------

  /** The node at a path, if the visitor's way there leads through at most `left` functions. */
  function Reach(node: Node, path: seq<nat>, left: nat): Option<(Node, nat)>
    decreases path
  {
    if path == [] then Some((node, left))
    else match node
      case Function(children) =>
        if left > 0 && path[0] < |children| then Reach(children[path[0]], path[1..], left - 1) else None
      case Container(children) =>
        if path[0] < |children| then Reach(children[path[0]], path[1..], left) else None
      case _ => None
  }

  /** A named function or class, or a variable inside the one function on the way. */
  predicate Declares(at: (Node, nat), symbol: string) {
    || (at.0.VariableDeclaration? && StripSuffix(at.0.name) == symbol && at.1 == 0)
    || (at.0.NamedDeclaration? && at.0.declared.Some? && StripSuffix(at.0.declared.value) == symbol)
  }

  ghost predicate DeclaredAt(node: Node, left: nat, symbol: string, path: seq<nat>) {
    Reach(node, path, left).Some? && Declares(Reach(node, path, left).value, symbol)
  }

  /** The places that declare a symbol. */
  function Places(node: Node, left: nat, symbol: string): set<seq<nat>>
    decreases node, 0
  {
    match node
    case Function(children) => if left > 0 then PlacesIn(children, left - 1, symbol) else {}
    case Container(children) => PlacesIn(children, left, symbol)
    case _ => if Declares((node, left), symbol) then {[]} else {}
  }

  function PlacesIn(nodes: seq<Node>, left: nat, symbol: string): set<seq<nat>>
    decreases nodes, 1
  {
    if nodes == [] then {}
    else
      var n := |nodes| - 1;
      PlacesIn(nodes[..n], left, symbol) + Below(n, Places(nodes[n], left, symbol))
  }

  function Below(i: nat, paths: set<seq<nat>>): set<seq<nat>> {
    set path | path in paths :: [i] + path
  }

  lemma {:induction false} BelowCount(i: nat, paths: set<seq<nat>>)
    ensures |Below(i, paths)| == |paths|
  {
    if paths != {} {
      var path :| path in paths;
      BelowCount(i, paths - {path});
      assert Below(i, paths) == Below(i, paths - {path}) + {[i] + path};
      forall other | other in paths - {path} ensures [i] + other != [i] + path {
        assert ([i] + other)[1..] == other && ([i] + path)[1..] == path;
      }
    }
  }

  lemma BelowHas(i: nat, paths: set<seq<nat>>, path: seq<nat>)
    ensures path in Below(i, paths) <==> path != [] && path[0] == i && path[1..] in paths
  {
    if path != [] && path[0] == i && path[1..] in paths {
      assert path == [i] + path[1..];
    }
  }

  lemma {:induction false} PlacesAreDeclaring(node: Node, left: nat, symbol: string, path: seq<nat>)
    ensures path in Places(node, left, symbol) <==> DeclaredAt(node, left, symbol, path)
    decreases node, 0
  {
    match node
    case Function(children) => if left > 0 { PlacesInAreDeclaring(children, left - 1, symbol, path); }
    case Container(children) => PlacesInAreDeclaring(children, left, symbol, path);
    case _ =>
  }

  lemma {:induction false} PlacesInAreDeclaring(nodes: seq<Node>, left: nat, symbol: string, path: seq<nat>)
    ensures path in PlacesIn(nodes, left, symbol)
       <==> path != [] && path[0] < |nodes| && DeclaredAt(nodes[path[0]], left, symbol, path[1..])
    decreases nodes, 1
  {
    if nodes != [] {
      var n := |nodes| - 1;
      PlacesInAreDeclaring(nodes[..n], left, symbol, path);
      BelowHas(n, Places(nodes[n], left, symbol), path);
      if path != [] { PlacesAreDeclaring(nodes[n], left, symbol, path[1..]); }
    }
  }

  /**
   * A symbol is found as often as there are places that declare it, reached through blocks, calls
   * and the like and at most one function, and through exactly one for a variable.
   */
  lemma {:induction false} FoundIsDeclared(node: Node, left: nat, symbol: string)
    requires left <= 1
    ensures multiset(Found(node, 1 - left))[symbol] == |Places(node, left, symbol)|
    ensures forall path :: path in Places(node, left, symbol) <==> DeclaredAt(node, left, symbol, path)
    decreases node, 0
  {
    forall path ensures path in Places(node, left, symbol) <==> DeclaredAt(node, left, symbol, path) {
      PlacesAreDeclaring(node, left, symbol, path);
    }
    match node
    case Function(children) => if left == 1 { FoundInIsDeclared(children, 0, symbol); }
    case Container(children) => FoundInIsDeclared(children, left, symbol);
    case _ =>
  }

  lemma {:induction false} FoundInIsDeclared(nodes: seq<Node>, left: nat, symbol: string)
    requires left <= 1
    ensures multiset(FoundIn(nodes, 1 - left))[symbol] == |PlacesIn(nodes, left, symbol)|
    decreases nodes, 1
  {
    if nodes != [] {
      var n := |nodes| - 1;
      FoundInIsDeclared(nodes[..n], left, symbol);
      FoundIsDeclared(nodes[n], left, symbol);
      BelowCount(n, Places(nodes[n], left, symbol));
      forall path | path in PlacesIn(nodes[..n], left, symbol)
        ensures path !in Below(n, Places(nodes[n], left, symbol))
      {
        PlacesInAreDeclaring(nodes[..n], left, symbol, path);
        BelowHas(n, Places(nodes[n], left, symbol), path);
      }
    }
  }

  // ---------- Sorting ----------

  /** The order that `symbolSort` gives to names, by the first character that differs. */
  predicate AtMost(a: string, b: string) {
    a == "" || (b != "" && (a[0] < b[0] || (a[0] == b[0] && AtMost(a[1..], b[1..]))))
  }

  /** Nothing comes after a longer text that continues it, or one with a greater first difference. */
  lemma {:induction false} AtMostIs(a: string, b: string)
    ensures AtMost(a, b) <==>
              a <= b || exists i :: 0 <= i < |a| && i < |b| && a[..i] == b[..i] && (a[i] as int) < b[i] as int
  {
    if a != "" && b != "" && a[0] == b[0] {
      var s, t := a[1..], b[1..];
      AtMostIs(s, t);
      assert a == [a[0]] + s && b == [b[0]] + t;
      if i :| 0 <= i < |a| && i < |b| && a[..i] == b[..i] && (a[i] as int) < b[i] as int {
        assert i > 0 && s[..i - 1] == a[..i][1..] && t[..i - 1] == b[..i][1..];
      }
      if i :| 0 <= i < |s| && i < |t| && s[..i] == t[..i] && (s[i] as int) < t[i] as int {
        assert a[..i + 1] == [a[0]] + s[..i] && b[..i + 1] == [b[0]] + t[..i];
      }
    } else if a != "" && b != "" {
      assert a[..0] == b[..0];
      assert forall i :: 0 < i < |a| && i < |b| ==> a[..i][0] != b[..i][0];
    }
  }

  lemma {:induction false} AtMostTotal(a: string, b: string)
    ensures AtMost(a, b) || AtMost(b, a)
    ensures AtMost(a, b) && AtMost(b, a) ==> a == b
  {
    if a != "" && b != "" && a[0] == b[0] {
      AtMostTotal(a[1..], b[1..]);
      assert a == [a[0]] + a[1..] && b == [b[0]] + b[1..];
    }
  }

  lemma {:induction false} AtMostTransitive(a: string, b: string, c: string)
    requires AtMost(a, b) && AtMost(b, c)
    ensures AtMost(a, c)
  {
    if a != "" && a[0] == b[0] == c[0] {
      AtMostTransitive(a[1..], b[1..], c[1..]);
    }
  }

  ghost predicate Sorted(s: seq<string>) {
    forall i, j :: 0 <= i < j < |s| ==> AtMost(s[i], s[j])
  }

  ghost predicate IsSortOf(s: seq<string>, found: seq<string>) {
    Sorted(s) && multiset(s) == multiset(found)
  }

  lemma Rest(s: seq<string>)
    requires s != []
    ensures multiset(s) == multiset(s[1..]) + multiset{s[0]}
    ensures Sorted(s) ==> Sorted(s[1..])
  {
    assert s == [s[0]] + s[1..];
  }

  /** However the symbols are sorted, there is one result. */
  lemma {:induction false} SortIsUnique(s: seq<string>, t: seq<string>)
    requires Sorted(s) && Sorted(t) && multiset(s) == multiset(t)
    ensures s == t
    decreases |s|, 1
  {
    assert |multiset(s)| == |s| && |multiset(t)| == |t|;
    if s != [] {
      SameFirst(s, t);
      Rest(s);
      Rest(t);
      RestUnique(s, t);
      assert s == [s[0]] + s[1..] && t == [t[0]] + t[1..];
    }
  }

  lemma RestUnique(s: seq<string>, t: seq<string>)
    requires s != [] && t != [] && s[0] == t[0] && Sorted(s[1..]) && Sorted(t[1..])
    requires multiset(s[1..]) + multiset{s[0]} == multiset(t[1..]) + multiset{t[0]}
    ensures s[1..] == t[1..]
    decreases |s|, 0
  {
    assert multiset(s[1..]) == (multiset(s[1..]) + multiset{s[0]}) - multiset{s[0]};
    assert multiset(t[1..]) == (multiset(t[1..]) + multiset{t[0]}) - multiset{t[0]};
    SortIsUnique(s[1..], t[1..]);
  }

  lemma SameFirst(s: seq<string>, t: seq<string>)
    requires s != [] && t != [] && Sorted(s) && Sorted(t) && multiset(s) == multiset(t)
    ensures s[0] == t[0]
  {
    assert t[0] in multiset(t) && s[0] in multiset(s);
    FirstIsLeast(s, t[0]);
    FirstIsLeast(t, s[0]);
    AtMostTotal(s[0], t[0]);
  }

  lemma FirstIsLeast(s: seq<string>, x: string)
    requires Sorted(s) && s != [] && x in multiset(s)
    ensures AtMost(s[0], x)
  {
    var i :| 0 <= i < |s| && s[i] == x;
    if i == 0 { AtMostTotal(x, x); }
  }

  /** Sorting by insertion stands for the sort of the host. */
  function Insert(x: string, s: seq<string>): seq<string> {
    if s == [] || AtMost(x, s[0]) then [x] + s else [s[0]] + Insert(x, s[1..])
  }

  function Sort(s: seq<string>): seq<string> {
    if s == [] then [] else Insert(s[0], Sort(s[1..]))
  }

  lemma {:induction false} InsertIsSort(x: string, s: seq<string>)
    requires Sorted(s)
    ensures Sorted(Insert(x, s)) && multiset(Insert(x, s)) == multiset(s) + multiset{x}
  {
    if s == [] || AtMost(x, s[0]) {
      LeastFirst(x, s);
    } else {
      Rest(s);
      InsertIsSort(x, s[1..]);
      AtMostTotal(x, s[0]);
      forall y | y in Insert(x, s[1..]) ensures AtMost(s[0], y) {
        assert y in multiset(Insert(x, s[1..]));
        if y != x { FirstIsLeast(s, y); }
      }
      SortedCons(s[0], Insert(x, s[1..]));
    }
  }

  lemma LeastFirst(x: string, s: seq<string>)
    requires Sorted(s) && (s == [] || AtMost(x, s[0]))
    ensures Sorted([x] + s)
  {
    forall y | y in s ensures AtMost(x, y) {
      FirstIsLeast(s, y);
      AtMostTransitive(x, s[0], y);
    }
    SortedCons(x, s);
  }

  lemma SortedCons(x: string, s: seq<string>)
    requires Sorted(s) && forall y :: y in s ==> AtMost(x, y)
    ensures Sorted([x] + s)
  {
    forall i, j | 0 <= i < j < |s| + 1 ensures AtMost(([x] + s)[i], ([x] + s)[j]) {
      assert ([x] + s)[j] == s[j - 1];
      if i > 0 { assert AtMost(s[i - 1], s[j - 1]); }
    }
  }

  lemma {:induction false} SortIsSort(s: seq<string>)
    ensures IsSortOf(Sort(s), s)
  {
    if s != [] {
      SortIsSort(s[1..]);
      InsertIsSort(s[0], Sort(s[1..]));
      assert s == [s[0]] + s[1..];
    }
  }

  /** The symbols of a bundle: a sorted list, each symbol as often as places declare it. */
  method Parse(source: Node) returns (symbols: seq<string>)
    ensures Sorted(symbols)
    ensures forall symbol :: multiset(symbols)[symbol] == |Places(source, 1, symbol)|
    ensures forall s :: IsSortOf(s, Found(source, 0)) ==> s == symbols
  {
    var visitor := new Visitor();
    visitor.Visit(source);
    symbols := Sort(visitor.symbols);
    SortIsSort(visitor.symbols);
    forall symbol: string ensures multiset(symbols)[symbol] == |Places(source, 1, symbol)| {
      FoundIsDeclared(source, 1, symbol);
    }
    forall s | IsSortOf(s, Found(source, 0)) ensures s == symbols {
      SortIsUnique(s, symbols);
    }
  }
}
