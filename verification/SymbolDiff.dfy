/** The difference between two lists of symbols, counted in a dictionary of the host language. */
module SymbolDiff {

  /** Names that every object inherits, by section 20.1.3 of ECMA-262, but for `__proto__`. */
  const INHERITED: set<string> := {
    "constructor", "hasOwnProperty", "isPrototypeOf", "propertyIsEnumerable", "toLocaleString", "toString", "valueOf",
    "__defineGetter__", "__defineSetter__", "__lookupGetter__", "__lookupSetter__"}

  /** The name whose assignment sets the prototype, and is ignored for anything but an object. */
  const PROTO: string := "__proto__"

  /**
   * What a lookup can give: nothing, a number, the text of an inherited value followed by some
   * ones, no number, or an inherited value, which is a function or object. Texts are never empty
   * and never spell a number.
   */
  datatype Value = Undefined | Num(n: int) | Text(ones: nat) | NotANumber | Inherited

  type Dictionary = map<string, Value>

  function Get(diff: Dictionary, name: string): Value {
    if name in diff then diff[name]
    else if name in INHERITED || name == PROTO then Inherited
    else Undefined
  }

  function Set(diff: Dictionary, name: string, v: Value): Dictionary {
    if name == PROTO then diff else diff[name := v]
  }

  /** `v || 0` */
  function OrZero(v: Value): Value {
    if v == Undefined || v == NotANumber then Num(0) else v
  }

  /** `v + 1`, which appends to a text and turns an inherited value into one. */
  function Plus1(v: Value): Value {
    match v
    case Num(n) => Num(n + 1)
    case Text(ones) => Text(ones + 1)
    case Inherited => Text(1)
    case _ => NotANumber
  }

  /** `v - 1`, which is a number for a number only. */
  function Minus1(v: Value): Value {
    if v.Num? then Num(v.n - 1) else NotANumber
  }

  function CountExpected(diff: Dictionary, name: string): Dictionary {
    Set(diff, name, Plus1(OrZero(Get(diff, name))))
  }

  function CountActual(diff: Dictionary, name: string): Dictionary {
    if Get(diff, name) == Num(1) then diff - {name} else Set(diff, name, Minus1(OrZero(Get(diff, name))))
  }

  // ---------- What is counted ----------

  /** The entry of a name that is expected `e` times and found `a` times; `Undefined` for none. */
  function Count(name: string, e: nat, a: nat): Value {
    if name == PROTO then Undefined
    else if name !in INHERITED then if e == a then Undefined else Num(e - a)
    else if a == 0 then if e == 0 then Undefined else Text(e)
    else if a == 1 then NotANumber
    else Num(1 - a)
  }

  ghost predicate HasCounts(diff: Dictionary, actual: seq<string>, expected: seq<string>) {
    && PROTO !in diff
    && forall name: string :: HasCount(diff, actual, expected, name)
  }

  predicate HasCount(diff: Dictionary, actual: seq<string>, expected: seq<string>, name: string) {
    var c := Count(name, multiset(expected)[name], multiset(actual)[name]);
    if c == Undefined then name !in diff else name in diff && diff[name] == c
  }

  lemma ExpectedCounted(diff: Dictionary, expected: seq<string>, x: string)
    requires HasCounts(diff, [], expected)
    ensures HasCounts(CountExpected(diff, x), [], expected + [x])
  {
    forall name: string ensures HasCount(CountExpected(diff, x), [], expected + [x], name) {
      assert HasCount(diff, [], expected, name);
    }
  }

  lemma ActualCounted(diff: Dictionary, actual: seq<string>, expected: seq<string>, x: string)
    requires HasCounts(diff, actual, expected)
    ensures HasCounts(CountActual(diff, x), actual + [x], expected)
  {
    forall name: string ensures HasCount(CountActual(diff, x), actual + [x], expected, name) {
      assert HasCount(diff, actual, expected, name);
    }
  }

  /**
   * For a name of its own the result has the difference of the counts, and no entry if they
   * agree. An inherited name has an entry as soon as it occurs, and `__proto__` never has.
   */
  method Diff(actual: seq<string>, expected: seq<string>) returns (diff: Dictionary)
    ensures HasCounts(diff, actual, expected)
  {
    diff := map[];
    for i := 0 to |expected|
      invariant HasCounts(diff, [], expected[..i])
    {
      var symbolName := expected[i];
      ExpectedCounted(diff, expected[..i], symbolName);
      assert expected[..i + 1] == expected[..i] + [symbolName];
      diff := Set(diff, symbolName, Plus1(OrZero(Get(diff, symbolName))));
    }
    assert expected[..|expected|] == expected;
    for i := 0 to |actual|
      invariant HasCounts(diff, actual[..i], expected)
    {
      var name := actual[i];
      ActualCounted(diff, actual[..i], expected, name);
      assert actual[..i + 1] == actual[..i] + [name];
      if Get(diff, name) == Num(1) {
        diff := diff - {name};
      } else {
        diff := Set(diff, name, Minus1(OrZero(Get(diff, name))));
      }
    }
    assert actual[..|actual|] == actual;
  }

  // ---------- When the check passes ----------

  /** Both lists hold the same symbols equally often, `__proto__` aside. */
  ghost predicate SameCounts(actual: seq<string>, expected: seq<string>) {
    multiset(actual)[PROTO := 0] == multiset(expected)[PROTO := 0]
  }

  predicate HasInherited(symbols: seq<string>) {
    exists name :: name in symbols && name in INHERITED
  }

  /**
   * The result is empty exactly when the lists agree, `__proto__` aside, and neither holds an
   * inherited name.
   */
  lemma EmptyIff(diff: Dictionary, actual: seq<string>, expected: seq<string>)
    requires HasCounts(diff, actual, expected)
    ensures diff == map[] <==> SameCounts(actual, expected) && !HasInherited(actual) && !HasInherited(expected)
  {
    if diff == map[] {
      forall name: string ensures name != PROTO ==> multiset(actual)[name] == multiset(expected)[name]
        ensures name in INHERITED ==> name !in actual && name !in expected
      {
        assert HasCount(diff, actual, expected, name);
      }
    } else {
      var name :| name in diff;
      assert HasCount(diff, actual, expected, name);
      if SameCounts(actual, expected) {
        assert multiset(actual)[PROTO := 0][name] == multiset(expected)[PROTO := 0][name];
        assert name in INHERITED;
        assert name in multiset(actual) || name in multiset(expected);
      }
    }
  }

  /** Whether the symbols match the golden list. */
  method CompareAndPrintError(actual: seq<string>, expected: seq<string>) returns (passed: bool)
    ensures passed <==> SameCounts(actual, expected) && !HasInherited(actual) && !HasInherited(expected)
  {
    var diff := Diff(actual, expected);
    EmptyIff(diff, actual, expected);
    passed := diff == map[];
  }

  /** A bundle that declares `toString` never matches, not even a golden list that says so. */
  lemma InheritedNeverMatches(diff: Dictionary)
    requires HasCounts(diff, ["toString"], ["toString"])
    ensures diff == map["toString" := NotANumber]
  {
    var one := multiset(["toString"]);
    assert one == multiset{"toString"};
    forall name: string ensures name in diff <==> name == "toString" {
      assert HasCount(diff, ["toString"], ["toString"], name);
      assert one[name] == if name == "toString" then 1 else 0;
    }
    assert HasCount(diff, ["toString"], ["toString"], "toString");
    assert diff.Keys == {"toString"};
  }

  /** A missing `__proto__` goes unnoticed. */
  lemma ProtoGoesUnnoticed(diff: Dictionary)
    requires HasCounts(diff, [], [PROTO])
    ensures diff == map[]
  {
    EmptyIff(diff, [], [PROTO]);
    assert multiset([PROTO])[PROTO := 0] == multiset{};
  }
}
