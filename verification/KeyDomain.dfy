/** When two expressions share a key, exactly. */
module KeyDomain {
  import opened OutputAst
  import opened KeyFn
  import opened Wrappers

  // ---------- What a key forgets ----------

  /** The expression that a key stands for. */
  function Canon(e: Expr): Expr {
    match e
    case Lit(PNum(t)) => Lit(PNum(if t == "-0" then "0" else t))
    case Arr(es) => Arr(seq(|es|, i requires 0 <= i < |es| => Canon(es[i])))
    case Obj(fs) => Obj(seq(|fs|, i requires 0 <= i < |fs| => fs[i].(value := Canon(fs[i].value))))
    case External(m, n, _) => External(NullOr(OrNull(m)), NullOr(OrNull(n)), None)
    case Typeof(x) => Typeof(Canon(x))
    case _ => e
  }

  lemma {:induction false} CanonIsKeyable(e: Expr)
    requires Readable(e)
    ensures Keyable(e) && Canonical(Canon(e)) && Keyable(Canon(e))
  {
    match e
    case Arr(es) =>
      forall x | x in es ensures Keyable(x) && Canonical(Canon(x)) && Keyable(Canon(x)) { CanonIsKeyable(x); }
      var cs := Canon(e).entries;
      forall c | c in cs ensures Canonical(c) && Keyable(c) {
        var i :| 0 <= i < |cs| && cs[i] == c;
        assert es[i] in es;
      }
    case Obj(fs) =>
      forall f | f in fs ensures Keyable(f.value) && Canonical(Canon(f.value)) && Keyable(Canon(f.value)) {
        CanonIsKeyable(f.value);
      }
      var cs := Canon(e).fields;
      forall c | c in cs ensures FieldKeySafe(c) && Canonical(c.value) && Keyable(c.value) {
        var i :| 0 <= i < |cs| && cs[i] == c;
        assert fs[i] in fs;
      }
    case Typeof(x) => CanonIsKeyable(x);
    case _ =>
  }

  lemma {:induction false} CanonKey(e: Expr)
    requires Keyable(e) && Keyable(Canon(e))
    ensures Key(Canon(e)) == Key(e)
  {
    match e
    case Arr(es) =>
      var cs := Canon(e).entries;
      forall i | 0 <= i < |es| ensures Keyable(es[i]) && Keyable(cs[i]) && Key(cs[i]) == Key(es[i]) {
        assert es[i] in es && cs[i] in cs;
        CanonKey(es[i]);
      }
      SameItemKeys(es, cs);
    case Obj(fs) =>
      var cs := Canon(e).fields;
      forall i | 0 <= i < |fs|
        ensures Keyable(fs[i].value) && Keyable(cs[i].value)
        ensures FieldKey(cs[i]) == FieldKey(fs[i]) && Key(cs[i].value) == Key(fs[i].value)
      {
        assert fs[i] in fs && cs[i] in cs;
        CanonKey(fs[i].value);
      }
      SameFieldKeys(fs, cs);
    case Typeof(x) => CanonKey(x);
    case _ =>
  }

  lemma {:induction false} SameItemKeys(es: seq<Expr>, cs: seq<Expr>)
    requires |es| == |cs| && (forall x :: x in es ==> Keyable(x)) && (forall x :: x in cs ==> Keyable(x))
    requires forall i :: 0 <= i < |es| ==> Key(es[i]) == Key(cs[i])
    ensures ItemKeys(es) == ItemKeys(cs)
  {
    if |es| > 1 {
      forall i | 0 <= i < |es| - 1 ensures Key(es[1..][i]) == Key(cs[1..][i]) {
        assert Key(es[i + 1]) == Key(cs[i + 1]);
      }
      SameItemKeys(es[1..], cs[1..]);
    }
  }

  lemma {:induction false} SameFieldKeys(fs: seq<Entry>, cs: seq<Entry>)
    requires |fs| == |cs| && (forall f :: f in fs ==> Keyable(f.value)) && (forall f :: f in cs ==> Keyable(f.value))
    requires forall i :: 0 <= i < |fs| ==> FieldKey(fs[i]) == FieldKey(cs[i]) && Key(fs[i].value) == Key(cs[i].value)
    ensures FieldKeys(fs) == FieldKeys(cs)
  {
    if |fs| > 1 {
      forall i | 0 <= i < |fs| - 1
        ensures FieldKey(fs[1..][i]) == FieldKey(cs[1..][i]) && Key(fs[1..][i].value) == Key(cs[1..][i].value)
      {
        assert FieldKey(fs[i + 1]) == FieldKey(cs[i + 1]) && Key(fs[i + 1].value) == Key(cs[i + 1].value);
      }
      SameFieldKeys(fs[1..], cs[1..]);
    }
  }

  /** Reading a key back yields the expression it was made from, in its canonical spelling. */
  lemma {:induction false} KeyRoundTrip(e: Expr)
    requires Readable(e) && Keyable(e)
    ensures Decode(Key(e)) == Got(Canon(e), "")
  {
    CanonIsKeyable(e);
    CanonKey(e);
    CanonicalRoundTrip(Canon(e));
  }

  /** Two expressions share a key exactly when they agree in everything a key does not forget. */
  lemma SameKeyIffSameCanon(x: Expr, y: Expr)
    requires Readable(x) && Keyable(x) && Readable(y) && Keyable(y)
    ensures Key(x) == Key(y) <==> Canon(x) == Canon(y)
  {
    KeyRoundTrip(x);
    KeyRoundTrip(y);
    CanonIsKeyable(x);
    CanonIsKeyable(y);
    CanonKey(x);
    CanonKey(y);
  }

  // ---------- Strings that stand alone ----------

  /** A string literal that is not part of another literal. */
  predicate Whole(e: Expr) {
    e.Lit? && e.value.PStr?
  }

  /** Only the key of a whole string starts with a double quote. */
  lemma KeyStart(e: Expr)
    requires Keyable(e)
    ensures Key(e) != "" && (Key(e)[0] == '"' <==> Whole(e))
  {
    if e.Lit? && e.value.PNum? {
      NumTextIsPlain(e.value.text);
      assert PrimText(e.value)[0] in PrimText(e.value);
    }
  }

  /** Whatever a whole string holds, no other expression has its key. */
  lemma WholeKey(x: Expr, y: Expr)
    requires Whole(x) && Keyable(y)
    ensures Key(x) == Key(y) <==> x == y
  {
    KeyStart(y);
    if Whole(y) && Key(x) == Key(y) {
      var s, t := x.value.s, y.value.s;
      assert Key(x)[1..|Key(x)| - 1] == s && Key(y)[1..|Key(y)| - 1] == t;
    }
  }

  // ---------- The spellings that occur ----------

  /** The number texts, module names and import names that a family of expressions uses. */
  datatype Spellings = Spellings(
    numbers: iset<string>, modules: iset<Option<string>>, imports: iset<Option<string>>)

  ghost predicate Spelled(e: Expr, d: Spellings) {
    match e
    case Lit(PNum(t)) => t in d.numbers
    case Arr(es) => forall x :: x in es ==> Spelled(x, d)
    case Obj(fs) => forall f :: f in fs ==> Spelled(f.value, d)
    case External(m, n, _) => m in d.modules && n in d.imports
    case Typeof(x) => Spelled(x, d)
    case _ => true
  }

  /** The expression is a string that stands alone, or readable, and in the given spelling. */
  ghost predicate KeySafe(e: Expr, d: Spellings) {
    (Whole(e) || Readable(e)) && Spelled(e, d)
  }

  ghost predicate Both(names: iset<Option<string>>) {
    None in names && Some("null") in names
  }

  ghost predicate HasModule(d: Spellings) {
    exists m :: m in d.modules && StringSafe(OrNull(m))
  }

  ghost predicate HasImport(d: Spellings) {
    exists n :: n in d.imports && Plain(OrNull(n))
  }

  /**
   * Not both zeros occur, and, as far as there are imports at all, neither do a missing name and
   * one spelled "null", for modules or for imports.
   */
  ghost predicate Unmixed(d: Spellings) {
    && !("0" in d.numbers && "-0" in d.numbers)
    && !(Both(d.modules) && HasImport(d))
    && !(Both(d.imports) && HasModule(d))
  }

  /** On unmixed spellings only the run-time value of an import is lost. */
  lemma {:induction false} CanonInjective(x: Expr, y: Expr, d: Spellings)
    requires Readable(x) && Spelled(x, d) && Readable(y) && Spelled(y, d) && Unmixed(d) && Canon(x) == Canon(y)
    ensures Same(x, y)
  {
    hide StringSafe, Plain, FieldKeySafe;
    match x
    case Arr(es) =>
      assert |es| == |Canon(x).entries| == |y.entries|;
      forall i | 0 <= i < |es| ensures Erase(es[i]) == Erase(y.entries[i]) {
        assert es[i] in es && y.entries[i] in y.entries;
        assert Canon(x).entries[i] == Canon(y).entries[i];
        CanonInjective(es[i], y.entries[i], d);
      }
      assert Erase(x).entries == Erase(y).entries;
    case Obj(fs) =>
      assert |fs| == |Canon(x).fields| == |y.fields|;
      forall i | 0 <= i < |fs| ensures Erase(x).fields[i] == Erase(y).fields[i] {
        assert fs[i] in fs && y.fields[i] in y.fields;
        assert Canon(x).fields[i] == Canon(y).fields[i];
        CanonInjective(fs[i].value, y.fields[i].value, d);
      }
      assert Erase(x).fields == Erase(y).fields;
    case Typeof(a) => CanonInjective(a, y.expr, d);
    case External(_, _, _) =>
    case Lit(_) =>
    case _ =>
  }

  lemma {:induction false} SameCanon(x: Expr, y: Expr)
    requires Same(x, y)
    ensures Canon(x) == Canon(y)
  {
    match x
    case Arr(es) =>
      assert |es| == |Erase(x).entries| == |y.entries|;
      forall i | 0 <= i < |es| ensures Canon(es[i]) == Canon(y.entries[i]) {
        assert Erase(x).entries[i] == Erase(y).entries[i];
        SameCanon(es[i], y.entries[i]);
      }
      assert Canon(x).entries == Canon(y).entries;
    case Obj(fs) =>
      assert |fs| == |Erase(x).fields| == |y.fields|;
      forall i | 0 <= i < |fs| ensures Canon(x).fields[i] == Canon(y).fields[i] {
        assert Erase(x).fields[i] == Erase(y).fields[i];
        SameCanon(fs[i].value, y.fields[i].value);
      }
      assert Canon(x).fields == Canon(y).fields;
    case Typeof(a) => SameCanon(a, y.expr);
    case _ =>
  }

  /** On unmixed spellings equal keys mean equal expressions, but for run-time values. */
  lemma KeyInjective(x: Expr, y: Expr, d: Spellings)
    requires KeySafe(x, d) && Keyable(x) && KeySafe(y, d) && Keyable(y) && Unmixed(d)
    ensures Key(x) == Key(y) <==> Same(x, y)
  {
    if Whole(x) {
      WholeKey(x, y);
    } else if Whole(y) {
      WholeKey(y, x);
    } else {
      SameKeyIffSameCanon(x, y);
      if Key(x) == Key(y) {
        CanonInjective(x, y, d);
      } else if Same(x, y) {
        SameCanon(x, y);
      }
    }
  }

  lemma {:induction false} ErasedReadable(e: Expr)
    ensures Readable(Erase(e)) == Readable(e)
  {
    match e
    case Arr(es) =>
      var xs := Erase(e).entries;
      forall i | 0 <= i < |es|
        ensures es[i] in es && xs[i] in xs && Readable(xs[i]) == Readable(es[i])
      {
        ErasedReadable(es[i]);
      }
    case Obj(fs) =>
      var xs := Erase(e).fields;
      forall i | 0 <= i < |fs|
        ensures fs[i] in fs && xs[i] in xs && xs[i].key == fs[i].key && xs[i].quoted == fs[i].quoted
        ensures Readable(xs[i].value) == Readable(fs[i].value)
      {
        ErasedReadable(fs[i].value);
      }
    case Typeof(x) => ErasedReadable(x);
    case _ =>
  }

  lemma {:induction false} ErasedSpelled(e: Expr, d: Spellings)
    ensures Spelled(Erase(e), d) == Spelled(e, d)
  {
    match e
    case Arr(es) =>
      var xs := Erase(e).entries;
      forall i | 0 <= i < |es|
        ensures es[i] in es && xs[i] in xs && Spelled(xs[i], d) == Spelled(es[i], d)
      {
        ErasedSpelled(es[i], d);
      }
    case Obj(fs) =>
      var xs := Erase(e).fields;
      forall i | 0 <= i < |fs|
        ensures fs[i] in fs && xs[i] in xs && xs[i].key == fs[i].key && xs[i].quoted == fs[i].quoted
        ensures Spelled(xs[i].value, d) == Spelled(fs[i].value, d)
      {
        ErasedSpelled(fs[i].value, d);
      }
    case Typeof(x) => ErasedSpelled(x, d);
    case _ =>
  }

  lemma {:induction false} ErasedKeyable(e: Expr)
    ensures Keyable(Erase(e)) == Keyable(e) && IsConstant(Erase(e)) == IsConstant(e)
  {
    match e
    case Arr(es) =>
      var xs := Erase(e).entries;
      forall i | 0 <= i < |es|
        ensures es[i] in es && xs[i] in xs && Keyable(xs[i]) == Keyable(es[i]) && IsConstant(xs[i]) == IsConstant(es[i])
      {
        ErasedKeyable(es[i]);
      }
    case Obj(fs) =>
      var xs := Erase(e).fields;
      forall i | 0 <= i < |fs|
        ensures fs[i] in fs && xs[i] in xs && xs[i].key == fs[i].key && xs[i].quoted == fs[i].quoted
        ensures Keyable(xs[i].value) == Keyable(fs[i].value) && IsConstant(xs[i].value) == IsConstant(fs[i].value)
      {
        ErasedKeyable(fs[i].value);
      }
    case Typeof(x) => ErasedKeyable(x);
    case _ =>
  }

  lemma SameKeyable(x: Expr, y: Expr)
    requires Same(x, y)
    ensures Keyable(x) == Keyable(y) && IsConstant(x) == IsConstant(y)
  {
    ErasedKeyable(x);
    ErasedKeyable(y);
  }

  lemma {:induction false} SameSafe(x: Expr, y: Expr, d: Spellings)
    requires Same(x, y)
    ensures KeySafe(x, d) == KeySafe(y, d) && Keyable(x) == Keyable(y) && IsConstant(x) == IsConstant(y)
    ensures KeySafe(x, d) && Keyable(x) ==> Key(x) == Key(y)
  {
    SameKeyable(x, y);
    ErasedReadable(x);
    ErasedReadable(y);
    ErasedSpelled(x, d);
    ErasedSpelled(y, d);
    if KeySafe(x, d) && Keyable(x) && !Whole(x) {
      SameCanon(x, y);
      SameKeyIffSameCanon(x, y);
    }
  }

  // ---------- How far the domain reaches ----------

  predicate Written(t: string, a: set<char>) {
    forall c :: c in t ==> c in a
  }

  /** Every string literal and quoted key is written with characters of `a`; everything else is readable. */
  predicate Over(e: Expr, a: set<char>) {
    match e
    case Lit(PStr(s)) => Written(s, a)
    case Lit(_) => true
    case Arr(es) => forall x :: x in es ==> Over(x, a)
    case Obj(fs) =>
      forall f :: f in fs ==> (if f.quoted then Written(f.key, a) else Plain(f.key)) && Over(f.value, a)
    case Typeof(x) => Over(x, a)
    case _ => Readable(e)
  }

  /** The alphabet lacks the double quote, or both the comma and the colon, which end quoted texts. */
  predicate SafeAlphabet(a: set<char>) {
    '"' !in a || (',' !in a && ':' !in a)
  }

  lemma {:induction false} OverIsReadable(e: Expr, a: set<char>)
    requires Over(e, a) && SafeAlphabet(a)
    ensures Readable(e)
  {
    match e
    case Arr(es) =>
      forall x | x in es ensures Readable(x) { OverIsReadable(x, a); }
    case Obj(fs) =>
      forall f | f in fs ensures Readable(f.value) { OverIsReadable(f.value, a); }
    case Typeof(x) => OverIsReadable(x, a);
    case _ =>
  }

  /** A string that stands alone may hold any characters. */
  ghost predicate InFamily(e: Expr, a: set<char>, d: Spellings) {
    (Whole(e) || Over(e, a)) && Spelled(e, d) && Keyable(e)
  }

  lemma FamilyIsSafe(e: Expr, a: set<char>, d: Spellings)
    requires InFamily(e, a, d) && SafeAlphabet(a)
    ensures KeySafe(e, d)
  {
    if !Whole(e) { OverIsReadable(e, a); }
  }

  function Str(s: string): Expr { Lit(PStr(s)) }

  lemma Regroup(q: string, x: string, c: string, y: string)
    ensures (q + x + q) + c + (q + y + q) == q + (x + (q + c + q) + y) + q
  {
  }

  /** Two strings in an array share their key with one string, whatever the two strings are. */
  lemma QuoteCommaCollision(x: string, y: string)
    ensures Key(Arr([Str(x), Str(y)])) == Key(Arr([Str(x + "\",\"" + y)]))
    ensures !Same(Arr([Str(x), Str(y)]), Arr([Str(x + "\",\"" + y)]))
  {
    var z := x + "\",\"" + y;
    var two := [Str(x), Str(y)];
    assert two[1..] == [Str(y)];
    assert |Erase(Arr(two)).entries| == 2 && |Erase(Arr([Str(z)])).entries| == 1;
    assert ItemKeys(two) == Key(Str(x)) + "," + Key(Str(y));
    assert ItemKeys([Str(z)]) == Key(Str(z));
    assert "\"" + "," + "\"" == "\",\"";
    Regroup("\"", x, ",", y);
  }

  /** A field shares its key with one whose key, or value, has taken over a part of the other. */
  lemma QuoteColonCollision(k: string, m: string, v: string)
    ensures Key(Obj([Entry(k + "\":\"" + m, Str(v), true)])) == Key(Obj([Entry(k, Str(m + "\":\"" + v), true)]))
    ensures !Same(Obj([Entry(k + "\":\"" + m, Str(v), true)]), Obj([Entry(k, Str(m + "\":\"" + v), true)]))
  {
    var x, y := Entry(k + "\":\"" + m, Str(v), true), Entry(k, Str(m + "\":\"" + v), true);
    assert Erase(Obj([x])).fields[0].key == x.key && Erase(Obj([y])).fields[0].key == y.key && |x.key| > |y.key|;
    assert FieldKeys([x]) == FieldKey(x) + ":" + Key(x.value) && FieldKeys([y]) == FieldKey(y) + ":" + Key(y.value);
    assert "\"" + ":" + "\"" == "\":\"";
    RegroupField("\"", k, ":", m, v);
  }

  lemma RegroupField(q: string, k: string, c: string, m: string, v: string)
    ensures (q + (k + (q + c + q) + m) + q) + c + (q + v + q) == (q + k + q) + c + (q + (m + (q + c + q) + v) + q)
  {
  }

  /** Two strings and one, two fields cut differently, the two zeros, or two imports of different names. */
  predicate Colliding(x: Expr, y: Expr) {
    || (x == Obj([Entry("\":\"", Str(""), true)]) && y == Obj([Entry("", Str("\":\""), true)]))
    || (x == Arr([Str(""), Str("")]) && y == Arr([Str("\",\"")]))
    || (x == Lit(PNum("0")) && y == Lit(PNum("-0")))
    || (x.External? && y.External? && (x.moduleName, x.name) != (y.moduleName, y.name))
  }

  lemma AlphabetCollision(a: set<char>, d: Spellings) returns (x: Expr, y: Expr)
    requires !SafeAlphabet(a)
    ensures InFamily(x, a, d) && InFamily(y, a, d) && Key(x) == Key(y)
    ensures Colliding(x, y) && !Same(x, y)
  {
    if ',' in a {
      x, y := Arr([Str(""), Str("")]), Arr([Str("\",\"")]);
      QuoteCommaCollision("", "");
      assert "" + "\",\"" + "" == "\",\"";
    } else {
      x, y := Obj([Entry("\":\"", Str(""), true)]), Obj([Entry("", Str("\":\""), true)]);
      QuoteColonCollision("", "", "");
      assert "" + "\":\"" + "" == "\":\"";
    }
  }

  lemma SpellingCollision(a: set<char>, d: Spellings) returns (x: Expr, y: Expr)
    requires !Unmixed(d)
    ensures InFamily(x, a, d) && InFamily(y, a, d) && Key(x) == Key(y)
    ensures Colliding(x, y) && !Same(x, y)
  {
    if "0" in d.numbers && "-0" in d.numbers {
      x, y := Lit(PNum("0")), Lit(PNum("-0"));
    } else if Both(d.modules) && HasImport(d) {
      var n :| n in d.imports && Plain(OrNull(n));
      x, y := External(None, n, None), External(Some("null"), n, None);
    } else {
      var m :| m in d.modules && StringSafe(OrNull(m));
      x, y := External(m, None, None), External(m, Some("null"), None);
    }
  }

  /** Why a family is ambiguous: two different members with the same key. */
  lemma MixedCollision(a: set<char>, d: Spellings) returns (x: Expr, y: Expr)
    requires !SafeAlphabet(a) || !Unmixed(d)
    ensures InFamily(x, a, d) && InFamily(y, a, d) && Key(x) == Key(y)
    ensures Colliding(x, y) && !Same(x, y)
  {
    hide InFamily, Key, Colliding, Same, Unmixed, SafeAlphabet;
    if !SafeAlphabet(a) {
      x, y := AlphabetCollision(a, d);
    } else {
      x, y := SpellingCollision(a, d);
    }
  }

  /**
   * With the strings inside other expressions and the quoted keys over an alphabet, and given
   * spellings, keys identify expressions, but for run-time values of imports, exactly when the
   * alphabet lacks the double quote, or both the comma and the colon, and the spellings are unmixed.
   */
  lemma InjectiveIffAlphabetSafe(a: set<char>, d: Spellings)
    ensures (forall x, y :: InFamily(x, a, d) && InFamily(y, a, d) && Key(x) == Key(y) ==> Same(x, y))
       <==> SafeAlphabet(a) && Unmixed(d)
  {
    if SafeAlphabet(a) && Unmixed(d) {
      forall x, y | InFamily(x, a, d) && InFamily(y, a, d) && Key(x) == Key(y) ensures Same(x, y) {
        FamilyIsSafe(x, a, d);
        FamilyIsSafe(y, a, d);
        KeyInjective(x, y, d);
      }
    } else {
      var x, y := MixedCollision(a, d);
    }
  }

  /** The run-time value of an import never tells two expressions apart. */
  lemma RuntimeCollision(m: Option<string>, n: Option<string>, r: Option<nat>, r': Option<nat>)
    ensures Key(External(m, n, r)) == Key(External(m, n, r'))
    ensures r != r' ==> External(m, n, r) != External(m, n, r')
  {
  }
}
