/**
 * The structural key of an expression, and a decoder that shows the key grammar is unambiguous.
 */
module KeyFn {
  import opened OutputAst
  import opened Wrappers

  /** The expression kinds `keyOf` handles, at every depth; on all others it throws. */
  predicate Keyable(e: Expr) {
    match e
    case Lit(_) => true
    case Arr(es) => forall x :: x in es ==> Keyable(x)
    case Obj(fs) => forall f :: f in fs ==> Keyable(f.value)
    case External(_, _, _) => true
    case ReadVar(_) => true
    case Typeof(x) => Keyable(x)
    case _ => false
  }

  function PrimText(p: Prim): string {
    match p
    case PUndefined => "undefined"
    case PNull => "null"
    case PBool(b) => if b then "true" else "false"
    case PNum(t) => if t == "-0" then "0" else t
    case PStr(s) => "\"" + s + "\""
  }

  function OrNull(t: Option<string>): string {
    match t
    case None => "null"
    case Some(s) => s
  }

  function FieldKey(f: Entry): string {
    if f.quoted then "\"" + f.key + "\"" else f.key
  }

  function Key(e: Expr): string
    requires Keyable(e)
    decreases e, 1
  {
    match e
    case Lit(p) => PrimText(p)
    case Arr(es) => "[" + ItemKeys(es) + "]"
    case Obj(fs) => "{" + FieldKeys(fs) + "}"
    case External(m, n, _) => "import(\"" + OrNull(m) + "\", " + OrNull(n) + ")"
    case ReadVar(n) => "read(" + n + ")"
    case Typeof(x) => "typeof(" + Key(x) + ")"
  }

  /** The keys of array entries, joined with commas. */
  function ItemKeys(es: seq<Expr>): string
    requires forall x :: x in es ==> Keyable(x)
    decreases es, 0
  {
    if |es| == 0 then ""
    else if |es| == 1 then Key(es[0])
    else Key(es[0]) + "," + ItemKeys(es[1..])
  }

  /** The keys of object fields, joined with commas. */
  function FieldKeys(fs: seq<Entry>): string
    requires forall f :: f in fs ==> Keyable(f.value)
    decreases fs, 0
  {
    if |fs| == 0 then ""
    else if |fs| == 1 then FieldKey(fs[0]) + ":" + Key(fs[0].value)
    else FieldKey(fs[0]) + ":" + Key(fs[0].value) + "," + FieldKeys(fs[1..])
  }

  // ---------- The domain on which keys identify expressions ----------

  const DELIMS: set<char> := {'"', ',', ':', '(', ')', '[', ']', '{', '}'}

  predicate Plain(t: string) {
    forall c :: c in t ==> c !in DELIMS
  }

  /** The text between quotes does not hold both a double quote and the character that ends such texts. */
  predicate TextSafe(t: string, stop: char) {
    '"' !in t || stop !in t
  }

  /** A quoted key is followed by a colon. */
  predicate FieldKeySafe(f: Entry) {
    if f.quoted then TextSafe(f.key, ':') else Plain(f.key)
  }

  /** Strings and module names are followed by a comma, if not by the end of the key. */
  predicate StringSafe(t: string) {
    TextSafe(t, ',')
  }

  /**
   * No string or module name holds both a double quote and a comma, and no quoted key both a
   * double quote and a colon; variable names, import names and unquoted keys hold no delimiter of
   * the key grammar.
   */
  predicate Readable(e: Expr) {
    match e
    case Lit(PStr(s)) => StringSafe(s)
    case Lit(_) => true
    case Arr(es) => forall x :: x in es ==> Readable(x)
    case Obj(fs) => forall f :: f in fs ==> FieldKeySafe(f) && Readable(f.value)
    case External(m, n, _) => StringSafe(OrNull(m)) && Plain(OrNull(n))
    case ReadVar(n) => Plain(n)
    case Typeof(x) => Readable(x)
    case _ => false
  }

  /** The spelling a key stands for: no negative zero, no import called "null", no run-time value. */
  predicate Canonical(e: Expr) {
    match e
    case Lit(PStr(s)) => StringSafe(s)
    case Lit(PNum(t)) => t != "-0"
    case Lit(_) => true
    case Arr(es) => forall x :: x in es ==> Canonical(x)
    case Obj(fs) => forall f :: f in fs ==> FieldKeySafe(f) && Canonical(f.value)
    case External(m, n, r) =>
      m != Some("null") && n != Some("null") && r == None && StringSafe(OrNull(m)) && Plain(OrNull(n))
    case ReadVar(n) => Plain(n)
    case Typeof(x) => Canonical(x)
    case _ => false
  }

  // ---------- The decoder ----------

  datatype Parse<+T> = Fail | Got(val: T, rest: string)

  /** Splits `s` before its first character in `stop`. */
  function Span(s: string, stop: set<char>): (r: (string, string))
    ensures s == r.0 + r.1
  {
    if s == "" || s[0] in stop then ("", s)
    else var t := Span(s[1..], stop); ([s[0]] + t.0, t.1)
  }

  function Expect(p: string, s: string): (r: Parse<()>)
    ensures r.Got? ==> s == p + r.rest
  {
    if p <= s then Got((), s[|p|..]) else Fail
  }

  function DecodePrim(t: string): Option<Prim> {
    if t == "undefined" then Some(PUndefined)
    else if t == "null" then Some(PNull)
    else if t == "true" then Some(PBool(true))
    else if t == "false" then Some(PBool(false))
    else if IsNumText(t) then Some(PNum(t))
    else None
  }

  function NullOr(t: string): Option<string> {
    if t == "null" then None else Some(t)
  }

  /** The imported name, after the module name `m` was read. */
  function DecodeImportName(m: string, s: string): (r: Parse<Expr>)
    ensures r.Got? ==> |r.rest| < |s|
  {
    var (n, s1) := Span(s, DELIMS);
    match Expect(")", s1) case Fail => Fail case Got(_, s2) => Got(External(NullOr(m), NullOr(n), None), s2)
  }

  /** Splits `u` around its last double quote. */
  function LastQuote(u: string): (r: (string, string))
    requires '"' in u
    ensures u == r.0 + "\"" + r.1
  {
    var k := |u| - 1;
    if u[k] == '"' then (u[..k], "")
    else var t := LastQuote(u[..k]); (t.0, t.1 + [u[k]])
  }

  /**
   * After its opening quote, a text ends at the last double quote before the next `stop`, or, when
   * there is none, at the first one after it.
   */
  function CloseQuote(s: string, stop: char): (r: Parse<string>)
    ensures r.Got? ==> |r.rest| < |s|
  {
    var (u, v) := Span(s, {stop});
    if '"' in u then
      var (x, y) := LastQuote(u); Got(x, y + v)
    else
      var (t, s1) := Span(s, {'"'});
      match Expect("\"", s1) case Fail => Fail case Got(_, s2) => Got(t, s2)
  }

  function CloseString(s: string): (r: Parse<Expr>)
    ensures r.Got? ==> |r.rest| < |s|
  {
    match CloseQuote(s, ',') case Fail => Fail case Got(t, s1) => Got(Lit(PStr(t)), s1)
  }

  function DecodeImport(s: string): (r: Parse<Expr>)
    ensures r.Got? ==> |r.rest| < |s|
  {
    if s == "" || s[0] != '"' then Fail
    else match CloseQuote(s[1..], ',')
      case Fail => Fail
      case Got(m, s1) => match Expect(", ", s1) case Fail => Fail case Got(_, s2) => DecodeImportName(m, s2)
  }

  function DecodeRead(s: string): (r: Parse<Expr>)
    ensures r.Got? ==> |r.rest| < |s|
  {
    var (n, s1) := Span(s, DELIMS);
    match Expect(")", s1) case Fail => Fail case Got(_, s2) => Got(ReadVar(n), s2)
  }

  function DecodeAtom(a: string, s: string): (r: Parse<Expr>)
    ensures r.Got? ==> r.rest == s && a != ""
  {
    if a == "" then Fail
    else match DecodePrim(a) case None => Fail case Some(p) => Got(Lit(p), s)
  }

  function Decode(s: string): (r: Parse<Expr>)
    ensures r.Got? ==> |r.rest| < |s|
    decreases |s|, 0
  {
    if s == "" then Fail
    else if s[0] == '"' then CloseString(s[1..])
    else if s[0] == '[' then
      (match DecodeItems(s[1..]) case Fail => Fail case Got(es, s1) => Got(Arr(es), s1))
    else if s[0] == '{' then
      (match DecodeFields(s[1..]) case Fail => Fail case Got(fs, s1) => Got(Obj(fs), s1))
    else
      var (a, s1) := Span(s, DELIMS);
      if s1 == "" || s1[0] != '(' then DecodeAtom(a, s1)
      else if a == "read" then DecodeRead(s1[1..])
      else if a == "import" then DecodeImport(s1[1..])
      else if a == "typeof" then
        (match Decode(s1[1..])
         case Fail => Fail
         case Got(x, s2) =>
           match Expect(")", s2) case Fail => Fail case Got(_, s3) => Got(Typeof(x), s3))
      else Fail
  }

  /** Array items up to and including the closing bracket. */
  function DecodeItems(s: string): (r: Parse<seq<Expr>>)
    ensures r.Got? ==> |r.rest| < |s|
    decreases |s|, 1
  {
    if s != "" && s[0] == ']' then Got([], s[1..])
    else match Decode(s)
      case Fail => Fail
      case Got(x, s1) =>
        if s1 != "" && s1[0] == ',' then
          (match DecodeItems(s1[1..]) case Fail => Fail case Got(xs, s2) => Got([x] + xs, s2))
        else (match Expect("]", s1) case Fail => Fail case Got(_, s2) => Got([x], s2))
  }

  function DecodeFieldKey(s: string): (r: Parse<(string, bool)>)
    ensures r.Got? ==> |r.rest| < |s|
  {
    match Expect("\"", s)
    case Got(_, s1) =>
      (match CloseQuote(s1, ':')
       case Fail => Fail
       case Got(k, s2) => match Expect(":", s2) case Fail => Fail case Got(_, s3) => Got((k, true), s3))
    case Fail =>
      var (k, s1) := Span(s, DELIMS);
      match Expect(":", s1) case Fail => Fail case Got(_, s2) => Got((k, false), s2)
  }

  /** Object fields up to and including the closing brace. */
  function DecodeFields(s: string): (r: Parse<seq<Entry>>)
    ensures r.Got? ==> |r.rest| < |s|
    decreases |s|, 1
  {
    if s != "" && s[0] == '}' then Got([], s[1..])
    else match DecodeFieldKey(s)
      case Fail => Fail
      case Got((k, quoted), s0) =>
        match Decode(s0)
        case Fail => Fail
        case Got(x, s1) =>
          var f := Entry(k, x, quoted);
          if s1 != "" && s1[0] == ',' then
            (match DecodeFields(s1[1..]) case Fail => Fail case Got(fs, s2) => Got([f] + fs, s2))
          else (match Expect("}", s1) case Fail => Fail case Got(_, s2) => Got([f], s2))
  }

  // ---------- Round trip ----------

  lemma {:induction false} SpanStops(t: string, rest: string, stop: set<char>)
    requires forall c :: c in t ==> c !in stop
    requires rest == "" || rest[0] in stop
    ensures Span(t + rest, stop) == (t, rest)
  {
    if t == "" {
      assert t + rest == rest;
    } else {
      assert (t + rest)[1..] == t[1..] + rest;
      SpanStops(t[1..], rest, stop);
      assert (t + rest)[0] == t[0] && t == [t[0]] + t[1..];
    }
  }

  /** What may follow a key inside a larger key: closing delimiters, then a comma or the end. */
  predicate Follows(rest: string) {
    rest == "" || rest[0] == ',' || (rest[0] in {')', ']', '}'} && Follows(rest[1..]))
  }

  lemma FollowsAfter(closing: string, rest: string)
    requires Follows(rest) && closing in {")", "]", "}"}
    ensures Follows(closing + rest)
  {
    assert (closing + rest)[1..] == rest;
  }

  lemma {:induction false} FollowsHasNoQuote(rest: string)
    requires Follows(rest)
    ensures '"' !in Span(rest, {','}).0
  {
    if rest != "" && rest[0] != ',' {
      FollowsHasNoQuote(rest[1..]);
    }
  }

  lemma {:induction false} LastQuoteSplits(x: string, y: string)
    requires '"' !in y
    ensures LastQuote(x + "\"" + y) == (x, y)
  {
    var u := x + "\"" + y;
    if y == "" {
      assert u[..|u| - 1] == x;
    } else {
      var y' := y[..|y| - 1];
      assert u[..|u| - 1] == x + "\"" + y' && u[|u| - 1] == y[|y| - 1];
      LastQuoteSplits(x, y');
      assert y == y' + [y[|y| - 1]];
    }
  }

  lemma {:induction false} SpanSkips(t: string, rest: string, stop: set<char>)
    requires forall c :: c in t ==> c !in stop
    ensures Span(t + rest, stop) == (t + Span(rest, stop).0, Span(rest, stop).1)
  {
    if t == "" {
      assert t + rest == rest && t + Span(rest, stop).0 == Span(rest, stop).0;
    } else {
      assert (t + rest)[1..] == t[1..] + rest && (t + rest)[0] == t[0];
      SpanSkips(t[1..], rest, stop);
      assert [t[0]] + (t[1..] + Span(rest, stop).0) == t + Span(rest, stop).0;
    }
  }

  lemma {:induction false} SpanIsPrefix(t: string, rest: string, c: char)
    requires c in t
    ensures Span(t + rest, {c}).0 == Span(t, {c}).0
  {
    if t[0] != c {
      assert (t + rest)[1..] == t[1..] + rest;
      SpanIsPrefix(t[1..], rest, c);
    }
  }

  lemma TextWithStop(t: string, rest: string, stop: char)
    requires '"' !in t && stop in t
    ensures CloseQuote(t + ("\"" + rest), stop) == Got(t, rest)
  {
    SpanIsPrefix(t, "\"" + rest, stop);
    var u := Span(t, {stop}).0;
    assert t == u + Span(t, {stop}).1;
    assert '"' !in u;
    SpanStops(t, "\"" + rest, {'"'});
    assert ("\"" + rest)[1..] == rest;
  }

  lemma TextWithoutStop(t: string, rest: string, stop: char)
    requires stop !in t && stop != '"' && '"' !in Span(rest, {stop}).0
    ensures CloseQuote(t + ("\"" + rest), stop) == Got(t, rest)
  {
    var (y, v) := Span(rest, {stop});
    LastQuoteSplits(t, y);
    Assoc(t, "\"", rest);
    SpanSkips(t + "\"", rest, {stop});
    assert (t + "\"" + y)[|t|] == '"';
  }

  /** A safe text is read back, if no quote comes before the next `stop` after it. */
  lemma TextRoundTrip(t: string, rest: string, stop: char)
    requires TextSafe(t, stop) && stop != '"' && '"' !in Span(rest, {stop}).0
    ensures CloseQuote(t + ("\"" + rest), stop) == Got(t, rest)
  {
    if stop in t { TextWithStop(t, rest, stop); } else { TextWithoutStop(t, rest, stop); }
  }

  lemma StringRoundTrip(t: string, rest: string)
    requires StringSafe(t) && Follows(rest)
    ensures CloseString(t + ("\"" + rest)) == Got(Lit(PStr(t)), rest)
  {
    FollowsHasNoQuote(rest);
    TextRoundTrip(t, rest, ',');
  }

  lemma Assoc(a: string, b: string, c: string)
    ensures (a + b) + c == a + (b + c)
  {
  }

  lemma NumTextIsPlain(t: NumText)
    ensures Plain(t) && t != "" && t !in {"undefined", "null", "true", "false"}
  {
    if t !in {"NaN", "Infinity", "-Infinity"} {
      assert t[0] in t;
      NotAWord(t);
    }
  }

  lemma NotAWord(t: string)
    requires t != "" && ('0' <= t[0] <= '9' || t[0] in {'.', 'e', '+', '-'})
    ensures t !in {"undefined", "null", "true", "false"}
  {
  }

  /** `Key(e)` written in front of `rest`, so that no step has to regroup a concatenation. */
  ghost function Onto(e: Expr, rest: string): string
    requires Keyable(e)
    decreases e, 1
  {
    match e
    case Lit(PStr(s)) => "\"" + (s + ("\"" + rest))
    case Lit(p) => PrimText(p) + rest
    case Arr(es) => "[" + ItemsOnto(es, "]" + rest)
    case Obj(fs) => "{" + FieldsOnto(fs, "}" + rest)
    case External(m, n, _) => "import" + ("(" + ("\"" + (OrNull(m) + ("\", " + (OrNull(n) + (")" + rest))))))
    case ReadVar(n) => "read" + ("(" + (n + (")" + rest)))
    case Typeof(x) => "typeof" + ("(" + Onto(x, ")" + rest))
  }

  ghost function ItemsOnto(es: seq<Expr>, rest: string): string
    requires forall x :: x in es ==> Keyable(x)
    decreases es, 0
  {
    if |es| == 0 then rest
    else if |es| == 1 then Onto(es[0], rest)
    else Onto(es[0], "," + ItemsOnto(es[1..], rest))
  }

  ghost function FieldOnto(f: Entry, rest: string): string {
    if f.quoted then "\"" + (f.key + ("\":" + rest)) else f.key + (":" + rest)
  }

  ghost function FieldsOnto(fs: seq<Entry>, rest: string): string
    requires forall f :: f in fs ==> Keyable(f.value)
    decreases fs, 0
  {
    if |fs| == 0 then rest
    else if |fs| == 1 then FieldOnto(fs[0], Onto(fs[0].value, rest))
    else FieldOnto(fs[0], Onto(fs[0].value, "," + FieldsOnto(fs[1..], rest)))
  }

  lemma {:induction false} KeyOnto(e: Expr, rest: string)
    requires Keyable(e)
    ensures Key(e) + rest == Onto(e, rest)
    decreases e, 1
  {
    match e
    case Lit(PStr(s)) =>
    case Lit(_) =>
    case Arr(es) =>
      ItemKeysOnto(es, "]" + rest);
      Assoc("[" + ItemKeys(es), "]", rest);
      Assoc("[", ItemKeys(es), "]" + rest);
    case Obj(fs) =>
      FieldKeysOnto(fs, "}" + rest);
      Assoc("{" + FieldKeys(fs), "}", rest);
      Assoc("{", FieldKeys(fs), "}" + rest);
    case External(m, n, _) =>
      assert Key(e) + rest == Onto(e, rest);
    case ReadVar(n) =>
      assert Key(e) + rest == Onto(e, rest);
    case Typeof(x) =>
      KeyOnto(x, ")" + rest);
      Assoc("typeof(" + Key(x), ")", rest);
      Assoc("typeof(", Key(x), ")" + rest);
      Assoc("typeof", "(", Key(x) + (")" + rest));
      assert "typeof(" == "typeof" + "(";
  }

  lemma {:induction false} ItemKeysOnto(es: seq<Expr>, rest: string)
    requires forall x :: x in es ==> Keyable(x)
    ensures ItemKeys(es) + rest == ItemsOnto(es, rest)
    decreases es, 0
  {
    if |es| == 0 {
      assert "" + rest == rest;
    } else if |es| == 1 {
      KeyOnto(es[0], rest);
    } else {
      ItemKeysOnto(es[1..], rest);
      KeyOnto(es[0], "," + (ItemKeys(es[1..]) + rest));
      Assoc(Key(es[0]) + ",", ItemKeys(es[1..]), rest);
      Assoc(Key(es[0]), ",", ItemKeys(es[1..]) + rest);
    }
  }

  lemma FieldKeyOnto(f: Entry, rest: string)
    ensures FieldKey(f) + (":" + rest) == FieldOnto(f, rest)
  {
    if f.quoted {
      assert ("\"" + f.key + "\"") + (":" + rest) == "\"" + (f.key + ("\":" + rest));
    }
  }

  lemma {:induction false} FieldKeysOnto(fs: seq<Entry>, rest: string)
    requires forall f :: f in fs ==> Keyable(f.value)
    ensures FieldKeys(fs) + rest == FieldsOnto(fs, rest)
    decreases fs, 0
  {
    if |fs| == 0 {
      assert "" + rest == rest;
    } else {
      var k, v := FieldKey(fs[0]), Key(fs[0].value);
      if |fs| == 1 {
        KeyOnto(fs[0].value, rest);
        FieldKeyOnto(fs[0], v + rest);
        Assoc(k + ":", v, rest);
        Assoc(k, ":", v + rest);
      } else {
        var mk := FieldKeys(fs[1..]);
        FieldKeysOnto(fs[1..], rest);
        KeyOnto(fs[0].value, "," + (mk + rest));
        FieldKeyOnto(fs[0], v + ("," + (mk + rest)));
        Assoc(k + ":" + v + ",", mk, rest);
        Assoc(k + ":" + v, ",", mk + rest);
        Assoc(k + ":", v, "," + (mk + rest));
        Assoc(k, ":", v + ("," + (mk + rest)));
      }
    }
  }

  lemma AtomRoundTrip(p: Prim)
    requires !p.PStr? && (p.PNum? ==> p.text != "-0")
    ensures Plain(PrimText(p)) && PrimText(p) != "" && DecodePrim(PrimText(p)) == Some(p)
  {
    if p.PNum? { NumTextIsPlain(p.text); }
  }

  lemma ImportNameRoundTrip(m: string, n: string, rest: string)
    requires Plain(n)
    ensures DecodeImportName(m, n + (")" + rest)) == Got(External(NullOr(m), NullOr(n), None), rest)
  {
    SpanStops(n, ")" + rest, DELIMS);
    assert (")" + rest)[1..] == rest;
  }

  lemma ImportRoundTrip(m: string, s: string)
    requires StringSafe(m)
    ensures DecodeImport("\"" + (m + ("\", " + s))) == DecodeImportName(m, s)
  {
    hide CloseQuote, DecodeImportName;
    var rest := ", " + s;
    assert "\", " + s == "\"" + rest;
    assert ("\"" + (m + ("\"" + rest)))[1..] == m + ("\"" + rest);
    TextRoundTrip(m, rest, ',');
    assert ", " <= rest && rest[2..] == s;
  }

  lemma FieldKeyRoundTrip(f: Entry, rest: string)
    requires FieldKeySafe(f)
    ensures DecodeFieldKey(FieldOnto(f, rest)) == Got((f.key, f.quoted), rest)
    ensures FieldOnto(f, rest)[0] != '}'
  {
    var s1 := ":" + rest;
    assert s1[1..] == rest;
    if f.quoted {
      hide CloseQuote;
      assert "\":" + rest == "\"" + s1;
      assert FieldOnto(f, rest)[1..] == f.key + ("\"" + s1);
      TextRoundTrip(f.key, s1, ':');
    } else {
      SpanStops(f.key, s1, DELIMS);
      assert (f.key + s1)[0] == if f.key == "" then ':' else f.key[0];
    }
  }

  lemma DecodeLit(p: Prim, rest: string)
    requires Canonical(Lit(p)) && Follows(rest)
    ensures Decode(Onto(Lit(p), rest)) == Got(Lit(p), rest)
  {
    if p.PStr? {
      StringRoundTrip(p.s, rest);
      assert ("\"" + (p.s + ("\"" + rest)))[1..] == p.s + ("\"" + rest);
    } else {
      AtomRoundTrip(p);
      SpanStops(PrimText(p), rest, DELIMS);
    }
  }

  /** A word followed by an opening parenthesis is split off as one atom. */
  lemma WordThenParen(w: string, s: string)
    requires Plain(w) && w != ""
    ensures Span(w + ("(" + s), DELIMS) == (w, "(" + s) && ("(" + s)[1..] == s
    ensures (w + ("(" + s))[0] !in DELIMS
  {
    SpanStops(w, "(" + s, DELIMS);
  }

  lemma DecodeReadCall(n: string, rest: string)
    requires Plain(n)
    ensures Decode("read" + ("(" + (n + (")" + rest)))) == Got(ReadVar(n), rest)
  {
    WordThenParen("read", n + (")" + rest));
    SpanStops(n, ")" + rest, DELIMS);
    assert (")" + rest)[1..] == rest;
  }

  lemma ImportCall(s: string)
    ensures Decode("import" + ("(" + s)) == DecodeImport(s)
  {
    hide DecodeItems, DecodeFields, CloseString, DecodeAtom, DecodeRead, DecodeImport;
    WordThenParen("import", s);
  }

  lemma DecodeImportCall(m: Option<string>, n: Option<string>, rest: string)
    requires Canonical(External(m, n, None))
    ensures Decode(Onto(External(m, n, None), rest)) == Got(External(m, n, None), rest)
  {
    hide Decode, DecodeImport, DecodeImportName;
    ImportCall("\"" + (OrNull(m) + ("\", " + (OrNull(n) + (")" + rest)))));
    ImportRoundTrip(OrNull(m), OrNull(n) + (")" + rest));
    ImportNameRoundTrip(OrNull(m), OrNull(n), rest);
  }

  lemma DecodeTypeofCall(x: Expr, s: string, rest: string)
    requires Decode(s) == Got(x, ")" + rest)
    ensures Decode("typeof" + ("(" + s)) == Got(Typeof(x), rest)
  {
    hide DecodeItems, DecodeFields, CloseString, DecodeAtom, DecodeRead, DecodeImport;
    WordThenParen("typeof", s);
    assert (")" + rest)[1..] == rest;
  }

  lemma DecodeBracket(es: seq<Expr>, s: string, rest: string)
    requires DecodeItems(s) == Got(es, rest)
    ensures Decode("[" + s) == Got(Arr(es), rest)
  {
    assert ("[" + s)[1..] == s;
  }

  lemma DecodeBrace(fs: seq<Entry>, s: string, rest: string)
    requires DecodeFields(s) == Got(fs, rest)
    ensures Decode("{" + s) == Got(Obj(fs), rest)
  {
    assert ("{" + s)[1..] == s;
  }

  lemma {:induction false} DecodeOnto(e: Expr, rest: string)
    requires Canonical(e) && Keyable(e) && Follows(rest)
    ensures Decode(Onto(e, rest)) == Got(e, rest)
    decreases e, 1
  {
    match e
    case Lit(p) => DecodeLit(p, rest);
    case External(m, n, _) => DecodeImportCall(m, n, rest);
    case ReadVar(n) => DecodeReadCall(n, rest);
    case Typeof(x) =>
      FollowsAfter(")", rest);
      DecodeOnto(x, ")" + rest);
      DecodeTypeofCall(x, Onto(x, ")" + rest), rest);
    case Arr(es) =>
      DecodeItemsOnto(es, rest);
      DecodeBracket(es, ItemsOnto(es, "]" + rest), rest);
    case Obj(fs) =>
      DecodeFieldsOnto(fs, rest);
      DecodeBrace(fs, FieldsOnto(fs, "}" + rest), rest);
  }

  /** No key is empty or starts with a character that closes or separates. */
  lemma OntoStart(e: Expr, rest: string)
    requires Canonical(e) && Keyable(e)
    ensures Onto(e, rest) != "" && Onto(e, rest)[0] !in {']', '}', ',', ')', ':'}
  {
    if e.Lit? && !e.value.PStr? {
      AtomRoundTrip(e.value);
    }
  }

  /** One item `x`, read from `s`, with what follows it. */
  lemma DecodeItem(s: string, x: Expr, more: seq<Expr>, next: string, rest: string)
    requires s != "" && s[0] != ']'
    requires
      || (Decode(s) == Got(x, "," + next) && DecodeItems(next) == Got(more, rest))
      || (Decode(s) == Got(x, "]" + rest) && more == [])
    ensures DecodeItems(s) == Got([x] + more, rest)
  {
    assert ("," + next)[1..] == next;
    assert ("]" + rest)[1..] == rest;
    assert [x] + [] == [x];
  }

  lemma {:induction false} DecodeItemsOnto(es: seq<Expr>, rest: string)
    requires forall x :: x in es ==> Canonical(x) && Keyable(x)
    requires Follows(rest)
    ensures DecodeItems(ItemsOnto(es, "]" + rest)) == Got(es, rest)
    decreases es, 0
  {
    hide Decode, Onto, Canonical, Keyable;
    if es == [] {
      assert ("]" + rest)[1..] == rest;
    } else {
      var next := ItemsOnto(es[1..], "]" + rest);
      var tail := if |es| == 1 then "]" + rest else "," + next;
      FollowsAfter("]", rest);
      OntoStart(es[0], tail);
      DecodeOnto(es[0], tail);
      DecodeItemsOnto(es[1..], rest);
      DecodeItem(Onto(es[0], tail), es[0], es[1..], next, rest);
      assert es == [es[0]] + es[1..];
    }
  }

  lemma DecodeField(s: string, f: Entry, more: seq<Entry>, next: string, rest: string)
    requires FieldKeySafe(f)
    requires
      || (Decode(s) == Got(f.value, "," + next) && DecodeFields(next) == Got(more, rest))
      || (Decode(s) == Got(f.value, "}" + rest) && more == [])
    ensures DecodeFields(FieldOnto(f, s)) == Got([f] + more, rest)
  {
    FieldKeyRoundTrip(f, s);
    assert Entry(f.key, f.value, f.quoted) == f;
    assert ("," + next)[1..] == next;
    assert ("}" + rest)[1..] == rest;
    assert [f] + [] == [f];
  }

  lemma {:induction false} DecodeFieldsOnto(fs: seq<Entry>, rest: string)
    requires forall f :: f in fs ==> FieldKeySafe(f) && Canonical(f.value) && Keyable(f.value)
    requires Follows(rest)
    ensures DecodeFields(FieldsOnto(fs, "}" + rest)) == Got(fs, rest)
    decreases fs, 0
  {
    if fs == [] {
      assert ("}" + rest)[1..] == rest;
    } else {
      var f, more := fs[0], fs[1..];
      assert fs == [f] + more && f in fs;
      var next := FieldsOnto(more, "}" + rest);
      var tail := if |fs| == 1 then "}" + rest else "," + next;
      FollowsAfter("}", rest);
      DecodeOnto(f.value, tail);
      DecodeFieldsOnto(more, rest);
      DecodeField(Onto(f.value, tail), f, more, next, rest);
      assert FieldsOnto(fs, "}" + rest) == FieldOnto(f, Onto(f.value, tail));
    }
  }

  /** Reading the key of a canonical expression back yields the expression. */
  lemma CanonicalRoundTrip(e: Expr)
    requires Canonical(e) && Keyable(e)
    ensures Decode(Key(e)) == Got(e, "")
  {
    KeyOnto(e, "");
    DecodeOnto(e, "");
    assert Key(e) + "" == Key(e);
  }
}
