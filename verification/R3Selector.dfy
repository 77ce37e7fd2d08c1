/** The flat encoding of CSS selectors for the runtime, and what can be read back from it. */
module R3Selector {
  import opened Wrappers

  datatype CssSelector = CssSelector(
    element: Option<string>, classNames: seq<string>, attrs: seq<string>, notSelectors: seq<CssSelector>)

  /** The flags are distinct bits, so that their bitwise or is their sum. */
  const NOT: nat := 1
  const ATTRIBUTE: nat := 2
  const ELEMENT: nat := 4
  const CLASS: nat := 8

  datatype Item = Text(s: string) | Flag(f: nat)

  function Texts(ss: seq<string>): (r: seq<Item>)
    ensures |r| == |ss|
  {
    if ss == [] then [] else [Text(ss[0])] + Texts(ss[1..])
  }

  function Classes(s: CssSelector): seq<Item> {
    if s.classNames != [] then [Flag(CLASS)] + Texts(s.classNames) else []
  }

  function ParserSelectorToSimpleSelector(s: CssSelector): seq<Item> {
    var elementName := if s.element.Some? && s.element.value != "" && s.element.value != "*"
                       then s.element.value else "";
    [Text(elementName)] + (Texts(s.attrs) + Classes(s))
  }

  function ParserSelectorToNegativeSelector(s: CssSelector): seq<Item> {
    if s.element.Some? && s.element.value != "" then
      [Flag(NOT + ELEMENT), Text(s.element.value)] + (Texts(s.attrs) + Classes(s))
    else if s.attrs != [] then [Flag(NOT + ATTRIBUTE)] + (Texts(s.attrs) + Classes(s))
    else if s.classNames != [] then [Flag(NOT + CLASS)] + Texts(s.classNames)
    else []
  }

  function Negatives(nots: seq<CssSelector>): seq<Item> {
    if nots == [] then [] else ParserSelectorToNegativeSelector(nots[0]) + Negatives(nots[1..])
  }

  function ParserSelectorToR3Selector(s: CssSelector): seq<Item> {
    ParserSelectorToSimpleSelector(s) + Negatives(s.notSelectors)
  }

  // ---------- What the encoding keeps of a selector ----------

  datatype Part = Part(element: string, attrs: seq<string>, classNames: seq<string>)

  datatype Normal = Normal(positive: Part, negatives: seq<Part>)

  function ElementOrEmpty(s: CssSelector): string {
    if s.element.Some? then s.element.value else ""
  }

  const EMPTY: Part := Part("", [], [])

  function NotPart(s: CssSelector): Part {
    Part(ElementOrEmpty(s), s.attrs, s.classNames)
  }

  /** The negative selectors that say something; what they negate in turn is dropped. */
  function NotParts(nots: seq<CssSelector>): seq<Part> {
    if nots == [] then []
    else (if NotPart(nots[0]) == EMPTY then [] else [NotPart(nots[0])]) + NotParts(nots[1..])
  }

  /** A wildcard counts as no element in the positive part only. */
  function Normalize(s: CssSelector): Normal {
    var e := ElementOrEmpty(s);
    Normal(Part(if e == "*" then "" else e, s.attrs, s.classNames), NotParts(s.notSelectors))
  }

  // ---------- Decoding ----------

  // The flags as the runtime reads them: 8 for class names, 5 for a negated element, 3 for negated
  // attributes, 9 for negated class names.

  /** The strings at the start of the list, and the rest from the first flag on. */
  function TakeTexts(items: seq<Item>): (r: (seq<string>, seq<Item>))
    ensures |r.1| <= |items|
  {
    if items == [] || items[0].Flag? then ([], items)
    else var t := TakeTexts(items[1..]); ([items[0].s] + t.0, t.1)
  }

  /** Attributes and, after a class flag, at least one class name. */
  function TakeBody(items: seq<Item>): (r: (seq<string>, seq<string>, seq<Item>))
    ensures |r.2| <= |items|
  {
    var (attrs, rest) := TakeTexts(items);
    if rest != [] && rest[0] == Flag(8) && TakeTexts(rest[1..]).0 != [] then
      var (classes, rest') := TakeTexts(rest[1..]); (attrs, classes, rest')
    else (attrs, [], rest)
  }

  /** One negative selector, which says something, and what follows it. */
  function DecodeNegative(items: seq<Item>): (r: Option<(Part, seq<Item>)>)
    ensures r.Some? ==> |r.value.1| < |items|
  {
    if items == [] then None
    else if items[0] == Flag(9) then
      var (classes, rest) := TakeTexts(items[1..]);
      if classes == [] then None else Some((Part("", [], classes), rest))
    else if items[0] == Flag(3) then
      var (attrs, classes, rest) := TakeBody(items[1..]);
      if attrs == [] then None else Some((Part("", attrs, classes), rest))
    else if |items| >= 2 && items[0] == Flag(5) && items[1].Text? && items[1].s != "" then
      var (attrs, classes, rest) := TakeBody(items[2..]); Some((Part(items[1].s, attrs, classes), rest))
    else None
  }

  function DecodeNegatives(items: seq<Item>): Option<seq<Part>>
    decreases |items|
  {
    if items == [] then Some([])
    else match DecodeNegative(items)
      case None => None
      case Some((p, rest)) =>
        match DecodeNegatives(rest) case None => None case Some(ps) => Some([p] + ps)
  }

  function Decode(items: seq<Item>): Option<Normal> {
    if items == [] || items[0].Flag? || items[0].s == "*" then None
    else
      var (attrs, classes, rest) := TakeBody(items[1..]);
      match DecodeNegatives(rest) case None => None case Some(ps) => Some(Normal(Part(items[0].s, attrs, classes), ps))
  }

  // ---------- Round trip ----------

  /** A list that no text continues: it is empty or starts with the flag of a negative selector. */
  predicate StartsNegative(items: seq<Item>) {
    items == [] || items[0] in {Flag(3), Flag(5), Flag(9)}
  }

  lemma {:induction false} TakeTextsOf(ss: seq<string>, rest: seq<Item>)
    requires rest == [] || rest[0].Flag?
    ensures TakeTexts(Texts(ss) + rest) == (ss, rest)
  {
    if ss == [] {
      assert Texts(ss) + rest == rest;
    } else {
      TakeTextsOf(ss[1..], rest);
      assert [ss[0]] + ss[1..] == ss;
      TakeTextsCons(ss[0], Texts(ss[1..]) + rest);
      assert Texts(ss) + rest == [Text(ss[0])] + (Texts(ss[1..]) + rest);
    }
  }

  lemma TakeTextsCons(s: string, items: seq<Item>)
    ensures TakeTexts([Text(s)] + items) == ([s] + TakeTexts(items).0, TakeTexts(items).1)
  {
    assert ([Text(s)] + items)[1..] == items;
  }

  lemma TakeBodyOf(s: CssSelector, rest: seq<Item>)
    requires StartsNegative(rest)
    ensures TakeBody(Texts(s.attrs) + Classes(s) + rest) == (s.attrs, s.classNames, rest)
  {
    hide Texts;
    var tail := Classes(s) + rest;
    assert Texts(s.attrs) + Classes(s) + rest == Texts(s.attrs) + tail;
    if s.classNames == [] {
      assert tail == rest;
    } else {
      assert tail[0] == Flag(CLASS) && tail[1..] == Texts(s.classNames) + rest;
      TakeTextsOf(s.classNames, rest);
    }
    TakeTextsOf(s.attrs, tail);
  }

  lemma DecodeClassNegative(classes: seq<string>, rest: seq<Item>)
    requires StartsNegative(rest) && classes != []
    ensures DecodeNegative([Flag(9)] + Texts(classes) + rest) == Some((Part("", [], classes), rest))
  {
    hide Texts, TakeTexts, TakeBody;
    assert ([Flag(9)] + Texts(classes) + rest)[1..] == Texts(classes) + rest;
    TakeTextsOf(classes, rest);
  }

  lemma DecodeAttributeNegative(s: CssSelector, rest: seq<Item>)
    requires StartsNegative(rest) && s.attrs != []
    ensures DecodeNegative([Flag(3)] + (Texts(s.attrs) + Classes(s)) + rest)
         == Some((Part("", s.attrs, s.classNames), rest))
  {
    hide TakeTexts, TakeBody, Texts, Classes;
    var body := Texts(s.attrs) + Classes(s);
    assert ([Flag(3)] + body + rest)[1..] == body + rest;
    TakeBodyOf(s, rest);
  }

  lemma DecodeElementNegative(e: string, s: CssSelector, rest: seq<Item>)
    requires StartsNegative(rest) && e != ""
    ensures DecodeNegative([Flag(5), Text(e)] + (Texts(s.attrs) + Classes(s)) + rest)
         == Some((Part(e, s.attrs, s.classNames), rest))
  {
    hide TakeTexts, TakeBody, Texts, Classes;
    var body := Texts(s.attrs) + Classes(s);
    assert ([Flag(5), Text(e)] + body + rest)[2..] == body + rest;
    TakeBodyOf(s, rest);
  }

  lemma DecodeOne(s: CssSelector, rest: seq<Item>)
    requires StartsNegative(rest)
    ensures var items := ParserSelectorToNegativeSelector(s) + rest;
            && StartsNegative(items)
            && if NotPart(s) == EMPTY then items == rest else DecodeNegative(items) == Some((NotPart(s), rest))
  {
    hide DecodeNegative, Texts, Classes;
    if ElementOrEmpty(s) != "" {
      DecodeElementNegative(ElementOrEmpty(s), s, rest);
    } else if s.attrs != [] {
      DecodeAttributeNegative(s, rest);
    } else if s.classNames != [] {
      DecodeClassNegative(s.classNames, rest);
    } else {
      assert ParserSelectorToNegativeSelector(s) + rest == rest;
    }
  }

  lemma {:induction false} DecodeAllNegatives(nots: seq<CssSelector>)
    ensures DecodeNegatives(Negatives(nots)) == Some(NotParts(nots))
    ensures StartsNegative(Negatives(nots))
  {
    if nots != [] {
      DecodeAllNegatives(nots[1..]);
      DecodeOne(nots[0], Negatives(nots[1..]));
      hide DecodeNegative, ParserSelectorToNegativeSelector;
      assert [] + NotParts(nots[1..]) == NotParts(nots[1..]);
    }
  }

  /** Decoding the encoding of any selector yields its normal form. */
  lemma RoundTrip(s: CssSelector)
    ensures Decode(ParserSelectorToR3Selector(s)) == Some(Normalize(s))
  {
    DecodeAllNegatives(s.notSelectors);
    var e := if ElementOrEmpty(s) == "*" then "" else ElementOrEmpty(s);
    DecodePositive(e, s, Negatives(s.notSelectors), NotParts(s.notSelectors));
  }

  lemma DecodePositive(e: string, s: CssSelector, rest: seq<Item>, ps: seq<Part>)
    requires StartsNegative(rest) && DecodeNegatives(rest) == Some(ps) && e != "*"
    ensures Decode([Text(e)] + (Texts(s.attrs) + Classes(s)) + rest)
         == Some(Normal(Part(e, s.attrs, s.classNames), ps))
  {
    hide TakeTexts, TakeBody, Texts, Classes, DecodeNegatives;
    var body := Texts(s.attrs) + Classes(s);
    assert ([Text(e)] + body + rest)[1..] == body + rest;
    TakeBodyOf(s, rest);
  }

  // ---------- One list for each normal form ----------

  lemma {:induction false} TextsTaken(items: seq<Item>)
    ensures items == Texts(TakeTexts(items).0) + TakeTexts(items).1
  {
    if items != [] && items[0].Text? {
      TextsTaken(items[1..]);
      var (ss, rest) := TakeTexts(items[1..]);
      assert ([items[0].s] + ss)[1..] == ss;
      assert items == [items[0]] + (Texts(ss) + rest);
    }
  }

  function Body(attrs: seq<string>, classes: seq<string>): seq<Item> {
    Texts(attrs) + if classes != [] then [Flag(8)] + Texts(classes) else []
  }

  lemma BodyTaken(items: seq<Item>)
    ensures var (attrs, classes, rest) := TakeBody(items); items == Body(attrs, classes) + rest
  {
    hide Texts, TakeTexts;
    TextsTaken(items);
    var rest := TakeTexts(items).1;
    if rest != [] && rest[0] == Flag(8) && TakeTexts(rest[1..]).0 != [] {
      TextsTaken(rest[1..]);
      assert rest == [Flag(8)] + rest[1..];
    }
  }

  /** The items that stand for a negative part. */
  function NegativeItems(p: Part): seq<Item> {
    if p.element != "" then [Flag(5), Text(p.element)] + Body(p.attrs, p.classNames)
    else if p.attrs != [] then [Flag(3)] + Body(p.attrs, p.classNames)
    else [Flag(9)] + Texts(p.classNames)
  }

  lemma NegativeTaken(items: seq<Item>)
    requires DecodeNegative(items).Some?
    ensures items == NegativeItems(DecodeNegative(items).value.0) + DecodeNegative(items).value.1
  {
    hide Texts, TakeTexts, TakeBody, Body;
    if items[0] == Flag(9) {
      TextsTaken(items[1..]);
      assert items == [Flag(9)] + items[1..];
    } else if items[0] == Flag(3) {
      BodyTaken(items[1..]);
      assert items == [Flag(3)] + items[1..];
    } else {
      BodyTaken(items[2..]);
      assert items == [Flag(5), Text(items[1].s)] + items[2..];
    }
  }

  lemma {:induction false} NegativesDecodedOnce(a: seq<Item>, b: seq<Item>)
    requires DecodeNegatives(a).Some? && DecodeNegatives(a) == DecodeNegatives(b)
    ensures a == b
    decreases |a|
  {
    if a != [] && b != [] {
      NegativeTaken(a);
      NegativeTaken(b);
      hide DecodeNegative, NegativeItems;
      var (p, rest) := DecodeNegative(a).value;
      var (q, rest') := DecodeNegative(b).value;
      var ps, qs := DecodeNegatives(rest).value, DecodeNegatives(rest').value;
      assert ([p] + ps)[0] == ([q] + qs)[0] && ([p] + ps)[1..] == ps && ([q] + qs)[1..] == qs;
      NegativesDecodedOnce(rest, rest');
    }
  }

  /** No two lists stand for the same normal form. */
  lemma DecodedOnce(a: seq<Item>, b: seq<Item>)
    requires Decode(a).Some? && Decode(a) == Decode(b)
    ensures a == b
  {
    BodyTaken(a[1..]);
    BodyTaken(b[1..]);
    hide TakeBody, Body, DecodeNegatives;
    NegativesDecodedOnce(TakeBody(a[1..]).2, TakeBody(b[1..]).2);
    assert a == [a[0]] + a[1..] && b == [b[0]] + b[1..];
  }

  /** The encoding of a selector is the one list that decodes to its normal form. */
  lemma EncodingIsOnly(s: CssSelector, items: seq<Item>)
    ensures items == ParserSelectorToR3Selector(s) <==> Decode(items) == Some(Normalize(s))
  {
    RoundTrip(s);
    if Decode(items) == Some(Normalize(s)) { DecodedOnce(items, ParserSelectorToR3Selector(s)); }
  }

  /** Two selectors have the same encoding exactly when they have the same normal form. */
  lemma SameEncodingIffSameNormal(s: CssSelector, t: CssSelector)
    ensures ParserSelectorToR3Selector(s) == ParserSelectorToR3Selector(t) <==> Normalize(s) == Normalize(t)
  {
    RoundTrip(s);
    EncodingIsOnly(t, ParserSelectorToR3Selector(s));
  }
}
