/** Names handed out by `uniqueName`: when they can repeat, exactly. */
module Names {
  import opened Numerals

  type Claimed = map<string, nat>

  function Count(claimed: Claimed, name: string): nat {
    if name in claimed then claimed[name] else 0
  }

  /** The name for the `count`-th request of a prefix. */
  function Form(name: string, count: nat, alwaysSuffix: bool): string {
    if count == 0 && !alwaysSuffix then name else name + Dec(count)
  }

  datatype Call = Call(prefix: string, alwaysSuffix: bool)

  /** The names that a sequence of requests receives. */
  function Claims(claimed: Claimed, calls: seq<Call>): (names: seq<string>)
    ensures |names| == |calls|
    decreases calls
  {
    if calls == [] then []
    else
      var c := calls[0];
      var n := Count(claimed, c.prefix);
      [Form(c.prefix, n, c.alwaysSuffix)] + Claims(claimed[c.prefix := n + 1], calls[1..])
  }

  ghost predicate Distinct(names: seq<string>) {
    forall i, j :: 0 <= i < j < |names| ==> names[i] != names[j]
  }

  function Occurrences(calls: seq<Call>, prefix: string): nat {
    if calls == [] then 0
    else (if calls[0].prefix == prefix then 1 else 0) + Occurrences(calls[1..], prefix)
  }

  lemma {:induction false} ClaimsAt(claimed: Claimed, calls: seq<Call>, i: nat)
    requires i < |calls|
    ensures Claims(claimed, calls)[i]
         == Form(calls[i].prefix, Count(claimed, calls[i].prefix) + Occurrences(calls[..i], calls[i].prefix),
                 calls[i].alwaysSuffix)
    decreases calls
  {
    hide Form, Dec;
    if i > 0 {
      var c, d := calls[0], calls[i];
      var claimed' := claimed[c.prefix := Count(claimed, c.prefix) + 1];
      ClaimsAt(claimed', calls[1..], i - 1);
      assert calls[1..][..i - 1] == calls[..i][1..] && calls[1..][i - 1] == d;
      assert Count(claimed', d.prefix) == Count(claimed, d.prefix) + if c.prefix == d.prefix then 1 else 0;
      assert Occurrences(calls[..i], d.prefix)
          == (if c.prefix == d.prefix then 1 else 0) + Occurrences(calls[..i][1..], d.prefix);
    }
  }

  /** The requests before request `i` that have its prefix. */
  function EarlierWith(calls: seq<Call>, i: nat, prefix: string): set<nat>
    requires i <= |calls|
  {
    set j: nat | j < i && calls[j].prefix == prefix
  }

  lemma EarlierNext(calls: seq<Call>, i: nat, prefix: string)
    requires i < |calls|
    ensures |EarlierWith(calls, i + 1, prefix)|
         == |EarlierWith(calls, i, prefix)| + if calls[i].prefix == prefix then 1 else 0
  {
    var before := EarlierWith(calls, i, prefix);
    assert EarlierWith(calls, i + 1, prefix) == before + if calls[i].prefix == prefix then {i} else {};
  }

  lemma {:induction false} OccurrencesAreEarlier(calls: seq<Call>, i: nat, prefix: string)
    requires i <= |calls|
    ensures Occurrences(calls[..i], prefix) == |EarlierWith(calls, i, prefix)|
  {
    if i == 0 {
      assert EarlierWith(calls, 0, prefix) == {};
    } else {
      hide EarlierWith, Occurrences;
      OccurrencesAreEarlier(calls, i - 1, prefix);
      EarlierNext(calls, i - 1, prefix);
      OccurrencesNext(calls[..i - 1], calls[i - 1], prefix);
      assert calls[..i] == calls[..i - 1] + [calls[i - 1]];
    }
  }

  lemma {:induction false} OccurrencesNext(calls: seq<Call>, c: Call, prefix: string)
    ensures Occurrences(calls + [c], prefix) == Occurrences(calls, prefix) + if c.prefix == prefix then 1 else 0
  {
    if calls == [] {
      assert [] + [c] == [c] && [c][1..] == [];
    } else {
      OccurrencesNext(calls[1..], c, prefix);
      assert (calls + [c])[1..] == calls[1..] + [c];
    }
  }

  /** The first request for a prefix that allows it gets the prefix; every other one its number too. */
  lemma {:induction false} NameOfRequest(calls: seq<Call>, i: nat)
    requires i < |calls|
    ensures var c, n := calls[i], |EarlierWith(calls, i, calls[i].prefix)|;
            Claims(map[], calls)[i] == if n == 0 && !c.alwaysSuffix then c.prefix else c.prefix + Dec(n)
  {
    hide Dec, EarlierWith, Occurrences, Claims;
    ClaimsAt(map[], calls, i);
    OccurrencesAreEarlier(calls, i, calls[i].prefix);
  }

  lemma {:induction false} OccurrencesGrow(calls: seq<Call>, i: nat, j: nat)
    requires i < j <= |calls|
    ensures Occurrences(calls[..i], calls[i].prefix) < Occurrences(calls[..j], calls[i].prefix)
  {
    if i == 0 {
    } else {
      OccurrencesGrow(calls[1..], i - 1, j - 1);
      assert calls[1..][..i - 1] == calls[..i][1..];
      assert calls[1..][..j - 1] == calls[..j][1..];
    }
  }

  /** `q` is `p` followed by a numeral that a later suffix of `p` can start with. */
  ghost predicate Extends(p: string, q: string, suffixOptional: bool) {
    exists n: nat :: q == p + Dec(n) && (n > 0 || suffixOptional)
  }

  ghost predicate Apart(prefixes: set<string>, suffixOptional: bool) {
    forall p, q :: p in prefixes && q in prefixes ==> !Extends(p, q, suffixOptional)
  }

  ghost predicate CallsOver(calls: seq<Call>, prefixes: set<string>, suffixOptional: bool) {
    forall c :: c in calls ==> c.prefix in prefixes && (c.alwaysSuffix || suffixOptional)
  }

  /** Two different prefixes meet in one name only if one extends the other by a numeral. */
  lemma FormsMeet(p: string, i: nat, a: bool, q: string, j: nat, b: bool, opt: bool)
    requires p != q && (a || opt) && (b || opt)
    requires Form(p, i, a) == Form(q, j, b)
    ensures Extends(p, q, opt) || Extends(q, p, opt)
    decreases if |p| > |q| then 1 else 0
  {
    if |p| > |q| {
      FormsMeet(q, j, b, p, i, a, opt);
    } else {
      var s := Form(p, i, a);
      assert s[..|p|] == p && s[..|q|] == q;
      assert |p| < |q|;
      assert s == p + Dec(i);
      var n := DecPrefix(i, |q| - |p|);
      assert q == p + s[|p|..][..|q| - |p|] && s[|p|..] == Dec(i);
      assert q == p + Dec(n);
      DecShape(i);
      DecShape(j);
    }
  }

  lemma OccurrencesRepeat(p: string, k: nat)
    ensures Occurrences(seq(k, _ => Call(p, true)), p) == k
  {
    var s := seq(k, _ => Call(p, true));
    if k > 0 {
      assert s[1..] == seq(k - 1, _ => Call(p, true));
      OccurrencesRepeat(p, k - 1);
    }
  }

  lemma {:induction false} OccurrencesOther(calls: seq<Call>, q: string)
    requires forall c :: c in calls ==> c.prefix != q
    ensures Occurrences(calls, q) == 0
  {
    if calls != [] {
      assert calls[0] in calls;
      OccurrencesOther(calls[1..], q);
    }
  }

  /** Requests that receive the same name twice, for a prefix and an extension of it. */
  lemma RepeatedName(p: string, q: string, opt: bool) returns (calls: seq<Call>)
    requires Extends(p, q, opt)
    ensures CallsOver(calls, {p, q}, opt) && !Distinct(Claims(map[], calls))
  {
    var n: nat :| q == p + Dec(n) && (n > 0 || opt);
    calls := ManyThenOne(p, 10 * n, Call(q, n > 0));
    ExtensionMeets(p, n);
    ClaimsOfMany(p, 10 * n, Call(q, n > 0));
  }

  function ManyThenOne(p: string, k: nat, last: Call): (calls: seq<Call>)
    ensures |calls| == k + 2
  {
    seq(k + 1, _ => Call(p, true)) + [last]
  }

  lemma ClaimsOfMany(p: string, k: nat, last: Call)
    requires last.prefix != p
    ensures var names := Claims(map[], ManyThenOne(p, k, last));
            names[k] == Form(p, k, true) && names[k + 1] == Form(last.prefix, 0, last.alwaysSuffix)
  {
    var calls, many := ManyThenOne(p, k, last), seq(k + 1, _ => Call(p, true));
    ClaimsAt(map[], calls, k);
    ClaimsAt(map[], calls, k + 1);
    assert calls[..k] == seq(k, _ => Call(p, true)) && calls[..k + 1] == many;
    OccurrencesRepeat(p, k);
    OccurrencesOther(many, last.prefix);
  }

  lemma ExtensionMeets(p: string, n: nat)
    ensures p != p + Dec(n)
    ensures Form(p, 10 * n, true) == Form(p + Dec(n), 0, n > 0)
  {
    DecShape(n);
    assert |p + Dec(n)| > |p|;
    if n > 0 {
      DecTenfold(n);
      Assoc(p, Dec(n), Dec(0));
    }
  }

  lemma DecTenfold(n: nat)
    requires n > 0
    ensures Dec(10 * n) == Dec(n) + Dec(0)
  {
    assert 10 * n / 10 == n && 10 * n % 10 == 0;
  }

  lemma Assoc(a: string, b: string, c: string)
    ensures a + (b + c) == (a + b) + c
  {
  }

  /**
   * Names requested with prefixes from a given set never repeat, whatever the requests, exactly
   * when no prefix of the set is another one followed by a numeral (a positive one, unless
   * requests may leave the suffix out).
   */
  lemma UniqueIffApart(prefixes: set<string>, opt: bool)
    ensures (forall calls :: CallsOver(calls, prefixes, opt) ==> Distinct(Claims(map[], calls)))
       <==> Apart(prefixes, opt)
  {
    if Apart(prefixes, opt) {
      forall calls | CallsOver(calls, prefixes, opt) ensures Distinct(Claims(map[], calls)) {
        ApartIsUnique(prefixes, opt, calls);
      }
    } else {
      var p, q :| p in prefixes && q in prefixes && Extends(p, q, opt);
      var calls := RepeatedName(p, q, opt);
      assert CallsOver(calls, prefixes, opt);
    }
  }

  lemma ApartIsUnique(prefixes: set<string>, opt: bool, calls: seq<Call>)
    requires Apart(prefixes, opt) && CallsOver(calls, prefixes, opt)
    ensures Distinct(Claims(map[], calls))
  {
    var names := Claims(map[], calls);
    forall i, j | 0 <= i < j < |calls| ensures names[i] != names[j] {
      var m, n := Earlier(calls, i, j);
      assert calls[i] in calls && calls[j] in calls;
      FormsDiffer(calls[i], m, calls[j], n, prefixes, opt);
    }
  }

  /** How often the prefixes of two requests were requested before them. */
  lemma {:induction false} Earlier(calls: seq<Call>, i: nat, j: nat) returns (m: nat, n: nat)
    requires i < j < |calls|
    ensures Claims(map[], calls)[i] == Form(calls[i].prefix, m, calls[i].alwaysSuffix)
    ensures Claims(map[], calls)[j] == Form(calls[j].prefix, n, calls[j].alwaysSuffix)
    ensures calls[i].prefix == calls[j].prefix ==> m < n
  {
    ClaimsAt(map[], calls, i);
    ClaimsAt(map[], calls, j);
    if calls[i].prefix == calls[j].prefix { OccurrencesGrow(calls, i, j); }
    m, n := Occurrences(calls[..i], calls[i].prefix), Occurrences(calls[..j], calls[j].prefix);
  }

  lemma FormsDiffer(c: Call, i: nat, d: Call, j: nat, prefixes: set<string>, opt: bool)
    requires Apart(prefixes, opt) && CallsOver([c, d], prefixes, opt)
    requires c.prefix == d.prefix ==> i < j
    ensures Form(c.prefix, i, c.alwaysSuffix) != Form(d.prefix, j, d.alwaysSuffix)
  {
    assert c in [c, d] && d in [c, d];
    if c.prefix == d.prefix {
      SamePrefix(c.prefix, i, c.alwaysSuffix, j, d.alwaysSuffix);
    } else if Form(c.prefix, i, c.alwaysSuffix) == Form(d.prefix, j, d.alwaysSuffix) {
      FormsMeet(c.prefix, i, c.alwaysSuffix, d.prefix, j, d.alwaysSuffix, opt);
      assert false;
    }
  }

  lemma SamePrefix(p: string, i: nat, a: bool, j: nat, b: bool)
    requires i < j
    ensures Form(p, i, a) != Form(p, j, b)
  {
    if Form(p, i, a) == Form(p, j, b) {
      DecShape(j);
      assert Form(p, j, b)[|p|..] == Dec(j);
      if i > 0 || a {
        assert Form(p, i, a)[|p|..] == Dec(i);
        DecInjective(i, j);
      }
    }
  }

  /** The documented rule, that no prefix ends in a digit, is enough even with optional suffixes. */
  lemma NoTrailingDigitIsApart(prefixes: set<string>, opt: bool)
    requires forall p :: p in prefixes ==> p == "" || !IsDigit(p[|p| - 1])
    ensures Apart(prefixes, opt)
  {
    forall p, q | p in prefixes && q in prefixes ensures !Extends(p, q, opt) {
      forall n: nat ensures q != p + Dec(n) {
        DecShape(n);
        assert (p + Dec(n))[|p + Dec(n)| - 1] == Dec(n)[|Dec(n)| - 1];
        assert Dec(n)[|Dec(n)| - 1] in Dec(n);
      }
    }
  }
}
