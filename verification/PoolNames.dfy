/** The names a pool hands out and declares, over every sequence of requests. */
module PoolNames {
  import opened OutputAst
  import opened KeyDomain
  import opened Names
  import opened PoolModel
  import opened PoolInvariant
  import opened PoolTheorems

  /** No count of a prefix in `p` is larger than in `q`. */
  ghost predicate CountsGrow(p: Pool, q: Pool) {
    forall n :: Count(p.claimed, n) <= Count(q.claimed, n)
  }

  lemma ConstLiteralCounts(p: Pool, literal: Expr, force: bool)
    requires p.IdsInRange()
    ensures CountsGrow(p, ConstLiteral(p, literal, force).0)
  {
  }

  lemma {:induction false} FactoryValuesCounts(p: Pool, vs: seq<Expr>, n: nat)
    requires n <= |vs| && p.IdsInRange()
    ensures CountsGrow(p, FactoryValues(p, vs, n).0)
  {
    if n > 0 {
      FactoryValuesCounts(p, vs, n - 1);
      if IsConstant(vs[n - 1]) {
        ConstLiteralCounts(FactoryValues(p, vs, n - 1).0, vs[n - 1], true);
      }
    }
  }

  lemma StepCounts(p: Pool, r: Request)
    requires p.IdsInRange() && WellTyped(r)
    ensures CountsGrow(p, Step(p, r).0)
    ensures r.GetName? ==> Count(Step(p, r).0.claimed, r.prefix) > Count(p.claimed, r.prefix)
  {
    match r
    case GetConst(literal, force) => ConstLiteralCounts(p, literal, force);
    case GetFactory(literal) => FactoryValuesCounts(p, Values(literal), |Values(literal)|);
    case GetName(_, _) =>
  }

  lemma {:induction false} RunCounts(p: Pool, rs: seq<Request>, i: nat, j: nat)
    requires p.IdsInRange() && Typed(rs) && i <= j <= |rs|
    ensures CountsGrow(After(p, rs, i), After(p, rs, j))
  {
    hide Step, CountsGrow;
    if i == j {
      CountsReflexive(After(p, rs, i));
    } else {
      RunCounts(p, rs, i, j - 1);
      NextCounts(p, rs, j - 1);
      CountsTransitive(After(p, rs, i), After(p, rs, j - 1), After(p, rs, j));
    }
  }

  lemma CountsReflexive(p: Pool)
    ensures CountsGrow(p, p)
  {
  }

  lemma NextCounts(p: Pool, rs: seq<Request>, i: nat)
    requires p.IdsInRange() && Typed(rs) && i < |rs|
    ensures CountsGrow(After(p, rs, i), After(p, rs, i + 1))
  {
    StepCounts(After(p, rs, i), rs[i]);
  }

  lemma CountsTransitive(p: Pool, q: Pool, r: Pool)
    requires CountsGrow(p, q) && CountsGrow(q, r)
    ensures CountsGrow(p, r)
  {
    forall n ensures Count(p.claimed, n) <= Count(r.claimed, n) {
      assert Count(p.claimed, n) <= Count(q.claimed, n) <= Count(r.claimed, n);
    }
  }

  /** How often the prefix of request `i` had been used before it. */
  function CountAt(p: Pool, rs: seq<Request>, i: nat): nat
    requires p.IdsInRange() && Typed(rs) && i < |rs| && rs[i].GetName?
  {
    Count(After(p, rs, i).claimed, rs[i].prefix)
  }

  lemma CountsIncrease(p: Pool, rs: seq<Request>, i: nat, j: nat)
    requires p.IdsInRange() && Typed(rs) && i < j < |rs|
    requires rs[i].GetName? && rs[j].GetName? && rs[i].prefix == rs[j].prefix
    ensures CountAt(p, rs, i) < CountAt(p, rs, j)
  {
    StepCounts(After(p, rs, i), rs[i]);
    RunCounts(p, rs, i + 1, j);
  }

  function CallOf(r: Request): Call
    requires r.GetName?
  {
    Call(r.prefix, r.alwaysSuffix)
  }

  /**
   * Whatever else is requested in between, two requests for names receive different ones if no
   * prefix in use is another followed by a numeral.
   */
  lemma NamesNeverRepeat(p: Pool, rs: seq<Request>, i: nat, j: nat, prefixes: set<string>, opt: bool)
    requires p.IdsInRange() && Typed(rs) && i < j < |rs|
    requires rs[i].GetName? && rs[j].GetName?
    requires Apart(prefixes, opt) && CallsOver([CallOf(rs[i]), CallOf(rs[j])], prefixes, opt)
    ensures ReplyAt(p, rs, i) != ReplyAt(p, rs, j)
  {
    if rs[i].prefix == rs[j].prefix { CountsIncrease(p, rs, i, j); }
    FormsDiffer(CallOf(rs[i]), CountAt(p, rs, i), CallOf(rs[j]), CountAt(p, rs, j), prefixes, opt);
  }

  /** A requested name is never that of a declaration, made before or after. */
  lemma NamesAvoidDeclarations(p: Pool, rs: seq<Request>, i: nat, j: nat, prefixes: set<string>, opt: bool, d: Spellings)
    requires Inv(p, d) && AdmissibleRun(p, rs, d) && i < |rs| && rs[i].GetName? && j < |Run(p, rs).statements|
    requires Apart(prefixes, opt) && CallsOver([CallOf(rs[i])], prefixes, opt) && CONSTANT_PREFIX in prefixes
    ensures ReplyAt(p, rs, i) != Name(Run(p, rs).statements[j].name)
  {
    var n, name := CountAt(p, rs, i), Run(p, rs).statements[j].name;
    var k := DeclaredNumber(p, rs, i, j, d);
    var c, own := CallOf(rs[i]), Call(CONSTANT_PREFIX, true);
    assert c in [c];
    if c.prefix == CONSTANT_PREFIX && k < n {
      FormsDiffer(own, k, c, n, prefixes, opt);
    } else {
      FormsDiffer(c, n, own, k, prefixes, opt);
    }
  }

  /** The number in a declared name, which request `i` did not take if it was for the same prefix. */
  lemma DeclaredNumber(p: Pool, rs: seq<Request>, i: nat, j: nat, d: Spellings) returns (k: nat)
    requires Inv(p, d) && AdmissibleRun(p, rs, d) && i < |rs| && rs[i].GetName? && j < |Run(p, rs).statements|
    ensures Run(p, rs).statements[j].name == Form(CONSTANT_PREFIX, k, true)
    ensures rs[i].prefix == CONSTANT_PREFIX ==> k != CountAt(p, rs, i)
  {
    hide Step, Inv, Admissible, Grows;
    RunKeeps(p, rs, i, d);
    RunGrows(p, rs, i, |rs|, d);
    RunGrows(p, rs, i + 1, |rs|, d);
    k := NumberOf(After(p, rs, i), rs[i], After(p, rs, i + 1), Run(p, rs), j, d);
  }

  lemma NumberOf(before: Pool, r: Request, after: Pool, end: Pool, j: nat, d: Spellings) returns (k: nat)
    requires before.IdsInRange() && WellTyped(r) && r.GetName? && after == Step(before, r).0
    requires Inv(before, d) && Grows(before, end) && Grows(after, end) && j < |end.statements|
    ensures end.statements[j].name == Form(CONSTANT_PREFIX, k, true)
    ensures r.prefix == CONSTANT_PREFIX ==> k != Count(before.claimed, r.prefix)
  {
    if j < |before.statements| {
      assert NamedBelow(before.statements[j].name, before.Next());
      k :| k < before.Next() && Named(before.statements[j].name, k);
    } else {
      assert NamedFrom(end.statements[j].name, after.Next());
      k :| k >= after.Next() && Named(end.statements[j].name, k);
    }
  }
}
