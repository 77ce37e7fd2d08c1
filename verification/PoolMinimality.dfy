/** Which literals a pool declares: only those that are worth it. */
module PoolMinimality {
  import opened OutputAst
  import opened KeyDomain
  import opened KeyFn
  import opened PoolModel
  import opened PoolInvariant
  import opened PoolPreserved
  import opened PoolTheorems

  predicate IsTemplate(r: Request, t: Expr) {
    r.GetFactory? && WellTyped(r) && Keyable(Template(r.literal)) && Same(Template(r.literal), t)
  }

  /** Request `i` is the first for a factory of its template, so that the factory is made. */
  predicate MakesFactory(rs: seq<Request>, i: nat)
    requires i < |rs|
  {
    && rs[i].GetFactory? && WellTyped(rs[i]) && Keyable(Template(rs[i].literal))
    && forall j :: 0 <= j < i ==> !IsTemplate(rs[j], Template(rs[i].literal))
  }

  predicate HasConstant(vs: seq<Expr>, n: nat, e: Expr)
    requires n <= |vs|
  {
    exists m :: 0 <= m < n && IsConstant(vs[m]) && Same(vs[m], e)
  }

  /** Request `i` is for the literal, or makes a factory with the literal among its constants. */
  predicate Asks(rs: seq<Request>, i: nat, e: Expr)
    requires i < |rs|
  {
    || (rs[i].GetConst? && Same(rs[i].literal, e))
    || (MakesFactory(rs, i) && HasConstant(Values(rs[i].literal), |Values(rs[i].literal)|, e))
  }

  predicate Asked(rs: seq<Request>, k: nat, e: Expr)
    requires k <= |rs|
  {
    exists i :: 0 <= i < k && Asks(rs, i, e)
  }

  /** Request `i` asks for the literal, and forces sharing or is not the first to ask. */
  predicate WantedAt(rs: seq<Request>, i: nat, e: Expr)
    requires i < |rs|
  {
    Asks(rs, i, e) && (rs[i].GetFactory? || rs[i].forceShared || Asked(rs, i, e))
  }

  /** The literal is asked for twice, or once with sharing forced, as factories do. */
  predicate Wanted(rs: seq<Request>, k: nat, e: Expr)
    requires k <= |rs|
  {
    exists i :: 0 <= i < k && WantedAt(rs, i, e)
  }

  /** What the pool holds of a literal. */
  datatype Holding = Nothing | Unshared | Shared

  function Held(p: Pool, e: Expr): Holding
    requires Keyable(e) && p.IdsInRange()
  {
    if Key(e) !in p.literals then Nothing
    else if p.fixups[p.literals[Key(e)]].shared then Shared
    else Unshared
  }

  /** A request for a pooled literal moves it from nothing over unshared to shared. */
  lemma OwnHeld(p: Pool, literal: Expr, force: bool, e: Expr, d: Spellings)
    requires p.IdsInRange() && Pooled(e) && KeySafe(e, d) && Same(literal, e)
    ensures Held(ConstLiteral(p, literal, force).0, e)
         == if force || Held(p, e) != Nothing then Shared else Unshared
  {
    SameSafe(e, literal, d);
  }

  /** A request for another literal leaves it alone. */
  lemma OtherHeld(p: Pool, literal: Expr, force: bool, e: Expr, d: Spellings)
    requires LiteralsIndexed(p, d) && p.IdsInRange() && Unmixed(d)
    requires Pooled(literal) ==> KeySafe(literal, d)
    requires Pooled(e) && KeySafe(e, d) && !Same(literal, e)
    ensures Held(ConstLiteral(p, literal, force).0, e) == Held(p, e)
  {
    if Pooled(literal) {
      KeyInjective(literal, e, d);
    }
  }

  /** A new factory shares its constants. */
  lemma {:induction false} FactoryHeld(p: Pool, vs: seq<Expr>, n: nat, e: Expr, d: Spellings)
    requires Inv(p, d) && Unmixed(d) && p.IdsInRange() && n <= |vs| && ConstantsSafe(vs, d)
    requires Pooled(e) && KeySafe(e, d)
    ensures Held(FactoryValues(p, vs, n).0, e) == if HasConstant(vs, n, e) then Shared else Held(p, e)
  {
    if n > 0 {
      var q, v := FactoryValues(p, vs, n - 1).0, vs[n - 1];
      FactoryHeld(p, vs, n - 1, e, d);
      FactoryValuesKeep(p, vs, n - 1, d);
      HasConstantNext(vs, n, e);
      if IsConstant(v) {
        if Same(v, e) { OwnHeld(q, v, true, e, d); } else { OtherHeld(q, v, true, e, d); }
      }
    }
  }

  lemma HasConstantNext(vs: seq<Expr>, n: nat, e: Expr)
    requires 0 < n <= |vs|
    ensures HasConstant(vs, n, e) <==> HasConstant(vs, n - 1, e) || (IsConstant(vs[n - 1]) && Same(vs[n - 1], e))
  {
  }

  /** The factories registered are those of the templates requested. */
  lemma {:induction false} FactoryKnown(closure: bool, rs: seq<Request>, k: nat, t: Expr, d: Spellings)
    requires AdmissibleRun(Empty(closure), rs, d) && k <= |rs| && Keyable(t) && KeySafe(t, d)
    ensures Key(t) in After(Empty(closure), rs, k).factories <==> exists j :: 0 <= j < k && IsTemplate(rs[j], t)
  {
    if k > 0 {
      var q, r := After(Empty(closure), rs, k - 1), rs[k - 1];
      FactoryKnown(closure, rs, k - 1, t, d);
      assert AdmissibleAt(Empty(closure), rs, k - 1, d);
      StepFactories(q, r, t, d);
    }
  }

  lemma StepFactories(q: Pool, r: Request, t: Expr, d: Spellings)
    requires q.IdsInRange() && Unmixed(d) && Admissible(q, r, d) && Keyable(t) && KeySafe(t, d)
    ensures Key(t) in Step(q, r).0.factories <==> Key(t) in q.factories || IsTemplate(r, t)
  {
    if r.GetFactory? && Keyable(Template(r.literal)) {
      KeyInjective(Template(r.literal), t, d);
      NestedRequestsSucceed(q, r.literal, |Values(r.literal)|);
    }
  }

  /** A request for a factory that is there leaves every literal alone; a new one shares its constants. */
  lemma FactoryStepHeld(q: Pool, literal: Expr, e: Expr, d: Spellings)
    requires Inv(q, d) && Unmixed(d) && q.IdsInRange() && Admissible(q, GetFactory(literal), d)
    requires Pooled(e) && KeySafe(e, d)
    ensures var vs := Values(literal);
            Held(LiteralFactory(q, literal).0, e)
            == if Keyable(Template(literal)) && Key(Template(literal)) !in q.factories && HasConstant(vs, |vs|, e)
               then Shared else Held(q, e)
  {
    if Keyable(Template(literal)) && Key(Template(literal)) !in q.factories {
      var vs := Values(literal);
      TemplateSafe(literal, d);
      FactoryHeld(q, vs, |vs|, e, d);
      NestedRequestsSucceed(q, literal, |vs|);
    }
  }

  /** What one request does to what the pool holds of a literal. */
  lemma HeldAfter(closure: bool, rs: seq<Request>, k: nat, e: Expr, d: Spellings)
    requires AdmissibleRun(Empty(closure), rs, d) && k < |rs| && Pooled(e) && KeySafe(e, d)
    ensures var p := Empty(closure);
            Held(After(p, rs, k + 1), e)
            == if !Asks(rs, k, e) then Held(After(p, rs, k), e)
               else if rs[k].GetFactory? || rs[k].forceShared || Held(After(p, rs, k), e) != Nothing then Shared
               else Unshared
  {
    var q := After(Empty(closure), rs, k);
    assert AdmissibleAt(Empty(closure), rs, k, d);
    EmptyInv(closure, d);
    RunKeeps(Empty(closure), rs, k, d);
    match rs[k]
    case GetConst(literal, force) =>
      if Same(literal, e) { OwnHeld(q, literal, force, e, d); } else { OtherHeld(q, literal, force, e, d); }
    case GetFactory(literal) =>
      FactoryStepHeld(q, literal, e, d);
      if Keyable(Template(literal)) { FactoryKnown(closure, rs, k, Template(literal), d); }
    case GetName(_, _) =>
  }

  /**
   * In every run a literal is declared exactly when it was asked for twice or with sharing forced,
   * by a request for it or for a new factory; a single request leaves it where it is.
   */
  lemma {:induction false} DeclaredIffWanted(closure: bool, rs: seq<Request>, k: nat, e: Expr, d: Spellings)
    requires AdmissibleRun(Empty(closure), rs, d) && k <= |rs| && Pooled(e) && KeySafe(e, d)
    ensures Held(After(Empty(closure), rs, k), e)
         == if Wanted(rs, k, e) then Shared else if Asked(rs, k, e) then Unshared else Nothing
  {
    hide Step, Inv, Admissible, Asks;
    if k > 0 {
      DeclaredIffWanted(closure, rs, k - 1, e, d);
      HeldAfter(closure, rs, k - 1, e, d);
      WantedNext(rs, k, e);
    }
  }

  lemma WantedNext(rs: seq<Request>, k: nat, e: Expr)
    requires 0 < k <= |rs|
    ensures Asked(rs, k, e) <==> Asked(rs, k - 1, e) || Asks(rs, k - 1, e)
    ensures Wanted(rs, k, e) <==> Wanted(rs, k - 1, e) || WantedAt(rs, k - 1, e)
    ensures Wanted(rs, k - 1, e) ==> Asked(rs, k - 1, e)
  {
  }
}
