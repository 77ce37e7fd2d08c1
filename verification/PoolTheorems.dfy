/** The pool's guarantees over every sequence of requests. */
module PoolTheorems {
  import opened OutputAst
  import opened KeyDomain
  import opened KeyFn
  import opened PoolModel
  import opened PoolSemantics
  import opened PoolInvariant
  import opened PoolPreserved
  import opened PoolMeaning
  import opened Wrappers

  /** The spellings are unmixed, and every request is admissible in the state it reaches. */
  ghost predicate AdmissibleRun(p: Pool, rs: seq<Request>, d: Spellings) {
    && p.IdsInRange() && Unmixed(d)
    && Typed(rs)
    && forall i :: 0 <= i < |rs| ==> AdmissibleAt(p, rs, i, d)
  }

  ghost predicate AdmissibleAt(p: Pool, rs: seq<Request>, i: nat, d: Spellings)
    requires p.IdsInRange() && Typed(rs) && i < |rs|
  {
    Admissible(After(p, rs, i), rs[i], d)
  }

  lemma {:induction false} RunKeeps(p: Pool, rs: seq<Request>, i: nat, d: Spellings)
    requires Inv(p, d) && AdmissibleRun(p, rs, d) && i <= |rs|
    ensures Inv(After(p, rs, i), d)
  {
    hide Step, Inv;
    if i > 0 {
      RunKeeps(p, rs, i - 1, d);
      assert AdmissibleAt(p, rs, i - 1, d);
      StepKeeps(After(p, rs, i - 1), rs[i - 1], d);
    }
  }

  lemma {:induction false} RunGrows(p: Pool, rs: seq<Request>, i: nat, j: nat, d: Spellings)
    requires Inv(p, d) && AdmissibleRun(p, rs, d) && i <= j <= |rs|
    ensures Grows(After(p, rs, i), After(p, rs, j))
  {
    hide Step, Inv, Grows;
    if i == j {
      GrowsReflexive(After(p, rs, i));
    } else {
      RunGrows(p, rs, i, j - 1, d);
      RunKeeps(p, rs, j - 1, d);
      assert AdmissibleAt(p, rs, j - 1, d);
      StepKeeps(After(p, rs, j - 1), rs[j - 1], d);
      GrowsTransitive(After(p, rs, i), After(p, rs, j - 1), After(p, rs, j));
    }
  }

  /** Every state reachable from the empty pool satisfies the invariant. */
  lemma ReachableInv(closure: bool, rs: seq<Request>, d: Spellings)
    requires AdmissibleRun(Empty(closure), rs, d)
    ensures Inv(Run(Empty(closure), rs), d)
  {
    EmptyInv(closure, d);
    RunKeeps(Empty(closure), rs, |rs|, d);
  }

  /**
   * Whatever is requested afterwards, the expression returned for a literal means, under the
   * final declarations, what the literal meant when it was requested.
   */
  lemma ConstantsKeepMeaning(p: Pool, rs: seq<Request>, i: nat, outer: Scope, d: Spellings)
    requires Inv(p, d) && AdmissibleRun(p, rs, d) && i < |rs|
    requires rs[i].GetConst? && ReplyAt(p, rs, i).Literal?
    ensures Meaning(ReplyAt(p, rs, i).e, Run(p, rs), outer)
         == Meaning(rs[i].literal, After(p, rs, i), outer)
  {
    var before, after, end := After(p, rs, i), After(p, rs, i + 1), Run(p, rs);
    var literal, e := rs[i].literal, ReplyAt(p, rs, i).e;
    RunKeeps(p, rs, i, d);
    RunKeeps(p, rs, |rs|, d);
    RunGrows(p, rs, i, |rs|, d);
    RunGrows(p, rs, i + 1, |rs|, d);
    assert AdmissibleAt(p, rs, i, d);
    ConstLiteralKeeps(before, literal, rs[i].forceShared, d);
    if literal.Fixup? {
      FixupMeaning(before, outer, literal.id, d);
      FixupMeaning(end, outer, literal.id, d);
      ValueStable(before, end, outer, before.fixups[literal.id].original, d);
    } else if !NotPooled(literal) {
      EmitKeyable(literal, before.fixups);
      FixupMeaning(end, outer, e.id, d);
      SameMeans(end.fixups[e.id].original, literal, ScopeOf(end, outer));
      ValueStable(before, end, outer, literal, d);
    }
  }

  /**
   * Whatever is requested afterwards, calling the returned factory with the values of the
   * returned arguments yields the value of the literal at the place of the call.
   */
  lemma FactoriesKeepMeaning(p: Pool, rs: seq<Request>, i: nat, outer: Scope, use: Scope, d: Spellings)
    requires Inv(p, d) && AdmissibleRun(p, rs, d) && i < |rs|
    requires rs[i].GetFactory? && ReplyAt(p, rs, i).Factory?
    ensures var end := Run(p, rs);
            var Factory(f, args) := ReplyAt(p, rs, i);
            f.ReadVar? &&
            Apply(f.name_, EvalAll(args, end.fixups, use), ScopeOf(end, outer))
            == Eval(Emit(rs[i].literal, end.fixups), use)
  {
    var literal := rs[i].literal;
    RunKeeps(p, rs, |rs|, d);
    FactoryReply(p, rs, i, d);
    FactoryMeaning(Run(p, rs), outer, literal, use, d);
  }

  /** The reply to a factory request is the factory under the template's key, to the end of the run. */
  lemma FactoryReply(p: Pool, rs: seq<Request>, i: nat, d: Spellings)
    requires Inv(p, d) && AdmissibleRun(p, rs, d) && i < |rs|
    requires rs[i].GetFactory? && ReplyAt(p, rs, i).Factory?
    ensures var literal, end := rs[i].literal, Run(p, rs);
            && Keyable(Template(literal)) && KeySafe(Template(literal), d)
            && Key(Template(literal)) in end.factories
            && ReplyAt(p, rs, i) == Factory(end.factories[Key(Template(literal))], NonConstant(Values(literal)))
  {
    RunGrows(p, rs, i + 1, |rs|, d);
    RegisteredFactory(After(p, rs, i), rs[i].literal);
    assert AdmissibleAt(p, rs, i, d);
  }

  lemma RegisteredFactory(q: Pool, literal: Expr)
    requires q.IdsInRange() && (literal.Arr? || literal.Obj?) && LiteralFactory(q, literal).1.Some?
    ensures Keyable(Template(literal))
    ensures var (r, f) := LiteralFactory(q, literal);
            Key(Template(literal)) in r.factories
            && f == Some((r.factories[Key(Template(literal))], NonConstant(Values(literal))))
  {
  }

  /** The constants of a literal whose template has a key have keys, so requests for them succeed. */
  lemma {:induction false} NestedRequestsSucceed(p: Pool, literal: Expr, n: nat)
    requires p.IdsInRange() && (literal.Arr? || literal.Obj?) && n <= |Values(literal)|
    requires Keyable(Template(literal))
    ensures FactoryValues(p, Values(literal), n).1.Some?
  {
    if n > 0 {
      NestedRequestsSucceed(p, literal, n - 1);
      var t := Template(literal);
      assert Values(t)[n - 1] == if IsConstant(Values(literal)[n - 1]) then Values(literal)[n - 1] else UNKNOWN;
      assert Keyable(Values(t)[n - 1]) by {
        if t.Arr? { assert t.entries[n - 1] in t.entries; } else { assert t.fields[n - 1] in t.fields; }
      }
    }
  }

  /**
   * A request fails exactly when its literal, or its template, has no key. It then leaves the pool
   * as it was: no nested request fails after others have declared their constants.
   */
  lemma ThrowsIffNoKey(p: Pool, r: Request)
    requires p.IdsInRange() && WellTyped(r)
    ensures Step(p, r).1.Threw? <==>
              || (r.GetConst? && !NotPooled(r.literal) && !Keyable(r.literal))
              || (r.GetFactory? && !Keyable(Template(r.literal)))
    ensures Step(p, r).1.Threw? ==> Step(p, r).0 == p
  {
    if r.GetFactory? && Keyable(Template(r.literal)) {
      NestedRequestsSucceed(p, r.literal, |Values(r.literal)|);
    }
  }

  predicate RequestsConstant(r: Request) {
    r.GetConst? && Pooled(r.literal)
  }

  /** One request for a pooled literal. */
  lemma ReplyInStep(q: Pool, r: Request, d: Spellings) returns (id: nat)
    requires Inv(q, d) && q.IdsInRange() && Unmixed(d) && Admissible(q, r, d) && RequestsConstant(r)
    ensures Step(q, r).1 == Literal(Fixup(id))
    ensures var t := Step(q, r).0;
            && id < |t.fixups| && Same(t.fixups[id].original, r.literal)
            && (Key(r.literal) in q.literals ==> t.fixups[id].shared)
  {
    hide Inv, Grows;
    ConstLiteralKeeps(q, r.literal, r.forceShared, d);
    id := Step(q, r).1.e.id;
  }

  /** A pooled literal is answered by the fix-up that keeps it, shared if its key was known. */
  lemma ReplyIsFixup(p: Pool, rs: seq<Request>, i: nat, j: nat, d: Spellings) returns (id: nat)
    requires Inv(p, d) && AdmissibleRun(p, rs, d) && i < j <= |rs| && RequestsConstant(rs[i])
    ensures ReplyAt(p, rs, i) == Literal(Fixup(id))
    ensures var q := After(p, rs, j);
            && id < |q.fixups| && Same(q.fixups[id].original, rs[i].literal)
            && (Key(rs[i].literal) in After(p, rs, i).literals ==> q.fixups[id].shared)
  {
    hide Step, Inv, Admissible, Same;
    RunKeeps(p, rs, i, d);
    assert AdmissibleAt(p, rs, i, d);
    id := ReplyInStep(After(p, rs, i), rs[i], d);
    RunGrows(p, rs, i + 1, j, d);
  }

  lemma RunIndexed(p: Pool, rs: seq<Request>, i: nat, d: Spellings)
    requires Inv(p, d) && AdmissibleRun(p, rs, d) && i <= |rs|
    ensures LiteralsIndexed(After(p, rs, i), d)
  {
    RunKeeps(p, rs, i, d);
  }

  lemma FixupOfKey(q: Pool, id: nat, e: Expr, d: Spellings)
    requires LiteralsIndexed(q, d) && id < |q.fixups| && Same(q.fixups[id].original, e)
    ensures Keyable(e) && Key(e) in q.literals && q.literals[Key(e)] == id
  {
    SameSafe(q.fixups[id].original, e, d);
  }

  /** The reply to a request for a pooled literal is the fix-up kept under the literal's key. */
  lemma ReplyUnderKey(p: Pool, rs: seq<Request>, i: nat, j: nat, d: Spellings) returns (id: nat)
    requires Inv(p, d) && AdmissibleRun(p, rs, d) && i < j <= |rs| && RequestsConstant(rs[i])
    ensures ReplyAt(p, rs, i) == Literal(Fixup(id))
    ensures var q := After(p, rs, j);
            && id < |q.fixups| && Same(q.fixups[id].original, rs[i].literal)
            && Key(rs[i].literal) in q.literals && q.literals[Key(rs[i].literal)] == id
  {
    id := ReplyIsFixup(p, rs, i, j, d);
    RunIndexed(p, rs, j, d);
    FixupOfKey(After(p, rs, j), id, rs[i].literal, d);
  }

  lemma OneFixupPerLiteral(q: Pool, a: nat, b: nat, x: Expr, y: Expr, d: Spellings)
    requires LiteralsIndexed(q, d) && a < |q.fixups| && b < |q.fixups|
    requires Same(q.fixups[a].original, x) && Same(q.fixups[b].original, y)
    ensures a == b <==> Same(x, y)
  {
    if Same(x, y) {
      SameSafe(q.fixups[a].original, q.fixups[b].original, d);
    }
  }

  /** The fix-ups that answer two requests, in a state that has both. */
  lemma TwoFixups(p: Pool, rs: seq<Request>, i: nat, j: nat, d: Spellings) returns (q: Pool, a: nat, b: nat)
    requires Inv(p, d) && AdmissibleRun(p, rs, d) && i < j < |rs|
    requires RequestsConstant(rs[i]) && RequestsConstant(rs[j])
    ensures ReplyAt(p, rs, i) == Literal(Fixup(a)) && ReplyAt(p, rs, j) == Literal(Fixup(b))
    ensures LiteralsIndexed(q, d) && a < |q.fixups| && b < |q.fixups|
    ensures Same(q.fixups[a].original, rs[i].literal) && Same(q.fixups[b].original, rs[j].literal)
  {
    hide Step, Inv;
    q := After(p, rs, j + 1);
    a := ReplyIsFixup(p, rs, i, j + 1, d);
    b := ReplyIsFixup(p, rs, j, j + 1, d);
    RunIndexed(p, rs, j + 1, d);
  }

  lemma SameLiteralSameKey(p: Pool, rs: seq<Request>, i: nat, j: nat, d: Spellings)
    requires AdmissibleRun(p, rs, d) && i < |rs| && j < |rs|
    requires RequestsConstant(rs[i]) && RequestsConstant(rs[j]) && Same(rs[i].literal, rs[j].literal)
    ensures Key(rs[i].literal) == Key(rs[j].literal)
  {
    assert AdmissibleAt(p, rs, i, d);
    SameSafe(rs[i].literal, rs[j].literal, d);
  }

  /** Two pooled literals get the same expression exactly when they are the same but for run-time values. */
  lemma SameReplyIffSameLiteral(p: Pool, rs: seq<Request>, i: nat, j: nat, d: Spellings)
    requires Inv(p, d) && AdmissibleRun(p, rs, d) && i < j < |rs|
    requires RequestsConstant(rs[i]) && RequestsConstant(rs[j])
    ensures ReplyAt(p, rs, i) == ReplyAt(p, rs, j) <==> Same(rs[i].literal, rs[j].literal)
  {
    var q, a, b := TwoFixups(p, rs, i, j, d);
    OneFixupPerLiteral(q, a, b, rs[i].literal, rs[j].literal, d);
  }

  /** A literal requested twice is declared from then on, and both expressions use the declaration. */
  lemma SecondRequestShares(p: Pool, rs: seq<Request>, i: nat, j: nat, d: Spellings)
    requires Inv(p, d) && AdmissibleRun(p, rs, d) && i < j < |rs|
    requires RequestsConstant(rs[i]) && RequestsConstant(rs[j]) && Same(rs[i].literal, rs[j].literal)
    ensures exists id: nat ::
              && ReplyAt(p, rs, i) == ReplyAt(p, rs, j) == Literal(Fixup(id))
              && id < |Run(p, rs).fixups| && Run(p, rs).fixups[id].shared
  {
    var a := ReplyUnderKey(p, rs, i, j, d);
    SameLiteralSameKey(p, rs, i, j, d);
    var b := ReplyIsFixup(p, rs, j, |rs|, d);
    SameReplyIffSameLiteral(p, rs, i, j, d);
  }

  // ---------- What the declarations look like ----------

  predicate DeclaresLiteral(s: Stmt, e: Expr) {
    !s.rhs.Arrow? && Same(s.rhs.e, e)
  }

  lemma DeclaringStatement(p: Pool, id: nat, j: nat, d: Spellings)
    requires LiteralsIndexed(p, d) && StatementsOwned(p) && id < |p.fixups| && j < |p.statements|
    requires DeclaresLiteral(p.statements[j], p.fixups[id].original)
    ensures p.fixups[id].shared && Declares(p.statements[j], p.fixups[id])
  {
    var e := p.statements[j].rhs.e;
    assert Owned(p.statements[j], p);
    SameSafe(p.fixups[id].original, e, d);
  }

  lemma SharedIsDeclared(p: Pool, id: nat) returns (j: nat)
    requires FixupsDeclared(p) && id < |p.fixups| && p.fixups[id].shared
    ensures j < |p.statements| && DeclaresLiteral(p.statements[j], p.fixups[id].original)
    ensures Reads(p.fixups[id].resolved) == {p.statements[j].name}
  {
    j :| 0 <= j < |p.statements| && Declares(p.statements[j], p.fixups[id]);
  }

  lemma DeclaredOnce(p: Pool, id: nat, i: nat, j: nat, d: Spellings)
    requires LiteralsIndexed(p, d) && StatementsOwned(p) && NamesDistinct(p.statements)
    requires id < |p.fixups| && i < |p.statements| && j < |p.statements|
    requires DeclaresLiteral(p.statements[i], p.fixups[id].original)
    requires DeclaresLiteral(p.statements[j], p.fixups[id].original)
    ensures i == j
  {
    DeclaringStatement(p, id, i, d);
    DeclaringStatement(p, id, j, d);
  }

  /** A fix-up is shared exactly when a statement declares its literal, and then just one does. */
  lemma {:induction false} SharedIffDeclaredOnce(p: Pool, id: nat, d: Spellings)
    requires Inv(p, d) && id < |p.fixups|
    ensures p.fixups[id].shared <==>
              exists j :: 0 <= j < |p.statements| && DeclaresLiteral(p.statements[j], p.fixups[id].original)
    ensures forall i, j | 0 <= i < j < |p.statements| ::
              !(DeclaresLiteral(p.statements[i], p.fixups[id].original)
                && DeclaresLiteral(p.statements[j], p.fixups[id].original))
  {
    var e := p.fixups[id].original;
    if p.fixups[id].shared {
      var j := SharedIsDeclared(p, id);
    }
    forall i, j | 0 <= i < j < |p.statements|
      ensures !(DeclaresLiteral(p.statements[i], e) && DeclaresLiteral(p.statements[j], e))
    {
      if DeclaresLiteral(p.statements[i], e) && DeclaresLiteral(p.statements[j], e) {
        DeclaredOnce(p, id, i, j, d);
      }
    }
    if j :| 0 <= j < |p.statements| && DeclaresLiteral(p.statements[j], e) {
      DeclaringStatement(p, id, j, d);
    }
  }

  /** Every constant a factory mentions is declared before the factory. */
  lemma FactoryReadsEarlier(p: Pool, j: nat, n: string)
    requires FixupsDeclared(p) && ReadsOrdered(p) && StatementsOwned(p)
    requires j < |p.statements| && p.statements[j].rhs.Arrow?
    requires n in StmtReads(p.statements[j], p.fixups)
    ensures exists d :: 0 <= d < j && p.statements[d].name == n
  {
    assert Owned(p.statements[j], p);
    var id := FactoryReadIsShared(p.statements[j], p.fixups, n);
    var d := SharedIsDeclared(p, id);
    assert p.statements[d].name == n;
  }

  lemma FactoryReadIsShared(s: Stmt, fx: seq<FixupState>, n: string) returns (id: nat)
    requires s.rhs.Arrow? && (s.rhs.body.Arr? || s.rhs.body.Obj?) && BodyOf(s, Values(s.rhs.body), fx)
    requires n in StmtReads(s, fx)
    ensures id < |fx| && fx[id].shared && n in Reads(fx[id].resolved)
  {
    var rs := Values(s.rhs.body);
    var i := SlotOfRead(s.rhs.body, fx, n);
    assert SlotOk(rs[i], i, fx);
    if rs[i].ReadVar? {
      ParamNamed(rs, i);
      assert false;
    } else {
      id := rs[i].id;
    }
  }

  // ---------- Where the guarantee ends ----------

  /**
   * The request is over characters `a`, for strings inside other expressions and for quoted keys,
   * and spellings `d`: the literal if it is pooled, or the template of a factory. It mentions no
   * fix-up or constant that is yet to come.
   */
  ghost predicate RequestOver(p: Pool, r: Request, a: set<char>, d: Spellings) {
    WellTyped(r) &&
    match r
    case GetConst(literal, _) =>
      && (literal.Fixup? ==> literal.id < |p.fixups|)
      && (Pooled(literal) ==> InFamily(literal, a, d) && ScopedAt(Reads(literal), p.Next()))
    case GetFactory(literal) => Keyable(Template(literal)) ==> InFamily(Template(literal), a, d)
    case GetName(_, _) => true
  }

  ghost predicate RunOver(p: Pool, rs: seq<Request>, a: set<char>, d: Spellings) {
    && p.IdsInRange()
    && Typed(rs)
    && forall i :: 0 <= i < |rs| ==> RequestOverAt(p, rs, i, a, d)
  }

  ghost predicate RequestOverAt(p: Pool, rs: seq<Request>, i: nat, a: set<char>, d: Spellings)
    requires p.IdsInRange() && Typed(rs) && i < |rs|
  {
    RequestOver(After(p, rs, i), rs[i], a, d)
  }

  /** What `ConstantsKeepMeaning` and `FactoriesKeepMeaning` say of request `i` of a run. */
  ghost predicate KeepsMeaning(p: Pool, rs: seq<Request>, i: nat, outer: Scope, use: Scope)
    requires p.IdsInRange() && Typed(rs) && i < |rs|
  {
    match ReplyAt(p, rs, i)
    case Literal(e) =>
      rs[i].GetConst? && Meaning(e, Run(p, rs), outer) == Meaning(rs[i].literal, After(p, rs, i), outer)
    case Factory(f, args) =>
      && rs[i].GetFactory? && f.ReadVar?
      && Apply(f.name_, EvalAll(args, Run(p, rs).fixups, use), ScopeOf(Run(p, rs), outer))
         == Eval(Emit(rs[i].literal, Run(p, rs).fixups), use)
    case _ => true
  }

  ghost predicate AllKeepMeaning(closure: bool, rs: seq<Request>, outer: Scope, use: Scope)
    requires Typed(rs)
  {
    forall i :: 0 <= i < |rs| ==> KeepsMeaning(Empty(closure), rs, i, outer, use)
  }

  /**
   * The pool preserves meaning in every run of requests over an alphabet and spellings, which do not
   * limit strings that stand alone, in every scope, exactly when the alphabet lacks the double
   * quote, or both the comma and the colon, and the spellings are unmixed.
   */
  lemma MeaningIffAlphabetSafe(closure: bool, a: set<char>, d: Spellings)
    ensures (forall rs, outer: Scope, use: Scope ::
               RunOver(Empty(closure), rs, a, d) ==> AllKeepMeaning(closure, rs, outer, use))
       <==> SafeAlphabet(a) && Unmixed(d)
  {
    if SafeAlphabet(a) && Unmixed(d) {
      forall rs, outer: Scope, use: Scope | RunOver(Empty(closure), rs, a, d)
        ensures AllKeepMeaning(closure, rs, outer, use)
      {
        SafeRunKeepsMeaning(closure, a, d, rs, outer, use);
      }
    } else {
      var rs := LosingRun(closure, a, d);
      assert RunOver(Empty(closure), rs, a, d) && !AllKeepMeaning(closure, rs, TELLING, TELLING);
    }
  }

  lemma SafeRunKeepsMeaning(closure: bool, a: set<char>, d: Spellings, rs: seq<Request>, outer: Scope, use: Scope)
    requires RunOver(Empty(closure), rs, a, d) && SafeAlphabet(a) && Unmixed(d)
    ensures AllKeepMeaning(closure, rs, outer, use)
  {
    var p := Empty(closure);
    OverIsAdmissible(p, rs, a, d);
    EmptyInv(closure, d);
    forall i | 0 <= i < |rs| ensures KeepsMeaning(p, rs, i, outer, use) {
      if rs[i].GetConst? && ReplyAt(p, rs, i).Literal? {
        ConstantsKeepMeaning(p, rs, i, outer, d);
      } else if rs[i].GetFactory? && ReplyAt(p, rs, i).Factory? {
        FactoriesKeepMeaning(p, rs, i, outer, use, d);
      }
    }
  }

  lemma OverIsAdmissible(p: Pool, rs: seq<Request>, a: set<char>, d: Spellings)
    requires RunOver(p, rs, a, d) && SafeAlphabet(a) && Unmixed(d)
    ensures AdmissibleRun(p, rs, d)
  {
    forall i | 0 <= i < |rs| ensures AdmissibleAt(p, rs, i, d) {
      assert RequestOverAt(p, rs, i, a, d);
      match rs[i]
      case GetConst(literal, _) => if Pooled(literal) { FamilyIsSafe(literal, a, d); }
      case GetFactory(literal) => if Keyable(Template(literal)) { FamilyIsSafe(Template(literal), a, d); }
      case GetName(_, _) =>
    }
  }

  function NameValue(n: Option<string>): Value {
    if n.None? then VPrim(PNull) else VPrim(PStr(n.value))
  }

  /** A scope in which an import evaluates to its two names. */
  const TELLING: Scope :=
    Scope(map[], (m, n) => VArr([NameValue(m), NameValue(n)]), _ => VPrim(PUndefined))

  /** Colliding expressions read nothing, and a telling scope tells them apart. */
  lemma CollidingMean(x: Expr, y: Expr)
    requires Colliding(x, y)
    ensures Reads(x) == {} && Reads(y) == {} && Eval(x, TELLING) != Eval(y, TELLING)
  {
    if x.Arr? {
      assert |Eval(x, TELLING).items| == 2 && |Eval(y, TELLING).items| == 1;
    } else if x.Obj? {
      assert Eval(x, TELLING).fields[0].0 == "\":\"" && Eval(y, TELLING).fields[0].0 == "";
    } else if x.External? {
      assert Eval(x, TELLING).items[0] == NameValue(x.moduleName) && Eval(x, TELLING).items[1] == NameValue(x.name);
      assert Eval(y, TELLING).items[0] == NameValue(y.moduleName) && Eval(y, TELLING).items[1] == NameValue(y.name);
    }
  }

  /** An array of one element is pooled, and means its element. */
  lemma CollidingArrays(a: set<char>, d: Spellings, x: Expr, y: Expr)
    requires InFamily(x, a, d) && InFamily(y, a, d) && Key(x) == Key(y) && Colliding(x, y)
    ensures InFamily(Arr([x]), a, d) && InFamily(Arr([y]), a, d) && Key(Arr([x])) == Key(Arr([y]))
    ensures Reads(Arr([x])) == {} && Reads(Arr([y])) == {}
    ensures Eval(Arr([x]), TELLING) != Eval(Arr([y]), TELLING)
  {
    CollidingMean(x, y);
    hide Colliding;
    assert ItemKeys([x]) == Key(x) && ItemKeys([y]) == Key(y);
    assert Eval(Arr([x]), TELLING).items[0] == Eval(x, TELLING);
    assert Eval(Arr([y]), TELLING).items[0] == Eval(y, TELLING);
  }

  lemma LosingRun(closure: bool, a: set<char>, d: Spellings) returns (rs: seq<Request>)
    requires !SafeAlphabet(a) || !Unmixed(d)
    ensures RunOver(Empty(closure), rs, a, d) && !AllKeepMeaning(closure, rs, TELLING, TELLING)
  {
    hide Over, Spelled, Key, Colliding, Eval, AllKeepMeaning, Unmixed;
    var x, y := MixedCollision(a, d);
    CollidingArrays(a, d, x, y);
    rs := [GetConst(Arr([x]), true), GetConst(Arr([y]), true)];
    CollidingRun(closure, Arr([x]), Arr([y]), TELLING, TELLING);
  }

  lemma OneDeclaration(name: string, e: Expr, fx: seq<FixupState>, outer: Scope)
    requires Keyable(e)
    ensures Eval(ReadVar(name), DeclareAll([Declare(name, Direct(e))], fx, outer)) == Eval(e, outer)
  {
    var stmts := [Declare(name, Direct(e))];
    assert stmts[..0] == [];
    EmitKeyable(e, fx);
  }

  function AfterFirst(closure: bool, e: Expr): Pool
    requires Keyable(e)
  {
    Pool(closure, [Declare(ConstName(0), Direct(e))], map[Key(e) := 0],
         [FixupState(e, ReadVar(ConstName(0)), true)], map[], map[CONSTANT_PREFIX := 1])
  }

  lemma FirstShare(closure: bool, e: Expr)
    requires (e.Arr? || e.Obj?) && Keyable(e)
    ensures ConstLiteral(Empty(closure), e, true) == (AfterFirst(closure, e), Some(Fixup(0)))
  {
    var added := Empty(closure).(literals := map[Key(e) := 0], fixups := [FixupState(e, e, false)]);
    assert Empty(closure).literals[Key(e) := 0] == map[Key(e) := 0];
    assert Empty(closure).fixups + [FixupState(e, e, false)] == [FixupState(e, e, false)];
    var q := Share(added, 0, e);
    assert q.claimed == map[CONSTANT_PREFIX := 1];
    assert q.statements == AfterFirst(closure, e).statements;
    assert q.fixups == AfterFirst(closure, e).fixups;
  }

  /** The second of two literals that share a key is answered with an expression for the first. */
  lemma CollidingRun(closure: bool, x: Expr, y: Expr, outer: Scope, use: Scope)
    requires x.Arr? && y.Arr? && Keyable(x) && Keyable(y) && Key(x) == Key(y)
    requires Reads(x) == {} && Reads(y) == {} && Eval(x, outer) != Eval(y, outer)
    ensures var rs, p := [GetConst(x, true), GetConst(y, true)], Empty(closure);
            && After(p, rs, 0) == p && After(p, rs, 1) == AfterFirst(closure, x)
            && !AllKeepMeaning(closure, rs, outer, use)
  {
    FirstShare(closure, x);
    var rs, p, p1 := [GetConst(x, true), GetConst(y, true)], Empty(closure), AfterFirst(closure, x);
    assert After(p, rs, 1) == p1;
    assert ConstLiteral(p1, y, true) == (p1, Some(Fixup(0)));
    assert ReplyAt(p, rs, 1) == Literal(Fixup(0)) && Run(p, rs) == p1;
    SecondIsFirst(p1, x, y, outer);
    assert !KeepsMeaning(p, rs, 1, outer, use);
  }

  lemma SecondIsFirst(p1: Pool, x: Expr, y: Expr, outer: Scope)
    requires Keyable(x) && Keyable(y) && Reads(y) == {} && p1 == AfterFirst(p1.closure, x)
    requires Eval(x, outer) != Eval(y, outer)
    ensures Meaning(Fixup(0), p1, outer) != Meaning(y, p1, outer)
  {
    OneDeclaration(ConstName(0), x, p1.fixups, outer);
    EmitKeyable(y, p1.fixups);
    DeclareAllOuter(p1.statements, p1.fixups, outer);
    EvalFrame(y, ScopeOf(p1, outer), outer);
  }
}
