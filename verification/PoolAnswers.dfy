/** What requests are answered with and what they declare, in terms of the literals alone. */
module PoolAnswers {
  import opened KeyDomain
  import opened KeyFn
  import opened Names
  import opened Numerals
  import opened Occurrences
  import opened OutputAst
  import opened PoolInvariant
  import opened PoolMeaning
  import opened PoolModel
  import opened PoolPreserved
  import opened PoolTheorems
  import opened Wrappers

  // ---------- Which literals are pooled ----------

  /** Undefined, null, a boolean, a number, a string shorter than 50, or a fix-up. */
  predicate IsSimple(e: Expr) {
    match e
    case Lit(PStr(s)) => |s| < 50
    case Lit(_) => true
    case Fixup(_) => true
    case _ => false
  }

  predicate IsLong(e: Expr) {
    e.Lit? && e.value.PStr? && |e.value.s| >= 50
  }

  /**
   * A simple expression is answered by itself and leaves the pool alone; every other one with a
   * key is answered by a fix-up; for one without a key the request throws.
   */
  lemma AnsweredByItselfIff(p: Pool, e: Expr, force: bool)
    requires p.IdsInRange()
    ensures ConstLiteral(p, e, force) == (p, Some(e)) <==> IsSimple(e)
    ensures !IsSimple(e) && !Occurs(e, Keyless) ==>
              ConstLiteral(p, e, force).1.Some? && ConstLiteral(p, e, force).1.value.Fixup?
    ensures !IsSimple(e) && Occurs(e, Keyless) ==> ConstLiteral(p, e, force) == (p, None)
  {
    KeyableIff(e);
  }

  // ---------- What is declared, and under which names ----------

  /** A literal is returned from a function just if it is a long string in Closure mode. */
  predicate RightlyWrapped(s: Stmt, closure: bool) {
    s.rhs.Arrow? || (!IsSimple(s.rhs.e) && (s.rhs.Returning? <==> closure && IsLong(s.rhs.e)))
  }

  /** The constants declared by `q` but not by `p` have the next numbers, and no other name is claimed. */
  ghost predicate Adds(p: Pool, q: Pool) {
    && q.closure == p.closure && p.statements <= q.statements
    && Count(q.claimed, "_c") == Count(p.claimed, "_c") + |q.statements| - |p.statements|
    && (forall n :: n != "_c" ==> Count(q.claimed, n) == Count(p.claimed, n))
    && forall j :: |p.statements| <= j < |q.statements| ==>
         && q.statements[j].name == "_c" + Dec(Count(p.claimed, "_c") + j - |p.statements|)
         && RightlyWrapped(q.statements[j], p.closure)
  }

  lemma AddsNothing(p: Pool, q: Pool)
    requires q.closure == p.closure && q.statements == p.statements && q.claimed == p.claimed
    ensures Adds(p, q)
  {
  }

  lemma AddsTransitive(p: Pool, q: Pool, r: Pool)
    requires Adds(p, q) && Adds(q, r)
    ensures Adds(p, r)
  {
    hide RightlyWrapped, Dec;
    forall j | |p.statements| <= j < |r.statements|
      ensures r.statements[j].name == "_c" + Dec(Count(p.claimed, "_c") + j - |p.statements|)
      ensures RightlyWrapped(r.statements[j], p.closure)
    {
      if j < |q.statements| { assert r.statements[j] == q.statements[j]; }
    }
  }

  /** One new declaration under the next name. */
  lemma AddsOne(p: Pool, q: Pool, rhs: Rhs)
    requires q.closure == p.closure && RightlyWrapped(Declare("", rhs), p.closure)
    requires var name := "_c" + Dec(Count(p.claimed, "_c"));
             && q.statements == p.statements + [Declare(name, rhs)]
             && q.claimed == p.claimed["_c" := Count(p.claimed, "_c") + 1]
    ensures Adds(p, q)
  {
    hide Dec;
  }

  lemma ShareAdds(p: Pool, id: nat, literal: Expr)
    requires id < |p.fixups| && !IsSimple(literal)
    ensures Adds(p, Share(p, id, literal))
  {
    hide Dec, Adds;
    AddsOne(p, Share(p, id, literal), Share(p, id, literal).statements[|p.statements|].rhs);
  }

  lemma ConstLiteralAdds(p: Pool, literal: Expr, force: bool)
    requires p.IdsInRange()
    ensures Adds(p, ConstLiteral(p, literal, force).0)
  {
    hide Adds, Share, Key;
    AddsNothing(p, p);
    if !NotPooled(literal) && Keyable(literal) {
      if Key(literal) in p.literals {
        ShareAdds(p, p.literals[Key(literal)], literal);
      } else {
        var q := WithFixup(p, literal);
        AddsNothing(p, q);
        ShareAdds(q, |p.fixups|, literal);
        AddsTransitive(p, q, Share(q, |p.fixups|, literal));
      }
    }
  }

  lemma {:induction false} FactoryValuesAdds(p: Pool, vs: seq<Expr>, n: nat)
    requires n <= |vs| && p.IdsInRange()
    ensures Adds(p, FactoryValues(p, vs, n).0)
  {
    hide Adds, ConstLiteral;
    if n == 0 {
      AddsNothing(p, p);
    } else {
      FactoryValuesAdds(p, vs, n - 1);
      var q := FactoryValues(p, vs, n - 1).0;
      ConstLiteralAdds(q, vs[n - 1], true);
      AddsTransitive(p, q, ConstLiteral(q, vs[n - 1], true).0);
    }
  }

  lemma FactoryAdds(p: Pool, literal: Expr)
    requires p.IdsInRange() && (literal.Arr? || literal.Obj?)
    ensures Adds(p, LiteralFactory(p, literal).0)
  {
    hide Adds, FactoryValues, Template, Dec, Key, Keyable;
    AddsNothing(p, p);
    if Keyable(Template(literal)) && Key(Template(literal)) !in p.factories {
      var (q, rs) := FactoryValues(p, Values(literal), |Values(literal)|);
      FactoryValuesAdds(p, Values(literal), |Values(literal)|);
      if rs.Some? {
        var r := NewFactory(q, Key(Template(literal)), literal, rs.value).0;
        AddsOne(q, r, Arrow(ParamNames(rs.value), WithValues(literal, rs.value)));
        AddsTransitive(p, q, r);
      }
    }
  }

  /** How many of the first `k` requests are for names with a prefix. */
  function Requested(rs: seq<Request>, k: nat, prefix: string): nat
    requires k <= |rs|
  {
    if k == 0 then 0
    else Requested(rs, k - 1, prefix) + if rs[k - 1].GetName? && rs[k - 1].prefix == prefix then 1 else 0
  }

  /** Every request for a name counts for its prefix, and every declaration for `_c`. */
  lemma {:induction false} CountIs(closure: bool, rs: seq<Request>, k: nat, prefix: string)
    requires Typed(rs) && k <= |rs|
    ensures var p := After(Empty(closure), rs, k);
            && p.closure == closure
            && Count(p.claimed, prefix) == Requested(rs, k, prefix) + if prefix == "_c" then |p.statements| else 0
  {
    if k > 0 {
      CountIs(closure, rs, k - 1, prefix);
      hide LiteralFactory, ConstLiteral;
      StepAdds(After(Empty(closure), rs, k - 1), rs[k - 1]);
    }
  }

  lemma StepAdds(p: Pool, r: Request)
    requires p.IdsInRange() && WellTyped(r)
    ensures !r.GetName? ==> Adds(p, Step(p, r).0)
    ensures r.GetName? ==>
              && Step(p, r).0 == p.(claimed := p.claimed[r.prefix := Count(p.claimed, r.prefix) + 1])
              && Step(p, r).1 == Name(Form(r.prefix, Count(p.claimed, r.prefix), r.alwaysSuffix))
  {
    hide Adds, LiteralFactory, ConstLiteral;
    match r
    case GetConst(literal, force) => ConstLiteralAdds(p, literal, force);
    case GetFactory(literal) => FactoryAdds(p, literal);
    case GetName(_, _) =>
  }

  /**
   * In every run a request for a name gets the prefix followed by the number of earlier requests
   * for it, and of earlier declarations if it is `_c`; the number zero is left out if allowed.
   */
  lemma NameReply(closure: bool, rs: seq<Request>, i: nat)
    requires Typed(rs) && i < |rs| && rs[i].GetName?
    ensures var prefix := rs[i].prefix;
            var n := Requested(rs, i, prefix)
                     + if prefix == "_c" then |After(Empty(closure), rs, i).statements| else 0;
            ReplyAt(Empty(closure), rs, i)
            == Name(if n == 0 && !rs[i].alwaysSuffix then prefix else prefix + Dec(n))
  {
    hide After, Step, Requested;
    CountIs(closure, rs, i, rs[i].prefix);
    StepAdds(After(Empty(closure), rs, i), rs[i]);
  }

  /** The declaration has the number `j`, more by the requests for `_c` among the first `n`. */
  predicate NumberedAfter(s: Stmt, j: nat, rs: seq<Request>, n: nat)
    requires n <= |rs|
  {
    s.name == "_c" + Dec(j + Requested(rs, n, "_c"))
  }

  /** What the declarations of a run are called, and how they are wrapped. */
  ghost predicate Declared(closure: bool, rs: seq<Request>, k: nat, j: nat)
    requires Typed(rs) && k <= |rs| && j < |After(Empty(closure), rs, k).statements|
  {
    var s := After(Empty(closure), rs, k).statements[j];
    RightlyWrapped(s, closure) && exists n: nat :: n <= k && NumberedAfter(s, j, rs, n)
  }

  /** What a request declares, if anything. */
  lemma StepDeclares(p: Pool, r: Request, j: nat)
    requires p.IdsInRange() && WellTyped(r) && j < |Step(p, r).0.statements|
    ensures var s := Step(p, r).0.statements[j];
            if j < |p.statements| then s == p.statements[j]
            else
              && RightlyWrapped(s, p.closure)
              && s.name == "_c" + Dec(Count(p.claimed, "_c") + j - |p.statements|)
  {
    StepAdds(p, r);
    hide Step, Dec, RightlyWrapped;
  }

  lemma IsWellTyped(rs: seq<Request>, k: nat)
    requires Typed(rs) && k < |rs|
    ensures WellTyped(rs[k])
  {
  }

  lemma NewDeclaration(closure: bool, rs: seq<Request>, k: nat, j: nat)
    requires Typed(rs) && k < |rs|
    requires |After(Empty(closure), rs, k).statements| <= j < |After(Empty(closure), rs, k + 1).statements|
    ensures var s := After(Empty(closure), rs, k + 1).statements[j];
            RightlyWrapped(s, closure) && NumberedAfter(s, j, rs, k)
  {
    hide Step, Dec, RightlyWrapped, After, Requested, Count, Typed;
    assert WellTyped(rs[k]) by { IsWellTyped(rs, k); }
    CountIs(closure, rs, k, "_c");
    NextState(Empty(closure), rs, k);
    StepDeclares(After(Empty(closure), rs, k), rs[k], j);
  }

  lemma OldDeclaration(closure: bool, rs: seq<Request>, k: nat, j: nat)
    requires Typed(rs) && k < |rs| && j < |After(Empty(closure), rs, k).statements|
    ensures j < |After(Empty(closure), rs, k + 1).statements|
    ensures After(Empty(closure), rs, k + 1).statements[j] == After(Empty(closure), rs, k).statements[j]
  {
    NextState(Empty(closure), rs, k);
    StepAdds(After(Empty(closure), rs, k), rs[k]);
    hide Step, After, Dec, RightlyWrapped;
  }

  lemma NothingDeclared(closure: bool, rs: seq<Request>)
    requires Typed(rs)
    ensures After(Empty(closure), rs, 0).statements == []
  {
  }

  lemma Later(s: Stmt, j: nat, rs: seq<Request>, k: nat) returns (n: nat)
    requires k < |rs| && exists n: nat :: n <= k && NumberedAfter(s, j, rs, n)
    ensures n <= k + 1 && NumberedAfter(s, j, rs, n)
  {
    hide NumberedAfter;
    n :| n <= k && NumberedAfter(s, j, rs, n);
  }

  lemma {:induction false} RunDeclares(closure: bool, rs: seq<Request>, k: nat, j: nat)
    requires Typed(rs) && k <= |rs| && j < |After(Empty(closure), rs, k).statements|
    ensures Declared(closure, rs, k, j)
    decreases k
  {
    hide RightlyWrapped, NumberedAfter, After, Typed;
    NothingDeclared(closure, rs);
    if k > 0 {
      var s := After(Empty(closure), rs, k).statements[j];
      if j < |After(Empty(closure), rs, k - 1).statements| {
        OldDeclaration(closure, rs, k - 1, j);
        RunDeclares(closure, rs, k - 1, j);
        var n := Later(s, j, rs, k - 1);
      } else {
        NewDeclaration(closure, rs, k - 1, j);
      }
    }
  }

  lemma {:induction false} NotRequested(rs: seq<Request>, k: nat, prefix: string)
    requires k <= |rs| && forall i :: 0 <= i < k ==> !(rs[i].GetName? && rs[i].prefix == prefix)
    ensures Requested(rs, k, prefix) == 0
  {
    if k > 0 { NotRequested(rs, k - 1, prefix); }
  }

  /**
   * In every run that requests no name `_c` itself, the declarations are called `_c0`, `_c1` and
   * so on in order.
   */
  lemma DeclarationNames(closure: bool, rs: seq<Request>, j: nat)
    requires Typed(rs) && j < |Run(Empty(closure), rs).statements|
    requires forall i :: 0 <= i < |rs| ==> !(rs[i].GetName? && rs[i].prefix == "_c")
    ensures Run(Empty(closure), rs).statements[j].name == "_c" + Dec(j)
  {
    hide After, Dec;
    RunDeclares(closure, rs, |rs|, j);
    var s := Run(Empty(closure), rs).statements[j];
    var n: nat :| n <= |rs| && NumberedAfter(s, j, rs, n);
    NotRequested(rs, n, "_c");
  }

  /**
   * In every run a declaration returns from a function exactly when the pool is in Closure mode
   * and the literal declared is a string of at least 50 characters; simple ones are not declared.
   */
  lemma WrappedIffLong(closure: bool, rs: seq<Request>, j: nat)
    requires Typed(rs) && j < |Run(Empty(closure), rs).statements|
    requires !Run(Empty(closure), rs).statements[j].rhs.Arrow?
    ensures var rhs := Run(Empty(closure), rs).statements[j].rhs;
            (rhs.Returning? <==> closure && IsLong(rhs.e)) && !IsSimple(rhs.e)
  {
    hide After;
    RunDeclares(closure, rs, |rs|, j);
  }

  // ---------- Factories ----------

  /** How many values an array or object literal has. */
  function Size(e: Expr): nat
    requires e.Arr? || e.Obj?
  {
    if e.Arr? then |e.entries| else |e.fields|
  }

  function Part(e: Expr, i: nat): Expr
    requires (e.Arr? || e.Obj?) && i < Size(e)
  {
    if e.Arr? then e.entries[i] else e.fields[i].value
  }

  /** The positions of the values in which a variable, import, call or other kind occurs, in order. */
  ghost predicate VaryingAt(e: Expr, ps: seq<nat>)
    requires e.Arr? || e.Obj?
  {
    && (forall k, l :: 0 <= k < l < |ps| ==> ps[k] < ps[l])
    && (forall k :: 0 <= k < |ps| ==> ps[k] < Size(e))
    && forall i :: 0 <= i < Size(e) ==> (i in ps <==> Occurs(Part(e, i), Varying))
  }

  /** The arguments are exactly the values in which something varies, in order. */
  ghost predicate ArgumentsOf(e: Expr, ps: seq<nat>, args: seq<Expr>)
    requires e.Arr? || e.Obj?
  {
    && VaryingAt(e, ps) && |args| == |ps|
    && forall k :: 0 <= k < |ps| ==> args[k] == Part(e, ps[k])
  }

  /**
   * The value of a factory body for a value of the literal: the parameter of its position if
   * something varies in it, and otherwise the value itself, a literal, or its declared constant.
   */
  ghost predicate SlotFor(slot: Expr, v: Expr, i: nat, fx: seq<FixupState>) {
    if Occurs(v, Varying) then slot == ReadVar("a" + Dec(i))
    else
      || (slot.Lit? && slot == v)
      || (slot.Fixup? && slot.id < |fx| && fx[slot.id].shared && Same(fx[slot.id].original, v))
  }

  /** A function of the parameters of the given positions that builds such a literal. */
  ghost predicate Builds(s: Stmt, e: Expr, ps: seq<nat>, fx: seq<FixupState>)
    requires e.Arr? || e.Obj?
  {
    && s.rhs.Arrow? && |s.rhs.params| == |ps|
    && (forall k :: 0 <= k < |ps| ==> s.rhs.params[k] == "a" + Dec(ps[k]))
    && var body := s.rhs.body;
    && ((e.Arr? && body.Arr?) || (e.Obj? && body.Obj?)) && Size(body) == Size(e)
    && (e.Obj? ==> forall i :: 0 <= i < |e.fields| ==>
          body.fields[i].key == e.fields[i].key && body.fields[i].quoted == e.fields[i].quoted)
    && forall i :: 0 <= i < Size(e) ==> SlotFor(Part(body, i), Part(e, i), i, fx)
  }

  lemma PartIsValue(e: Expr, i: nat)
    requires (e.Arr? || e.Obj?) && i < Size(e)
    ensures |Values(e)| == Size(e) && Values(e)[i] == Part(e, i)
  {
  }

  /** The positions of the values that are not constant. */
  function Positions(vs: seq<Expr>, from: nat): (ps: seq<nat>)
    ensures |ps| == |NonConstant(vs)|
    ensures forall k :: 0 <= k < |ps| ==> from <= ps[k] < from + |vs|
    ensures forall k, l :: 0 <= k < l < |ps| ==> ps[k] < ps[l]
  {
    if vs == [] then []
    else (if IsConstant(vs[0]) then [] else [from]) + Positions(vs[1..], from + 1)
  }

  lemma PositionsCons(vs: seq<Expr>, from: nat)
    requires vs != []
    ensures var ps, rest := Positions(vs, from), Positions(vs[1..], from + 1);
            if IsConstant(vs[0]) then ps == rest && NonConstant(vs) == NonConstant(vs[1..])
            else ps == [from] + rest && NonConstant(vs) == [vs[0]] + NonConstant(vs[1..])
  {
    hide IsConstant;
  }

  lemma {:induction false} PositionsGive(vs: seq<Expr>, from: nat, k: nat)
    requires k < |Positions(vs, from)|
    ensures NonConstant(vs)[k] == vs[Positions(vs, from)[k] - from]
  {
    hide IsConstant, Positions, NonConstant;
    PositionsCons(vs, from);
    if IsConstant(vs[0]) {
      PositionsGive(vs[1..], from + 1, k);
    } else if k > 0 {
      PositionsGive(vs[1..], from + 1, k - 1);
    }
  }

  lemma {:induction false} PositionsAre(vs: seq<Expr>, from: nat, i: nat)
    requires i < |vs|
    ensures from + i in Positions(vs, from) <==> !IsConstant(vs[i])
  {
    hide IsConstant, Positions, NonConstant;
    PositionsCons(vs, from);
    var rest := Positions(vs[1..], from + 1);
    assert from !in rest;
    if i > 0 {
      PositionsAre(vs[1..], from + 1, i - 1);
      assert from + i == from + 1 + (i - 1);
      assert from + i in [from] + rest <==> from + i in rest;
    }
  }

  lemma {:induction false} ParamsOf(rs: seq<Expr>, vs: seq<Expr>, from: nat)
    requires Aligned(rs, vs, from)
    ensures |ParamNames(rs)| == |Positions(vs, from)|
    ensures forall k :: 0 <= k < |Positions(vs, from)| ==> ParamNames(rs)[k] == "a" + Dec(Positions(vs, from)[k])
  {
    hide Dec, IsConstant;
    if vs != [] {
      FirstParam(rs, vs, from);
      AlignedTail(rs, vs, from);
      ParamsOf(rs[1..], vs[1..], from + 1);
    }
  }

  lemma ArgumentsAre(e: Expr)
    requires e.Arr? || e.Obj?
    ensures ArgumentsOf(e, Positions(Values(e), 0), NonConstant(Values(e)))
  {
    hide IsConstant, Occurs, NonConstant, Values, Positions, Part, Size;
    var vs := Values(e);
    var ps := Positions(vs, 0);
    ValueCount(e);
    forall i | 0 <= i < Size(e) ensures i in ps <==> Occurs(Part(e, i), Varying) {
      PartIsValue(e, i);
      PositionsAre(vs, 0, i);
      ConstantIff(Part(e, i));
      assert 0 + i == i;
    }
    forall k | 0 <= k < |ps| ensures NonConstant(vs)[k] == Part(e, ps[k]) {
      PositionsGive(vs, 0, k);
      PartIsValue(e, ps[k]);
    }
  }

  lemma ValueCount(e: Expr)
    requires e.Arr? || e.Obj?
    ensures |Values(e)| == Size(e)
  {
  }

  lemma SlotIsFor(slot: Expr, v: Expr, i: nat, fx: seq<FixupState>)
    requires SlotOk(slot, i, fx)
    requires if IsConstant(v) then !slot.ReadVar? && Same(Origin(slot, fx), v) else slot == ReadVar(ParamName(i))
    ensures SlotFor(slot, v, i, fx)
  {
    hide Dec, Occurs;
    ConstantIff(v);
  }

  /** The factory under the key of a literal's template builds such literals. */
  lemma FactoryBuilds(s: Stmt, e: Expr, fx: seq<FixupState>, d: Spellings)
    requires e.Arr? || e.Obj?
    requires Keyable(Template(e)) && KeySafe(Template(e), d) && Unmixed(d)
    requires IsFactoryFor(s, Key(Template(e)), fx, d)
    ensures Builds(s, e, Positions(Values(e), 0), fx)
  {
    FactoryAligned(s, e, fx, d);
    var rs, vs := Values(s.rhs.body), Values(e);
    ParamsOf(rs, vs, 0);
    ValueCount(e);
    ValueCount(s.rhs.body);
    hide IsConstant, Occurs, Same, Dec, SlotFor, SlotOk, Origin, Values;
    forall i | 0 <= i < Size(e) ensures SlotFor(Part(s.rhs.body, i), Part(e, i), i, fx) {
      PartIsValue(e, i);
      PartIsValue(s.rhs.body, i);
      assert 0 + i == i;
      SlotIsFor(rs[i], vs[i], i, fx);
    }
  }

  /**
   * In every run a request for a factory is answered with the values of the literal in which a
   * variable, import, call or other kind occurs, in order, and with a declared function of just
   * their parameters that builds such a literal: from the parameter of its position for each of
   * those values, and from the value itself or its declared constant for every other one.
   */
  lemma FactoryAnswer(p: Pool, rs: seq<Request>, i: nat, d: Spellings)
    requires Inv(p, d) && AdmissibleRun(p, rs, d) && i < |rs|
    requires rs[i].GetFactory? && ReplyAt(p, rs, i).Factory?
    ensures exists ps, j ::
              && ArgumentsOf(rs[i].literal, ps, ReplyAt(p, rs, i).args)
              && 0 <= j < |Run(p, rs).statements|
              && ReplyAt(p, rs, i).f == ReadVar(Run(p, rs).statements[j].name)
              && Builds(Run(p, rs).statements[j], rs[i].literal, ps, Run(p, rs).fixups)
  {
    var e, end := rs[i].literal, Run(p, rs);
    FactoryReply(p, rs, i, d);
    RunKeeps(p, rs, |rs|, d);
    ArgumentsAre(e);
    var key := Key(Template(e));
    var j :| 0 <= j < |end.statements| && FactoryAt(end.factories[key], end.statements[j], key, end.fixups, d);
    FactoryBuilds(end.statements[j], e, end.fixups, d);
  }

  /** A factory is the one declared for the key of its template. */
  lemma FactoryOf(p: Pool, rs: seq<Request>, i: nat, d: Spellings) returns (j: nat)
    requires Inv(p, d) && AdmissibleRun(p, rs, d) && i < |rs|
    requires rs[i].GetFactory? && ReplyAt(p, rs, i).Factory?
    ensures Keyable(Template(rs[i].literal)) && KeySafe(Template(rs[i].literal), d)
    ensures var key, end := Key(Template(rs[i].literal)), Run(p, rs);
            && key in end.factories && ReplyAt(p, rs, i).f == end.factories[key]
            && j < |end.statements| && FactoryAt(end.factories[key], end.statements[j], key, end.fixups, d)
  {
    FactoryReply(p, rs, i, d);
    RunKeeps(p, rs, |rs|, d);
    var key, end := Key(Template(rs[i].literal)), Run(p, rs);
    j :| 0 <= j < |end.statements| && FactoryAt(end.factories[key], end.statements[j], key, end.fixups, d);
  }

  /** Two requests get the same factory exactly when their templates are the same but for run-time values. */
  lemma SameFactoryIffSameTemplate(p: Pool, rs: seq<Request>, i: nat, j: nat, d: Spellings)
    requires Inv(p, d) && AdmissibleRun(p, rs, d) && i < |rs| && j < |rs|
    requires rs[i].GetFactory? && ReplyAt(p, rs, i).Factory? && rs[j].GetFactory? && ReplyAt(p, rs, j).Factory?
    ensures ReplyAt(p, rs, i).f == ReplyAt(p, rs, j).f
       <==> Same(Template(rs[i].literal), Template(rs[j].literal))
  {
    var a := FactoryOf(p, rs, i, d);
    var b := FactoryOf(p, rs, j, d);
    RunKeeps(p, rs, |rs|, d);
    assert NamesDistinct(Run(p, rs).statements);
    hide Inv, AdmissibleRun, Run, ReplyAt, Template, Same, KeySafe, Unmixed, Key, Keyable;
    KeyInjective(Template(rs[i].literal), Template(rs[j].literal), d);
  }

  /** A request whose template was requested before declares nothing and leaves the pool alone. */
  lemma KnownFactoryDeclaresNothing(p: Pool, rs: seq<Request>, i: nat, j: nat, d: Spellings)
    requires Inv(p, d) && AdmissibleRun(p, rs, d) && i < j < |rs|
    requires rs[i].GetFactory? && ReplyAt(p, rs, i).Factory? && rs[j].GetFactory? && WellTyped(rs[j])
    requires Same(Template(rs[i].literal), Template(rs[j].literal))
    ensures After(p, rs, j + 1) == After(p, rs, j)
  {
    var q, e := After(p, rs, j), rs[j].literal;
    assert AdmissibleAt(p, rs, i, d);
    FactoryIsThere(p, rs, i, j, d);
    TemplateKeySafe(After(p, rs, i), rs[i].literal, d);
    SameSafe(Template(rs[i].literal), Template(e), d);
    hide After, Admissible, AdmissibleRun, Inv, Key, Keyable, KeySafe, Same, Template, LiteralFactory;
    HitLeaves(q, e);
    assert Step(q, rs[j]).0 == LiteralFactory(q, e).0;
    NextState(p, rs, j);
  }

  lemma NextState(p: Pool, rs: seq<Request>, j: nat)
    requires p.IdsInRange() && Typed(rs) && j < |rs|
    ensures After(p, rs, j + 1) == Step(After(p, rs, j), rs[j]).0
  {
    hide Step;
  }

  lemma HitLeaves(q: Pool, e: Expr)
    requires q.IdsInRange() && (e.Arr? || e.Obj?) && Keyable(Template(e)) && Key(Template(e)) in q.factories
    ensures LiteralFactory(q, e).0 == q
  {
    hide Key, Keyable, Template, FactoryValues, NewFactory;
  }

  lemma TemplateKeySafe(q: Pool, e: Expr, d: Spellings)
    requires Admissible(q, GetFactory(e), d) && Keyable(Template(e))
    ensures KeySafe(Template(e), d)
  {
  }

  lemma FactoryIsThere(p: Pool, rs: seq<Request>, i: nat, j: nat, d: Spellings)
    requires Inv(p, d) && AdmissibleRun(p, rs, d) && i < j < |rs|
    requires rs[i].GetFactory? && WellTyped(rs[i]) && ReplyAt(p, rs, i).Factory?
    ensures Keyable(Template(rs[i].literal)) && Key(Template(rs[i].literal)) in After(p, rs, j).factories
  {
    hide Inv, Key, Keyable, Template, LiteralFactory;
    RegisteredFactory(After(p, rs, i), rs[i].literal);
    NextState(p, rs, i);
    RunGrows(p, rs, i + 1, j, d);
  }
}
