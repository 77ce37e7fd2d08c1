/** The expressions the pool returns mean what was asked for, whatever is asked for later. */
module PoolMeaning {
  import opened OutputAst
  import opened KeyDomain
  import opened KeyFn
  import opened Numerals
  import opened PoolModel
  import opened PoolSemantics
  import opened PoolInvariant
  import opened PoolPreserved

  // ---------- Evaluating declarations in order ----------

  lemma {:induction false} DeclareAllOuter(stmts: seq<Stmt>, fx: seq<FixupState>, outer: Scope)
    ensures DeclareAll(stmts, fx, outer).imports == outer.imports
    ensures DeclareAll(stmts, fx, outer).dynamic == outer.dynamic
  {
    if stmts != [] {
      DeclareAllOuter(stmts[..|stmts| - 1], fx, outer);
    }
  }

  /** Statements from `j` on leave a name alone that none of them declares. */
  lemma {:induction false} Untouched(stmts: seq<Stmt>, fx: seq<FixupState>, outer: Scope, j: nat, names: set<string>)
    requires j <= |stmts|
    requires forall i :: j <= i < |stmts| ==> stmts[i].name !in names
    ensures Agree(DeclareAll(stmts[..j], fx, outer).vars, DeclareAll(stmts, fx, outer).vars, names)
    decreases |stmts| - j
  {
    if j == |stmts| {
      assert stmts[..j] == stmts;
    } else {
      Untouched(stmts, fx, outer, j + 1, names);
      assert stmts[..j + 1][..j] == stmts[..j];
    }
  }

  ghost predicate NamesDistinct(stmts: seq<Stmt>) {
    forall i, j :: 0 <= i < j < |stmts| ==> stmts[i].name != stmts[j].name
  }

  /** A declared name is bound to what its statement evaluated to. */
  lemma BoundAt(stmts: seq<Stmt>, fx: seq<FixupState>, outer: Scope, j: nat)
    requires j < |stmts| && NamesDistinct(stmts)
    ensures var vars := DeclareAll(stmts, fx, outer).vars;
            && stmts[j].name in vars
            && vars[stmts[j].name] == Bind(stmts[j].rhs, fx, DeclareAll(stmts[..j], fx, outer))
  {
    Untouched(stmts, fx, outer, j + 1, {stmts[j].name});
    assert stmts[..j + 1][..j] == stmts[..j];
    assert stmts[j].name in {stmts[j].name};
  }

  /** An expression that reads nothing declared from `j` on has the value it had before `j`. */
  lemma EvalBefore(p: Pool, outer: Scope, e: Expr, j: nat)
    requires j <= |p.statements|
    requires forall i :: j <= i < |p.statements| ==> p.statements[i].name !in Reads(e)
    ensures Eval(e, DeclareAll(p.statements[..j], p.fixups, outer)) == Eval(e, ScopeOf(p, outer))
  {
    Untouched(p.statements, p.fixups, outer, j, Reads(e));
    DeclareAllOuter(p.statements[..j], p.fixups, outer);
    DeclareAllOuter(p.statements, p.fixups, outer);
    EvalFrame(e, DeclareAll(p.statements[..j], p.fixups, outer), ScopeOf(p, outer));
  }

  /** Where the declaration of a shared fix-up is in scope, its usage has the declared value. */
  lemma UsageValue(stmts: seq<Stmt>, fx: seq<FixupState>, outer: Scope, d: nat, f: FixupState, sc: Scope)
    requires d < |stmts| && NamesDistinct(stmts) && Declares(stmts[d], f) && Keyable(f.original)
    requires Agree(sc.vars, DeclareAll(stmts, fx, outer).vars, {stmts[d].name})
    ensures Eval(f.resolved, sc) == Eval(f.original, DeclareAll(stmts[..d], fx, outer))
  {
    var e := stmts[d].rhs.e;
    BoundAt(stmts, fx, outer, d);
    SameKeyable(e, f.original);
    EmitKeyable(e, fx);
    SameMeans(e, f.original, DeclareAll(stmts[..d], fx, outer));
    assert stmts[d].name in {stmts[d].name};
  }

  lemma DeclarationReads(s: Stmt, f: FixupState, fx: seq<FixupState>)
    requires Declares(s, f) && Keyable(f.original)
    ensures StmtReads(s, fx) == Reads(f.original)
  {
    SameKeyable(s.rhs.e, f.original);
    EmitKeyable(s.rhs.e, fx);
    ReadsErased(s.rhs.e);
    ReadsErased(f.original);
  }

  /** A fix-up, shared or not, means the literal it was created for. */
  lemma FixupMeaning(p: Pool, outer: Scope, id: nat, d: Spellings)
    requires LiteralsIndexed(p, d) && FixupsDeclared(p) && NamesFresh(p) && ReadsOrdered(p) && id < |p.fixups|
    ensures Meaning(Fixup(id), p, outer) == Eval(p.fixups[id].original, ScopeOf(p, outer))
  {
    var f := p.fixups[id];
    assert Keyable(f.original);
    if f.shared {
      var j :| 0 <= j < |p.statements| && Declares(p.statements[j], f);
      SharedMeaning(p, outer, f, j);
    }
  }

  lemma SharedMeaning(p: Pool, outer: Scope, f: FixupState, j: nat)
    requires NamesFresh(p) && ReadsOrdered(p) && j < |p.statements|
    requires Declares(p.statements[j], f) && Keyable(f.original)
    ensures Eval(f.resolved, ScopeOf(p, outer)) == Eval(f.original, ScopeOf(p, outer))
  {
    DeclarationReads(p.statements[j], f, p.fixups);
    forall i | j <= i < |p.statements| ensures p.statements[i].name !in Reads(f.original) {
      assert p.statements[i].name !in StmtReads(p.statements[j], p.fixups);
    }
    UsageValue(p.statements, p.fixups, outer, j, f, ScopeOf(p, outer));
    EvalBefore(p, outer, f.original, j);
  }

  // ---------- Values do not change as the pool grows ----------

  lemma BindStable(p: Pool, q: Pool, sc: Scope, j: nat)
    requires StatementsOwned(p) && Grows(p, q) && j < |p.statements|
    ensures Bind(p.statements[j].rhs, p.fixups, sc) == Bind(p.statements[j].rhs, q.fixups, sc)
  {
    assert Owned(p.statements[j], p);
    match p.statements[j].rhs
    case Direct(e) => EmitKeyable(e, p.fixups); EmitKeyable(e, q.fixups);
    case Returning(e) => EmitKeyable(e, p.fixups); EmitKeyable(e, q.fixups);
    case Arrow(_, body) => EmitStable(body, p.fixups, q.fixups);
  }

  lemma {:induction false} DeclareAllStable(p: Pool, q: Pool, outer: Scope, n: nat)
    requires StatementsOwned(p) && Grows(p, q) && n <= |p.statements|
    ensures DeclareAll(p.statements[..n], p.fixups, outer) == DeclareAll(q.statements[..n], q.fixups, outer)
  {
    if n > 0 {
      assert p.statements[..n][..n - 1] == p.statements[..n - 1];
      assert q.statements[..n][..n - 1] == q.statements[..n - 1];
      DeclareAllStable(p, q, outer, n - 1);
      BindStable(p, q, DeclareAll(p.statements[..n - 1], p.fixups, outer), n - 1);
    }
  }

  lemma ValueStable(p: Pool, q: Pool, outer: Scope, e: Expr, d: Spellings)
    requires Inv(p, d) && Grows(p, q) && ScopedAt(Reads(e), p.Next())
    ensures Eval(e, ScopeOf(p, outer)) == Eval(e, ScopeOf(q, outer))
  {
    var n := |p.statements|;
    forall i | n <= i < |q.statements| ensures q.statements[i].name !in Reads(e) {
      assert NamedFrom(q.statements[i].name, p.Next());
    }
    EvalBefore(q, outer, e, n);
    DeclareAllStable(p, q, outer, n);
    assert p.statements[..n] == p.statements;
  }

  // ---------- Literal factories ----------

  lemma {:induction false} ParamNameInjective(i: nat, j: nat)
    requires ParamName(i) == ParamName(j)
    ensures i == j
  {
    assert ParamName(i)[1..] == Dec(i) && ParamName(j)[1..] == Dec(j);
    DecInjective(i, j);
  }

  /** `rs` has parameter `from + i` exactly where value `i` is not constant. */
  ghost predicate Aligned(rs: seq<Expr>, vs: seq<Expr>, from: nat) {
    && |rs| == |vs|
    && forall i :: 0 <= i < |rs| ==>
         if IsConstant(vs[i]) then !rs[i].ReadVar? else rs[i] == ReadVar(ParamName(from + i))
  }

  lemma AlignedTail(rs: seq<Expr>, vs: seq<Expr>, from: nat)
    requires Aligned(rs, vs, from) && rs != []
    ensures Aligned(rs[1..], vs[1..], from + 1)
    ensures !IsConstant(vs[0]) ==> rs[0] == ReadVar(ParamName(from))
  {
    forall i | 0 <= i < |rs| - 1
      ensures if IsConstant(vs[1..][i]) then !rs[1..][i].ReadVar? else rs[1..][i] == ReadVar(ParamName(from + 1 + i))
    {
      assert rs[1..][i] == rs[i + 1] && vs[1..][i] == vs[i + 1];
      assert from + 1 + i == from + (i + 1);
    }
    assert !IsConstant(vs[0]) ==> rs[0] == ReadVar(ParamName(from + 0));
  }

  predicate IsParamName(n: string) {
    n != "" && n[0] == 'a'
  }

  lemma {:induction false} ParamsMatchArgs(rs: seq<Expr>, vs: seq<Expr>, from: nat)
    requires Aligned(rs, vs, from)
    ensures |ParamNames(rs)| == |NonConstant(vs)|
    ensures forall n :: n in ParamNames(rs) ==> IsParamName(n)
  {
    if rs != [] {
      AlignedTail(rs, vs, from);
      ParamsMatchArgs(rs[1..], vs[1..], from + 1);
    }
  }

  function EvalAll(es: seq<Expr>, fx: seq<FixupState>, sc: Scope): (vs: seq<Value>)
    ensures |vs| == |es|
  {
    seq(|es|, i requires 0 <= i < |es| => Eval(Emit(es[i], fx), sc))
  }

  lemma EvalAllTail(es: seq<Expr>, fx: seq<FixupState>, sc: Scope)
    requires es != []
    ensures EvalAll(es, fx, sc)[0] == Eval(Emit(es[0], fx), sc)
    ensures EvalAll(es, fx, sc)[1..] == EvalAll(es[1..], fx, sc)
  {
  }

  /** What the first value of a literal contributes to parameters and arguments. */
  lemma FirstParam(rs: seq<Expr>, vs: seq<Expr>, from: nat)
    requires Aligned(rs, vs, from) && rs != []
    ensures IsConstant(vs[0]) ==> ParamNames(rs) == ParamNames(rs[1..]) && NonConstant(vs) == NonConstant(vs[1..])
    ensures !IsConstant(vs[0]) ==>
              && ParamNames(rs) != [] && NonConstant(vs) != []
              && ParamNames(rs)[0] == ParamName(from) && ParamNames(rs)[1..] == ParamNames(rs[1..])
              && NonConstant(vs)[0] == vs[0] && NonConstant(vs)[1..] == NonConstant(vs[1..])
  {
    AlignedTail(rs, vs, from);
  }

  lemma LookupParam(ps: seq<string>, args: seq<Value>, vars: Vars, n: string)
    requires |ps| == |args| && ps != []
    ensures Lookup(n, BindParams(ps, args, vars))
         == if n == ps[0] then args[0] else Lookup(n, BindParams(ps[1..], args[1..], vars))
  {
  }

  /** Each parameter is bound to the value of the argument at its position. */
  lemma {:induction false} ParamBound(
      rs: seq<Expr>, vs: seq<Expr>, from: nat, fx: seq<FixupState>, use: Scope, vars: Vars, i: nat)
    requires Aligned(rs, vs, from) && i < |vs| && !IsConstant(vs[i])
    requires |ParamNames(rs)| == |NonConstant(vs)|
    ensures Lookup(ParamName(from + i), BindParams(ParamNames(rs), EvalAll(NonConstant(vs), fx, use), vars))
         == Eval(Emit(vs[i], fx), use)
  {
    hide Eval, Emit, BindParams;
    var n := ParamName(from + i);
    FirstParam(rs, vs, from);
    if !IsConstant(vs[0]) {
      EvalAllTail(NonConstant(vs), fx, use);
      LookupParam(ParamNames(rs), EvalAll(NonConstant(vs), fx, use), vars, n);
    }
    if i > 0 {
      AlignedTail(rs, vs, from);
      ParamBound(rs[1..], vs[1..], from + 1, fx, use, vars, i - 1);
      assert from + 1 + (i - 1) == from + i;
      if n == ParamName(from) { ParamNameInjective(from + i, from); }
    }
  }

  /** Binding parameters hides no other name. */
  lemma {:induction false} ParamsHideNothing(ps: seq<string>, args: seq<Value>, vars: Vars, n: string)
    requires |ps| == |args| && n !in ps
    ensures n in BindParams(ps, args, vars) <==> n in vars
    ensures n in vars ==> BindParams(ps, args, vars)[n] == vars[n]
  {
    if ps != [] {
      ParamsHideNothing(ps[1..], args[1..], vars, n);
    }
  }

  /** Literals that are equal but for run-time values have such values, under equal keys. */
  lemma SameParts(x: Expr, y: Expr)
    requires (x.Arr? || x.Obj?) && (y.Arr? || y.Obj?) && Same(x, y)
    ensures (x.Arr? <==> y.Arr?) && |Values(x)| == |Values(y)|
    ensures forall i :: 0 <= i < |Values(x)| ==> Same(Values(x)[i], Values(y)[i])
    ensures SameFieldNames(x, y)
  {
    if x.Arr? {
      assert |Erase(x).entries| == |Erase(y).entries|;
      forall i | 0 <= i < |x.entries| ensures Same(x.entries[i], y.entries[i]) {
        assert Erase(x).entries[i] == Erase(y).entries[i];
      }
    } else {
      assert |Erase(x).fields| == |Erase(y).fields|;
      forall i | 0 <= i < |x.fields|
        ensures Same(x.fields[i].value, y.fields[i].value) && SameFieldName(x.fields[i], y.fields[i])
      {
        assert Erase(x).fields[i] == Erase(y).fields[i];
      }
    }
  }

  predicate SameFieldName(x: Entry, y: Entry) {
    x.key == y.key && x.quoted == y.quoted
  }

  /** If both literals are objects, their fields have the same keys, quoted alike. */
  ghost predicate SameFieldNames(x: Expr, y: Expr) {
    x.Obj? && y.Obj? ==>
      |x.fields| == |y.fields| && forall i :: 0 <= i < |x.fields| ==> SameFieldName(x.fields[i], y.fields[i])
  }

  lemma SameNames(x: Expr, t: Expr, t': Expr, y: Expr)
    requires x.Obj? == t.Obj? == t'.Obj? == y.Obj?
    requires SameFieldNames(t, x) && SameFieldNames(t, t') && SameFieldNames(t', y)
    ensures SameFieldNames(x, y)
  {
    if x.Obj? {
      forall i | 0 <= i < |x.fields| ensures SameFieldName(x.fields[i], y.fields[i]) {
        assert SameFieldName(t.fields[i], x.fields[i]) && SameFieldName(t'.fields[i], y.fields[i]);
      }
    }
  }

  /** The values of a literal line up with the slots of the factory that serves its key. */
  lemma FactoryAligned(s: Stmt, literal: Expr, fx: seq<FixupState>, d: Spellings)
    requires literal.Arr? || literal.Obj?
    requires Keyable(Template(literal)) && KeySafe(Template(literal), d) && Unmixed(d)
    requires IsFactoryFor(s, Key(Template(literal)), fx, d)
    ensures var rs, vs := Values(s.rhs.body), Values(literal);
            && Aligned(rs, vs, 0)
            && (literal.Arr? <==> s.rhs.body.Arr?)
            && SameFieldNames(literal, s.rhs.body)
            && (forall i :: 0 <= i < |vs| && IsConstant(vs[i]) ==> Same(Origin(rs[i], fx), vs[i]))
  {
    var rs, vs := Values(s.rhs.body), Values(literal);
    var t, t' := Template(literal), WithValues(s.rhs.body, Origins(rs, fx));
    KeyInjective(t, t', d);
    SameParts(t, t');
    SameNames(literal, t, t', s.rhs.body);
    forall i | 0 <= i < |vs|
      ensures IsConstant(vs[i]) ==> !rs[i].ReadVar? && Same(Origin(rs[i], fx), vs[i])
      ensures !IsConstant(vs[i]) ==> rs[i] == ReadVar(ParamName(0 + i))
    {
      assert Same(Values(t)[i], Values(t')[i]);
      SlotAligned(rs[i], vs[i], i, fx);
    }
  }

  lemma SlotAligned(r: Expr, v: Expr, i: nat, fx: seq<FixupState>)
    requires SlotOk(r, i, fx) && Same(if IsConstant(v) then v else UNKNOWN, Origin(r, fx))
    ensures IsConstant(v) ==> !r.ReadVar? && Same(Origin(r, fx), v)
    ensures !IsConstant(v) ==> r == ReadVar(ParamName(i))
  {
  }

  /** A constant that a declaration reads is declared before it. */
  lemma DeclaredBefore(p: Pool, j: nat, id: nat) returns (d: nat)
    requires FixupsDeclared(p) && ReadsOrdered(p)
    requires j < |p.statements| && id < |p.fixups| && p.fixups[id].shared
    requires Reads(p.fixups[id].resolved) <= StmtReads(p.statements[j], p.fixups)
    ensures d < j && Declares(p.statements[d], p.fixups[id])
  {
    d :| 0 <= d < |p.statements| && Declares(p.statements[d], p.fixups[id]);
    assert p.statements[d].name in Reads(p.fixups[id].resolved);
  }

  /** A declared constant in a factory body has the value of its literal when the factory runs. */
  lemma ConstantInBody(
      stmts: seq<Stmt>, fx: seq<FixupState>, outer: Scope, j: nat, d: nat, f: FixupState, sc: Scope, use: Scope)
    requires d < j < |stmts| && NamesDistinct(stmts) && Declares(stmts[d], f)
    requires IsConstant(f.original) && Keyable(f.original)
    requires Agree(sc.vars, DeclareAll(stmts[..j], fx, outer).vars, Reads(f.resolved))
    ensures Eval(f.resolved, sc) == Eval(f.original, use)
  {
    var before := stmts[..j];
    assert before[..d] == stmts[..d] && before[d] == stmts[d];
    assert Reads(f.resolved) == {stmts[d].name};
    UsageValue(before, fx, outer, d, f, sc);
    ConstantEval(f.original, use, DeclareAll(before[..d], fx, outer));
  }

  /** The scope inside a call of the factory declared by statement `j`. */
  function CallScope(p: Pool, outer: Scope, j: nat, args: seq<Value>): Scope
    requires j < |p.statements| && p.statements[j].rhs.Arrow? && |p.statements[j].rhs.params| == |args|
  {
    ScopeOf(p, outer).(vars := BindParams(p.statements[j].rhs.params, args,
                                          DeclareAll(p.statements[..j], p.fixups, outer).vars))
  }

  /** A constant slot of a factory body has the value of the literal it stands for. */
  lemma ConstantSlotValue(p: Pool, outer: Scope, j: nat, args: seq<Value>, i: nat, use: Scope)
    requires FixupsDeclared(p) && NamesFresh(p) && ReadsOrdered(p) && j < |p.statements| && p.statements[j].rhs.Arrow?
    requires p.statements[j].rhs.body.Arr? || p.statements[j].rhs.body.Obj?
    requires |p.statements[j].rhs.params| == |args|
    requires forall n :: n in p.statements[j].rhs.params ==> IsParamName(n)
    requires i < |Values(p.statements[j].rhs.body)|
    requires var r := Values(p.statements[j].rhs.body)[i];
             !r.ReadVar? && SlotOk(r, i, p.fixups) && Keyable(Origin(r, p.fixups))
    ensures var r := Values(p.statements[j].rhs.body)[i];
            Eval(Emit(r, p.fixups), CallScope(p, outer, j, args)) == Eval(Origin(r, p.fixups), use)
  {
    var s, fx := p.statements[j], p.fixups;
    var r := Values(s.rhs.body)[i];
    if r.Fixup? {
      var f := fx[r.id];
      var before := DeclareAll(p.statements[..j], fx, outer).vars;
      ConstantReads(p, j, i);
      var d := DeclaredBefore(p, j, r.id);
      forall n | n in Reads(f.resolved) {
        ParamsHideNothing(s.rhs.params, args, before, n);
      }
      ConstantInBody(p.statements, fx, outer, j, d, f, CallScope(p, outer, j, args), use);
    }
  }

  /** Each value of the literal has a slot: its parameter, or a constant equal to it. */
  ghost predicate Serves(s: Stmt, literal: Expr, fx: seq<FixupState>)
    requires literal.Arr? || literal.Obj?
  {
    && s.rhs.Arrow? && (s.rhs.body.Arr? || s.rhs.body.Obj?)
    && var rs, vs := Values(s.rhs.body), Values(literal);
    && Aligned(rs, vs, 0) && s.rhs.params == ParamNames(rs)
    && forall i :: 0 <= i < |vs| && IsConstant(vs[i]) ==>
         SlotOk(rs[i], i, fx) && Same(Origin(rs[i], fx), vs[i]) && Keyable(vs[i])
  }

  lemma FactoryServes(s: Stmt, literal: Expr, fx: seq<FixupState>, d: Spellings)
    requires literal.Arr? || literal.Obj?
    requires Keyable(Template(literal)) && KeySafe(Template(literal), d) && Unmixed(d)
    requires IsFactoryFor(s, Key(Template(literal)), fx, d)
    ensures Serves(s, literal, fx)
  {
    FactoryAligned(s, literal, fx, d);
    TemplateSafe(literal, d);
    var rs, vs := Values(s.rhs.body), Values(literal);
    forall i | 0 <= i < |vs| && IsConstant(vs[i]) ensures SlotOk(rs[i], i, fx) && Keyable(vs[i]) {
      assert vs[i] in vs;
    }
  }

  /** A slot of a factory body, in the scope of a call, has the value of the literal's value. */
  lemma SlotValue(p: Pool, outer: Scope, j: nat, literal: Expr, use: Scope, i: nat)
    requires FixupsDeclared(p) && NamesFresh(p) && ReadsOrdered(p) && j < |p.statements|
    requires (literal.Arr? || literal.Obj?) && Serves(p.statements[j], literal, p.fixups) && i < |Values(literal)|
    requires |p.statements[j].rhs.params| == |NonConstant(Values(literal))|
    ensures Eval(Emit(Values(p.statements[j].rhs.body)[i], p.fixups),
                 CallScope(p, outer, j, EvalAll(NonConstant(Values(literal)), p.fixups, use)))
         == Eval(Emit(Values(literal)[i], p.fixups), use)
  {
    var s, fx := p.statements[j], p.fixups;
    var rs, vs := Values(s.rhs.body), Values(literal);
    var args := EvalAll(NonConstant(vs), fx, use);
    if IsConstant(vs[i]) {
      ParamsMatchArgs(rs, vs, 0);
      EmitKeyable(vs[i], fx);
      SameKeyable(Origin(rs[i], fx), vs[i]);
      ConstantSlotValue(p, outer, j, args, i, use);
      SameMeans(Origin(rs[i], fx), vs[i], use);
    } else {
      ParamSlotValue(rs[i], i, CallScope(p, outer, j, args), fx);
      ParamBound(rs, vs, 0, fx, use, DeclareAll(p.statements[..j], fx, outer).vars, i);
    }
  }

  lemma ParamSlotValue(r: Expr, i: nat, sc: Scope, fx: seq<FixupState>)
    requires r == ReadVar(ParamName(0 + i))
    ensures Eval(Emit(r, fx), sc) == Lookup(ParamName(0 + i), sc.vars)
  {
  }

  /** The name a shared constant is used by is read by the factory and is not a parameter. */
  lemma ConstantReads(p: Pool, j: nat, i: nat)
    requires FixupsDeclared(p) && NamesFresh(p) && j < |p.statements|
    requires p.statements[j].rhs.Arrow? && (p.statements[j].rhs.body.Arr? || p.statements[j].rhs.body.Obj?)
    requires forall n :: n in p.statements[j].rhs.params ==> IsParamName(n)
    requires i < |Values(p.statements[j].rhs.body)|
    requires var v := Values(p.statements[j].rhs.body)[i];
             v.Fixup? && v.id < |p.fixups| && p.fixups[v.id].shared
    ensures var f := p.fixups[Values(p.statements[j].rhs.body)[i].id];
            && Reads(f.resolved) <= StmtReads(p.statements[j], p.fixups)
            && forall n :: n in Reads(f.resolved) ==> n !in p.statements[j].rhs.params
  {
    hide FixupsDeclared, NamesFresh;
    var s := p.statements[j];
    var v := Values(s.rhs.body)[i];
    var f := p.fixups[v.id];
    var n := UsageName(p, v.id);
    assert Emit(v, p.fixups) == f.resolved;
    ReadOfSlot(s.rhs.body, p.fixups, i, n);
  }

  /** A shared constant is used by its name, which starts with an underscore. */
  lemma UsageName(p: Pool, id: nat) returns (n: string)
    requires FixupsDeclared(p) && NamesFresh(p) && id < |p.fixups| && p.fixups[id].shared
    ensures Reads(p.fixups[id].resolved) == {n} && n != "" && n[0] == '_'
  {
    var f := p.fixups[id];
    var d :| 0 <= d < |p.statements| && Declares(p.statements[d], f);
    n := p.statements[d].name;
    assert NamedBelow(n, p.Next());
    var k: nat :| k < p.Next() && Named(n, k);
  }

  lemma ReadOfSlot(body: Expr, fx: seq<FixupState>, i: nat, n: string)
    requires (body.Arr? || body.Obj?) && i < |Values(body)| && n in Reads(Emit(Values(body)[i], fx))
    ensures n in Reads(Emit(body, fx))
  {
    var e := Emit(body, fx);
    if body.Arr? {
      assert e.entries[i] in e.entries && n in Reads(e.entries[i]);
    } else {
      assert e.fields[i] in e.fields && n in Reads(e.fields[i].value);
    }
  }

  /**
   * Calling the factory registered for a literal's key with the values of the literal's
   * non-constant parts yields the value of the literal, wherever the call is made and whichever
   * literal the factory was first made for.
   */
  lemma FactoryMeaning(p: Pool, outer: Scope, literal: Expr, use: Scope, d: Spellings)
    requires Inv(p, d) && (literal.Arr? || literal.Obj?)
    requires Keyable(Template(literal)) && KeySafe(Template(literal), d) && Unmixed(d)
    requires Key(Template(literal)) in p.factories
    ensures var f := p.factories[Key(Template(literal))];
            f.ReadVar? &&
            Apply(f.name_, EvalAll(NonConstant(Values(literal)), p.fixups, use), ScopeOf(p, outer))
            == Eval(Emit(literal, p.fixups), use)
  {
    var key := Key(Template(literal));
    var j :| 0 <= j < |p.statements| && FactoryAt(p.factories[key], p.statements[j], key, p.fixups, d);
    CallMeaning(p, outer, j, literal, use, d);
  }

  lemma CallMeaning(p: Pool, outer: Scope, j: nat, literal: Expr, use: Scope, d: Spellings)
    requires Inv(p, d) && j < |p.statements| && (literal.Arr? || literal.Obj?)
    requires Keyable(Template(literal)) && KeySafe(Template(literal), d) && Unmixed(d)
    requires IsFactoryFor(p.statements[j], Key(Template(literal)), p.fixups, d)
    ensures Apply(p.statements[j].name, EvalAll(NonConstant(Values(literal)), p.fixups, use), ScopeOf(p, outer))
         == Eval(Emit(literal, p.fixups), use)
  {
    var s, fx := p.statements[j], p.fixups;
    var rs, vs := Values(s.rhs.body), Values(literal);
    var args := EvalAll(NonConstant(vs), fx, use);
    FactoryAligned(s, literal, fx, d);
    FactoryServes(s, literal, fx, d);
    ParamsMatchArgs(rs, vs, 0);
    BoundAt(p.statements, fx, outer, j);
    var sc := CallScope(p, outer, j, args);
    forall i | 0 <= i < |vs| ensures Eval(Emit(rs[i], fx), sc) == Eval(Emit(vs[i], fx), use) {
      SlotValue(p, outer, j, literal, use, i);
    }
    SameValues(s.rhs.body, literal, fx, sc, use);
  }

  lemma SameValues(body: Expr, literal: Expr, fx: seq<FixupState>, sc: Scope, use: Scope)
    requires (body.Arr? && literal.Arr?) || (body.Obj? && literal.Obj?)
    requires |Values(body)| == |Values(literal)|
    requires SameFieldNames(literal, body)
    requires forall i :: 0 <= i < |Values(body)| ==>
               Eval(Emit(Values(body)[i], fx), sc) == Eval(Emit(Values(literal)[i], fx), use)
    ensures Eval(Emit(body, fx), sc) == Eval(Emit(literal, fx), use)
  {
    var a, b := Eval(Emit(body, fx), sc), Eval(Emit(literal, fx), use);
    if body.Arr? {
      forall i | 0 <= i < |Values(body)| ensures a.items[i] == b.items[i] {
        assert Eval(Emit(Values(body)[i], fx), sc) == Eval(Emit(Values(literal)[i], fx), use);
      }
      assert a.items == b.items;
    } else {
      forall i | 0 <= i < |Values(body)| ensures a.fields[i] == b.fields[i] {
        assert Eval(Emit(Values(body)[i], fx), sc) == Eval(Emit(Values(literal)[i], fx), use);
      }
      assert a.fields == b.fields;
    }
  }
}
