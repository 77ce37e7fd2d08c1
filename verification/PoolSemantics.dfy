/** The meaning of emitted expressions and declarations. */
module PoolSemantics {
  import opened OutputAst
  import opened KeyFn
  import opened PoolModel
  import opened Wrappers

  /**
   * Values. An object is the list of its fields in the order written. `VFun` is the function
   * declared under a name, `VOther` any other value, and `VUnbound` the outcome of reading a
   * name that is not in scope.
   */
  datatype Value =
    | VPrim(p: Prim)
    | VArr(items: seq<Value>)
    | VObj(fields: seq<(string, Value)>)
    | VFun(name: string)
    | VOther(id: nat, typeName: string)
    | VUnbound(name: string)

  /** A declared name holds a value, a function that returns one, or a function over its scope. */
  datatype Binding =
    | Data(v: Value)
    | Thunk(v: Value)
    | Closure(params: seq<string>, body: Expr, vars: map<string, Binding>)

  type Vars = map<string, Binding>

  /** Variables, imported values, and the values of expressions of other kinds. */
  datatype Scope = Scope(
    vars: Vars,
    imports: (Option<string>, Option<string>) -> Value,
    dynamic: nat -> Value)

  function TypeName(v: Value): string {
    match v
    case VPrim(PUndefined) => "undefined"
    case VPrim(PNull) => "object"
    case VPrim(PBool(_)) => "boolean"
    case VPrim(PNum(_)) => "number"
    case VPrim(PStr(_)) => "string"
    case VArr(_) => "object"
    case VObj(_) => "object"
    case VFun(_) => "function"
    case VOther(_, t) => t
    case VUnbound(_) => "undefined"
  }

  function Lookup(name: string, vars: Vars): Value {
    if name !in vars then VUnbound(name)
    else match vars[name]
      case Data(v) => v
      case _ => VFun(name)
  }

  function Call(name: string, vars: Vars): Value {
    if name in vars && vars[name].Thunk? then vars[name].v else VUnbound(name)
  }

  /** The value of an emitted expression (one without fix-ups). */
  function Eval(e: Expr, sc: Scope): Value {
    match e
    case Lit(p) => VPrim(p)
    case Arr(es) => VArr(seq(|es|, i requires 0 <= i < |es| => Eval(es[i], sc)))
    case Obj(fs) => VObj(seq(|fs|, i requires 0 <= i < |fs| => (fs[i].key, Eval(fs[i].value, sc))))
    case External(m, n, _) => sc.imports(m, n)
    case ReadVar(n) => Lookup(n, sc.vars)
    case Typeof(x) => VPrim(PStr(TypeName(Eval(x, sc))))
    case Invoke(n) => Call(n, sc.vars)
    case Dynamic(d) => sc.dynamic(d)
    case Fixup(_) => VUnbound("")
  }

  /** The expression an emitter visits: every fix-up is replaced by what it currently resolves to. */
  function Emit(e: Expr, fx: seq<FixupState>): Expr {
    match e
    case Arr(es) => Arr(seq(|es|, i requires 0 <= i < |es| => Emit(es[i], fx)))
    case Obj(fs) =>
      Obj(seq(|fs|, i requires 0 <= i < |fs| => Entry(fs[i].key, Emit(fs[i].value, fx), fs[i].quoted)))
    case Typeof(x) => Typeof(Emit(x, fx))
    case Fixup(id) => if id < |fx| then fx[id].resolved else e
    case _ => e
  }

  function Bind(rhs: Rhs, fx: seq<FixupState>, sc: Scope): Binding {
    match rhs
    case Direct(e) => Data(Eval(Emit(e, fx), sc))
    case Returning(e) => Thunk(Eval(Emit(e, fx), sc))
    case Arrow(ps, body) => Closure(ps, Emit(body, fx), sc.vars)
  }

  /** The scope after the declarations were evaluated in order. */
  function DeclareAll(stmts: seq<Stmt>, fx: seq<FixupState>, outer: Scope): Scope {
    if stmts == [] then outer
    else
      var s := stmts[|stmts| - 1];
      var sc := DeclareAll(stmts[..|stmts| - 1], fx, outer);
      sc.(vars := sc.vars[s.name := Bind(s.rhs, fx, sc)])
  }

  /** The scope in which the output runs: `outer` extended by the pool's declarations. */
  function ScopeOf(p: Pool, outer: Scope): Scope {
    DeclareAll(p.statements, p.fixups, outer)
  }

  /** The value of an expression that mentions fix-ups, under the pool's declarations. */
  function Meaning(e: Expr, p: Pool, outer: Scope): Value {
    Eval(Emit(e, p.fixups), ScopeOf(p, outer))
  }

  function BindParams(params: seq<string>, args: seq<Value>, vars: Vars): Vars
    requires |params| == |args|
  {
    if params == [] then vars
    else BindParams(params[1..], args[1..], vars)[params[0] := Data(args[0])]
  }

  /** Calling the function bound to `name` with `args`. */
  function Apply(name: string, args: seq<Value>, sc: Scope): Value {
    if name in sc.vars && sc.vars[name].Closure? && |sc.vars[name].params| == |args| then
      var c := sc.vars[name];
      Eval(c.body, sc.(vars := BindParams(c.params, args, c.vars)))
    else VUnbound(name)
  }

  // ---------- Which names a value depends on ----------

  function Reads(e: Expr): set<string> {
    match e
    case Arr(es) => set x, n | x in es && n in Reads(x) :: n
    case Obj(fs) => set f, n | f in fs && n in Reads(f.value) :: n
    case ReadVar(n) => {n}
    case Typeof(x) => Reads(x)
    case Invoke(n) => {n}
    case _ => {}
  }

  ghost predicate Agree(a: Vars, b: Vars, names: set<string>) {
    forall n :: n in names ==> (n in a <==> n in b) && (n in a ==> a[n] == b[n])
  }

  /** A value depends only on the variables the expression reads. */
  lemma {:induction false} EvalFrame(e: Expr, a: Scope, b: Scope)
    requires a.imports == b.imports && a.dynamic == b.dynamic
    requires Agree(a.vars, b.vars, Reads(e))
    ensures Eval(e, a) == Eval(e, b)
  {
    match e
    case Arr(es) =>
      forall i | 0 <= i < |es| ensures Eval(es[i], a) == Eval(es[i], b) {
        assert Reads(es[i]) <= Reads(e);
        EvalFrame(es[i], a, b);
      }
    case Obj(fs) =>
      forall i | 0 <= i < |fs| ensures Eval(fs[i].value, a) == Eval(fs[i].value, b) {
        assert Reads(fs[i].value) <= Reads(e);
        EvalFrame(fs[i].value, a, b);
      }
    case Typeof(x) => EvalFrame(x, a, b);
    case _ =>
  }

  /** Run-time values of imports do not matter for the value or for what is read. */
  lemma {:induction false} EvalErased(e: Expr, sc: Scope)
    ensures Eval(Erase(e), sc) == Eval(e, sc)
  {
    match e
    case Arr(es) =>
      forall i | 0 <= i < |es| ensures Eval(Erase(e).entries[i], sc) == Eval(es[i], sc) {
        EvalErased(es[i], sc);
      }
    case Obj(fs) =>
      forall i | 0 <= i < |fs| ensures Eval(Erase(e).fields[i].value, sc) == Eval(fs[i].value, sc) {
        EvalErased(fs[i].value, sc);
      }
    case Typeof(x) => EvalErased(x, sc);
    case _ =>
  }

  lemma {:induction false} ReadsErased(e: Expr)
    ensures Reads(Erase(e)) == Reads(e)
  {
    match e
    case Arr(es) =>
      var xs := Erase(e).entries;
      forall i | 0 <= i < |es| ensures Reads(xs[i]) == Reads(es[i]) { ReadsErased(es[i]); }
      forall n ensures n in Reads(Erase(e)) <==> n in Reads(e) {
        if n in Reads(e) {
          var i :| 0 <= i < |es| && n in Reads(es[i]);
          assert xs[i] in xs;
        }
        if n in Reads(Erase(e)) {
          var i :| 0 <= i < |xs| && n in Reads(xs[i]);
          assert es[i] in es;
        }
      }
    case Obj(fs) =>
      var xs := Erase(e).fields;
      forall i | 0 <= i < |fs| ensures Reads(xs[i].value) == Reads(fs[i].value) { ReadsErased(fs[i].value); }
      forall n ensures n in Reads(Erase(e)) <==> n in Reads(e) {
        if n in Reads(e) {
          var i :| 0 <= i < |fs| && n in Reads(fs[i].value);
          assert xs[i] in xs;
        }
        if n in Reads(Erase(e)) {
          var i :| 0 <= i < |xs| && n in Reads(xs[i].value);
          assert fs[i] in fs;
        }
      }
    case Typeof(x) => ReadsErased(x);
    case _ =>
  }

  lemma SameMeans(x: Expr, y: Expr, sc: Scope)
    requires Same(x, y)
    ensures Eval(x, sc) == Eval(y, sc) && Reads(x) == Reads(y)
  {
    EvalErased(x, sc);
    EvalErased(y, sc);
    ReadsErased(x);
    ReadsErased(y);
  }

  /** A constant expression without fix-ups has the same value everywhere. */
  lemma {:induction false} ConstantEval(e: Expr, a: Scope, b: Scope)
    requires IsConstant(e) && Keyable(e)
    ensures Eval(e, a) == Eval(e, b)
  {
    match e
    case Arr(es) =>
      forall i | 0 <= i < |es| ensures Eval(es[i], a) == Eval(es[i], b) {
        assert es[i] in es;
        ConstantEval(es[i], a, b);
      }
    case Obj(fs) =>
      forall i | 0 <= i < |fs| ensures Eval(fs[i].value, a) == Eval(fs[i].value, b) {
        assert fs[i] in fs;
        ConstantEval(fs[i].value, a, b);
      }
    case Typeof(x) => ConstantEval(x, a, b);
    case _ =>
  }

  // ---------- Fix-ups inside expressions ----------

  function FixupsIn(e: Expr): set<nat> {
    match e
    case Arr(es) => set x, n | x in es && n in FixupsIn(x) :: n
    case Obj(fs) => set f, n | f in fs && n in FixupsIn(f.value) :: n
    case Typeof(x) => FixupsIn(x)
    case Fixup(id) => {id}
    case _ => {}
  }

  /** An expression that has a key contains no fix-up, so emitting it changes nothing. */
  lemma {:induction false} EmitKeyable(e: Expr, fx: seq<FixupState>)
    requires Keyable(e)
    ensures Emit(e, fx) == e && FixupsIn(e) == {}
  {
    match e
    case Arr(es) =>
      forall i | 0 <= i < |es| ensures Emit(es[i], fx) == es[i] {
        assert es[i] in es;
        EmitKeyable(es[i], fx);
      }
      forall x | x in es ensures FixupsIn(x) == {} { EmitKeyable(x, fx); }
      assert Emit(e, fx).entries == es;
    case Obj(fs) =>
      forall i | 0 <= i < |fs| ensures Emit(fs[i].value, fx) == fs[i].value {
        assert fs[i] in fs;
        EmitKeyable(fs[i].value, fx);
      }
      forall f | f in fs ensures FixupsIn(f.value) == {} { EmitKeyable(f.value, fx); }
      assert Emit(e, fx).fields == fs;
    case Typeof(x) => EmitKeyable(x, fx);
    case _ =>
  }

  /** Fix-ups in `ids` exist and resolve to the same expression in both lists. */
  ghost predicate SameFixups(a: seq<FixupState>, b: seq<FixupState>, ids: set<nat>) {
    forall id :: id in ids ==> id < |a| && id < |b| && a[id].resolved == b[id].resolved
  }

  lemma {:induction false} EmitStable(e: Expr, a: seq<FixupState>, b: seq<FixupState>)
    requires SameFixups(a, b, FixupsIn(e))
    ensures Emit(e, a) == Emit(e, b)
  {
    match e
    case Arr(es) =>
      forall i | 0 <= i < |es| ensures Emit(es[i], a) == Emit(es[i], b) {
        assert FixupsIn(es[i]) <= FixupsIn(e);
        EmitStable(es[i], a, b);
      }
    case Obj(fs) =>
      forall i | 0 <= i < |fs| ensures Emit(fs[i].value, a) == Emit(fs[i].value, b) {
        assert FixupsIn(fs[i].value) <= FixupsIn(e);
        EmitStable(fs[i].value, a, b);
      }
    case Typeof(x) => EmitStable(x, a, b);
    case _ =>
  }
}
