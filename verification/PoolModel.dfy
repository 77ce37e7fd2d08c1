/** What the operations of the constant pool compute, as functions of the pool's state. */
module PoolModel {
  import opened OutputAst
  import opened KeyFn
  import opened Names
  import opened Numerals
  import opened Wrappers

  const CONSTANT_PREFIX: string := "_c"
  const UNKNOWN: Expr := ReadVar("<unknown>")

  function ConstName(k: nat): string { CONSTANT_PREFIX + Dec(k) }

  /** The fields of one fix-up. */
  datatype FixupState = FixupState(original: Expr, resolved: Expr, shared: bool)

  /** What a declaration binds: a value, a function returning a value, or a literal factory. */
  datatype Rhs = Direct(e: Expr) | Returning(e: Expr) | Arrow(params: seq<string>, body: Expr)

  datatype Stmt = Declare(name: string, rhs: Rhs)

  datatype Pool = Pool(
    closure: bool,
    statements: seq<Stmt>,
    literals: map<string, nat>,
    fixups: seq<FixupState>,
    factories: map<string, Expr>,
    claimed: Claimed)
  {
    function Next(): nat { Count(claimed, CONSTANT_PREFIX) }

    predicate IdsInRange() {
      forall k :: k in literals ==> literals[k] < |fixups|
    }
  }

  function Empty(closure: bool): Pool {
    Pool(closure, [], map[], [], map[], map[])
  }

  function UniqueName(p: Pool, name: string, alwaysSuffix: bool): (string, Pool) {
    var n := Count(p.claimed, name);
    (Form(name, n, alwaysSuffix), p.(claimed := p.claimed[name := n + 1]))
  }

  /** Declares `literal` and makes fix-up `id` refer to the declaration. */
  function Share(p: Pool, id: nat, literal: Expr): Pool
    requires id < |p.fixups|
  {
    var (name, q) := UniqueName(p, CONSTANT_PREFIX, true);
    var wrapped := p.closure && IsLongString(literal);
    var rhs := if wrapped then Returning(literal) else Direct(literal);
    var usage := if wrapped then Invoke(name) else ReadVar(name);
    q.(statements := q.statements + [Declare(name, rhs)],
       fixups := q.fixups[id := q.fixups[id].(resolved := usage, shared := true)])
  }

  predicate NotPooled(literal: Expr) {
    (literal.Lit? && !IsLongString(literal)) || literal.Fixup?
  }

  /** Literals that get a fix-up. */
  predicate Pooled(e: Expr) {
    !NotPooled(e) && Keyable(e)
  }

  /** `getConstLiteral`: `None` when producing the key throws. */
  function ConstLiteral(p: Pool, literal: Expr, forceShared: bool): (r: (Pool, Option<Expr>))
    requires p.IdsInRange()
    ensures r.0.IdsInRange() && r.0.factories == p.factories
  {
    if NotPooled(literal) then (p, Some(literal))
    else if !Keyable(literal) then (p, None)
    else
      var key := Key(literal);
      if key in p.literals then
        var id := p.literals[key];
        (if p.fixups[id].shared then p else Share(p, id, literal), Some(Fixup(id)))
      else
        var id := |p.fixups|;
        var q := p.(literals := p.literals[key := id],
                    fixups := p.fixups + [FixupState(literal, literal, false)]);
        (if forceShared then Share(q, id, literal) else q, Some(Fixup(id)))
  }

  function ParamName(i: nat): string { "a" + Dec(i) }

  /** The literal with every non-constant value replaced by the unknown-value variable. */
  function Template(literal: Expr): (t: Expr)
    requires literal.Arr? || literal.Obj?
    ensures (t.Arr? <==> literal.Arr?) && (t.Obj? <==> literal.Obj?)
  {
    var vs := Values(literal);
    WithValues(literal, seq(|vs|, i requires 0 <= i < |vs| => if IsConstant(vs[i]) then vs[i] else UNKNOWN))
  }

  function NonConstant(vs: seq<Expr>): seq<Expr> {
    if vs == [] then []
    else (if IsConstant(vs[0]) then [] else [vs[0]]) + NonConstant(vs[1..])
  }

  function ParamNames(vs: seq<Expr>): seq<string> {
    if vs == [] then []
    else (if vs[0].ReadVar? then [vs[0].name_] else []) + ParamNames(vs[1..])
  }

  /**
   * The pool and the factory's values after the first `n` values were processed in order; `None`
   * when one of the requests for constants throws, which ends the processing.
   */
  function FactoryValues(p: Pool, vs: seq<Expr>, n: nat): (r: (Pool, Option<seq<Expr>>))
    requires n <= |vs| && p.IdsInRange()
    ensures r.0.IdsInRange() && r.0.factories == p.factories
    ensures r.1.Some? ==> |r.1.value| == n
  {
    if n == 0 then (p, Some([]))
    else
      var (q, rs) := FactoryValues(p, vs, n - 1);
      if rs.None? then (q, None)
      else if IsConstant(vs[n - 1]) then
        var (q', r) := ConstLiteral(q, vs[n - 1], true);
        (q', if r.Some? then Some(rs.value + [r.value]) else None)
      else (q, Some(rs.value + [ReadVar(ParamName(n - 1))]))
  }

  /** Nothing is processed after a request that throws. */
  lemma {:induction false} ThrownStays(p: Pool, vs: seq<Expr>, k: nat, n: nat)
    requires k <= n <= |vs| && p.IdsInRange() && FactoryValues(p, vs, k).1.None?
    ensures FactoryValues(p, vs, n) == FactoryValues(p, vs, k)
  {
    if k < n { ThrownStays(p, vs, k, n - 1); }
  }

  /** Declares a function of the parameters among `rs`, and registers it under the key. */
  function NewFactory(q: Pool, key: string, literal: Expr, rs: seq<Expr>): (Pool, Expr)
    requires (literal.Arr? || literal.Obj?) && |rs| == |Values(literal)|
  {
    var (name, q') := UniqueName(q, CONSTANT_PREFIX, true);
    var decl := Declare(name, Arrow(ParamNames(rs), WithValues(literal, rs)));
    (q'.(statements := q'.statements + [decl], factories := q'.factories[key := ReadVar(name)]), ReadVar(name))
  }

  /** `getLiteralFactory`: the factory and its arguments; `None` when producing the key throws. */
  function LiteralFactory(p: Pool, literal: Expr): (r: (Pool, Option<(Expr, seq<Expr>)>))
    requires p.IdsInRange()
    requires literal.Arr? || literal.Obj?
    ensures r.0.IdsInRange()
  {
    if !Keyable(Template(literal)) then (p, None)
    else
      var key, vs := Key(Template(literal)), Values(literal);
      if key in p.factories then (p, Some((p.factories[key], NonConstant(vs))))
      else
        var (q, rs) := FactoryValues(p, vs, |vs|);
        if rs.None? then (q, None)
        else
          var (q', f) := NewFactory(q, key, literal, rs.value);
          (q', Some((f, NonConstant(vs))))
  }

  // ---------- Sequences of requests ----------

  datatype Request =
    | GetConst(literal: Expr, forceShared: bool)
    | GetFactory(literal: Expr)
    | GetName(prefix: string, alwaysSuffix: bool)

  datatype Reply =
    | Literal(e: Expr)
    | Factory(f: Expr, args: seq<Expr>)
    | Name(name: string)
    | Threw

  predicate WellTyped(r: Request) {
    r.GetFactory? ==> r.literal.Arr? || r.literal.Obj?
  }

  function Step(p: Pool, r: Request): (res: (Pool, Reply))
    requires p.IdsInRange() && WellTyped(r)
    ensures res.0.IdsInRange()
  {
    match r
    case GetConst(literal, force) =>
      var (q, e) := ConstLiteral(p, literal, force);
      (q, if e.Some? then Literal(e.value) else Threw)
    case GetFactory(literal) =>
      var (q, f) := LiteralFactory(p, literal);
      (q, if f.Some? then Factory(f.value.0, f.value.1) else Threw)
    case GetName(prefix, always) =>
      var (name, q) := UniqueName(p, prefix, always);
      (q, Name(name))
  }

  predicate Typed(rs: seq<Request>) {
    forall r :: r in rs ==> WellTyped(r)
  }

  /** The pool after the first `k` requests of a sequence. */
  function After(p: Pool, rs: seq<Request>, k: nat): (q: Pool)
    requires k <= |rs| && p.IdsInRange() && Typed(rs)
    ensures q.IdsInRange()
  {
    if k == 0 then p else Step(After(p, rs, k - 1), rs[k - 1]).0
  }

  /** The pool after a sequence of requests. */
  function Run(p: Pool, rs: seq<Request>): (q: Pool)
    requires p.IdsInRange() && Typed(rs)
    ensures q.IdsInRange()
  {
    After(p, rs, |rs|)
  }

  /** The reply to the `i`-th request of a sequence. */
  function ReplyAt(p: Pool, rs: seq<Request>, i: nat): Reply
    requires i < |rs| && p.IdsInRange() && Typed(rs)
  {
    Step(After(p, rs, i), rs[i]).1
  }
}
