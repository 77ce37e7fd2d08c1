/** What holds in every state the constant pool can reach. */
module PoolInvariant {
  import opened OutputAst
  import opened KeyDomain
  import opened KeyFn
  import opened Numerals
  import opened PoolModel
  import opened PoolSemantics

  /** The expression reads no constant name the pool has yet to hand out. */
  ghost predicate ScopedAt(names: set<string>, next: nat) {
    forall k :: k >= next ==> ConstName(k) !in names
  }

  /** `s` is the declaration of the shared fix-up `f`. */
  ghost predicate Declares(s: Stmt, f: FixupState) {
    || (s.rhs.Direct? && Same(s.rhs.e, f.original) && f.resolved == ReadVar(s.name))
    || (s.rhs.Returning? && Same(s.rhs.e, f.original) && f.resolved == Invoke(s.name))
  }

  ghost predicate LiteralsIndexed(p: Pool, d: Spellings) {
    && (forall k :: k in p.literals ==> p.literals[k] < |p.fixups|)
    && (forall id :: 0 <= id < |p.fixups| ==>
          var e := p.fixups[id].original;
          KeySafe(e, d) && Keyable(e) && Key(e) in p.literals && p.literals[Key(e)] == id)
    && (forall k :: k in p.literals ==>
          var e := p.fixups[p.literals[k]].original; Keyable(e) && Key(e) == k)
  }

  ghost predicate FixupsDeclared(p: Pool) {
    forall id :: 0 <= id < |p.fixups| ==>
      var f := p.fixups[id];
      if f.shared then exists j :: 0 <= j < |p.statements| && Declares(p.statements[j], f)
      else f.resolved == f.original
  }

  predicate Named(name: string, k: nat) { name == ConstName(k) }

  ghost predicate NamedBelow(name: string, n: nat) { exists k: nat :: k < n && Named(name, k) }

  ghost predicate NamedFrom(name: string, n: nat) { exists k: nat :: k >= n && Named(name, k) }

  ghost predicate NamesFresh(p: Pool) {
    && (forall j :: 0 <= j < |p.statements| ==> NamedBelow(p.statements[j].name, p.Next()))
    && (forall i, j :: 0 <= i < j < |p.statements| ==> p.statements[i].name != p.statements[j].name)
  }

  function StmtReads(s: Stmt, fx: seq<FixupState>): set<string> {
    match s.rhs
    case Direct(e) => Reads(Emit(e, fx))
    case Returning(e) => Reads(Emit(e, fx))
    case Arrow(ps, body) => Reads(Emit(body, fx)) - set n | n in ps
  }

  /** No declaration reads its own name or a later one, or a name still to be handed out. */
  ghost predicate ReadsOrdered(p: Pool) {
    && (forall i, j :: 0 <= i <= j < |p.statements| ==>
          p.statements[j].name !in StmtReads(p.statements[i], p.fixups))
    && (forall j :: 0 <= j < |p.statements| ==> ScopedAt(StmtReads(p.statements[j], p.fixups), p.Next()))
    && (forall id :: 0 <= id < |p.fixups| ==> ScopedAt(Reads(p.fixups[id].original), p.Next()))
  }

  ghost predicate SharedIds(ids: set<nat>, fx: seq<FixupState>) {
    forall id :: id in ids ==> id < |fx| && fx[id].shared
  }

  /** A value in a factory body: parameter `i`, a plain literal, or a shared constant. */
  ghost predicate SlotOk(v: Expr, i: nat, fx: seq<FixupState>) {
    || v == ReadVar(ParamName(i))
    || v.Lit?
    || (v.Fixup? && v.id < |fx| && fx[v.id].shared && IsConstant(fx[v.id].original))
  }

  ghost predicate BodyOf(s: Stmt, rs: seq<Expr>, fx: seq<FixupState>) {
    && s.rhs.Arrow? && (s.rhs.body.Arr? || s.rhs.body.Obj?)
    && Values(s.rhs.body) == rs && s.rhs.params == ParamNames(rs)
    && forall i :: 0 <= i < |rs| ==> SlotOk(rs[i], i, fx)
  }

  /**
   * A declared literal belongs to the shared fix-up of its key, and is wrapped in a function just
   * for long strings in Closure mode; a factory body mentions parameters and shared constants.
   */
  ghost predicate StatementsOwned(p: Pool) {
    forall j :: 0 <= j < |p.statements| ==> Owned(p.statements[j], p)
  }

  ghost predicate Owned(s: Stmt, p: Pool) {
    match s.rhs
    case Arrow(_, body) =>
      (body.Arr? || body.Obj?) && BodyOf(s, Values(body), p.fixups) && SharedIds(FixupsIn(body), p.fixups)
    case Direct(e) => OwnedLiteral(s, e, p) && !(p.closure && IsLongString(e))
    case Returning(e) => OwnedLiteral(s, e, p) && p.closure && IsLongString(e)
  }

  ghost predicate OwnedLiteral(s: Stmt, e: Expr, p: Pool) {
    && Keyable(e) && Key(e) in p.literals
    && var id := p.literals[Key(e)];
       id < |p.fixups| && p.fixups[id].shared && Same(p.fixups[id].original, e) && Declares(s, p.fixups[id])
  }

  /** The value of the template that a value of a factory body came from. */
  function Origin(v: Expr, fx: seq<FixupState>): Expr {
    if v.ReadVar? then UNKNOWN
    else if v.Fixup? && v.id < |fx| then fx[v.id].original
    else v
  }

  function Origins(vs: seq<Expr>, fx: seq<FixupState>): (os: seq<Expr>)
    ensures |os| == |vs|
  {
    seq(|vs|, i requires 0 <= i < |vs| => Origin(vs[i], fx))
  }

  ghost predicate IsFactoryFor(s: Stmt, key: string, fx: seq<FixupState>, d: Spellings) {
    && s.rhs.Arrow? && (s.rhs.body.Arr? || s.rhs.body.Obj?)
    && var vs := Values(s.rhs.body);
    && (forall i :: 0 <= i < |vs| ==> SlotOk(vs[i], i, fx))
    && s.rhs.params == ParamNames(vs)
    && var t := WithValues(s.rhs.body, Origins(vs, fx));
       KeySafe(t, d) && Keyable(t) && Key(t) == key
  }

  ghost predicate FactoryAt(f: Expr, s: Stmt, key: string, fx: seq<FixupState>, d: Spellings) {
    f == ReadVar(s.name) && IsFactoryFor(s, key, fx, d)
  }

  ghost predicate FactoriesDeclared(p: Pool, d: Spellings) {
    forall key :: key in p.factories ==>
      exists j :: 0 <= j < |p.statements| && FactoryAt(p.factories[key], p.statements[j], key, p.fixups, d)
  }

  ghost predicate Inv(p: Pool, d: Spellings) {
    && LiteralsIndexed(p, d)
    && FixupsDeclared(p)
    && NamesFresh(p)
    && ReadsOrdered(p)
    && StatementsOwned(p)
    && FactoriesDeclared(p, d)
  }

  // ---------- How a state may change ----------

  /** Nothing declared or shared is ever changed, and new declarations use new names. */
  ghost predicate Grows(p: Pool, q: Pool) {
    && q.closure == p.closure
    && p.Next() <= q.Next()
    && p.statements <= q.statements
    && |p.fixups| <= |q.fixups|
    && (forall id :: 0 <= id < |p.fixups| ==>
          && q.fixups[id].original == p.fixups[id].original
          && (p.fixups[id].shared ==> q.fixups[id] == p.fixups[id]))
    && (forall j :: |p.statements| <= j < |q.statements| ==> NamedFrom(q.statements[j].name, p.Next()))
    && (forall k :: k in p.literals ==> k in q.literals && q.literals[k] == p.literals[k])
    && (forall k :: k in p.factories ==> k in q.factories && q.factories[k] == p.factories[k])
  }

  lemma GrowsTransitive(p: Pool, q: Pool, r: Pool)
    requires Grows(p, q) && Grows(q, r)
    ensures Grows(p, r)
  {
    forall j | |p.statements| <= j < |r.statements|
      ensures NamedFrom(r.statements[j].name, p.Next())
    {
      if j < |q.statements| {
        assert r.statements[j] == q.statements[j];
      } else {
        assert NamedFrom(r.statements[j].name, q.Next());
      }
    }
  }

  lemma ConstNameInjective(i: nat, j: nat)
    requires ConstName(i) == ConstName(j)
    ensures i == j
  {
    assert ConstName(i)[2..] == Dec(i) && ConstName(j)[2..] == Dec(j);
    DecInjective(i, j);
  }

  // ---------- Requests a client may make ----------

  /**
   * A literal that is pooled lies in the domain where keys identify expressions, and reads no
   * constant that is yet to be declared.
   */
  ghost predicate Admissible(p: Pool, r: Request, d: Spellings) {
    WellTyped(r) &&
    match r
    case GetConst(literal, _) =>
      && (literal.Fixup? ==> literal.id < |p.fixups|)
      && (Pooled(literal) ==> KeySafe(literal, d) && ScopedAt(Reads(literal), p.Next()))
    case GetFactory(literal) =>
      Keyable(Template(literal)) ==> KeySafe(Template(literal), d)
    case GetName(_, _) => true
  }
}
