/** Every operation of the pool keeps its invariant. */
module PoolPreserved {
  import opened OutputAst
  import opened KeyDomain
  import opened KeyFn
  import opened PoolModel
  import opened PoolSemantics
  import opened PoolInvariant

  lemma EmptyInv(closure: bool, d: Spellings)
    ensures Inv(Empty(closure), d)
  {
  }

  /** Reads of existing statements do not change when fix-ups are shared or added. */
  lemma StmtReadsStable(p: Pool, q: Pool)
    requires StatementsOwned(p) && Grows(p, q)
    ensures forall j :: 0 <= j < |p.statements| ==>
              StmtReads(p.statements[j], q.fixups) == StmtReads(p.statements[j], p.fixups)
  {
    forall j | 0 <= j < |p.statements|
      ensures StmtReads(p.statements[j], q.fixups) == StmtReads(p.statements[j], p.fixups)
    {
      var s := p.statements[j];
      assert Owned(s, p);
      match s.rhs
      case Direct(e) => EmitKeyable(e, p.fixups); EmitKeyable(e, q.fixups);
      case Returning(e) => EmitKeyable(e, p.fixups); EmitKeyable(e, q.fixups);
      case Arrow(_, body) => EmitStable(body, p.fixups, q.fixups);
    }
  }

  lemma UniqueNameKeeps(p: Pool, name: string, always: bool, d: Spellings)
    requires Inv(p, d)
    ensures Inv(UniqueName(p, name, always).1, d) && Grows(p, UniqueName(p, name, always).1)
  {
    var q := UniqueName(p, name, always).1;
    ClaimKeeps(p, name, always, d);
    hide LiteralsIndexed, FixupsDeclared, NamesFresh, ReadsOrdered, FactoriesDeclared, Owned, Grows;
    OwnedStable(p, q);
    FactoriesStable(p, q, d);
    FactoriesKept(p, q, d);
  }

  lemma ClaimKeeps(p: Pool, name: string, always: bool, d: Spellings)
    requires LiteralsIndexed(p, d) && FixupsDeclared(p) && NamesFresh(p) && ReadsOrdered(p)
    ensures var q := UniqueName(p, name, always).1;
            LiteralsIndexed(q, d) && FixupsDeclared(q) && NamesFresh(q) && ReadsOrdered(q) && Grows(p, q)
  {
    hide Declares;
    var q := UniqueName(p, name, always).1;
    assert p.Next() <= q.Next();
  }

  /** Adding the fix-up of a literal whose key is new. */
  lemma {:induction false} AddFixupKeeps(p: Pool, literal: Expr, d: Spellings)
    requires Inv(p, d) && KeySafe(literal, d) && Keyable(literal) && ScopedAt(Reads(literal), p.Next())
    requires Key(literal) !in p.literals
    ensures Inv(WithFixup(p, literal), d) && Grows(p, WithFixup(p, literal))
  {
    var q := WithFixup(p, literal);
    AddFixupOrdered(p, literal);
    hide LiteralsIndexed, FixupsDeclared, NamesFresh, ReadsOrdered, FactoriesDeclared, Owned, Grows;
    OwnedStable(p, q);
    FactoriesStable(p, q, d);
    FactoriesKept(p, q, d);
    AddFixupIndexed(p, literal, d);
  }

  lemma {:induction false} AddFixupOrdered(p: Pool, literal: Expr)
    requires NamesFresh(p) && ReadsOrdered(p) && StatementsOwned(p)
    requires Keyable(literal) && Key(literal) !in p.literals && ScopedAt(Reads(literal), p.Next())
    ensures Grows(p, WithFixup(p, literal))
    ensures NamesFresh(WithFixup(p, literal)) && ReadsOrdered(WithFixup(p, literal))
  {
    hide Owned;
    StmtReadsStable(p, WithFixup(p, literal));
  }

  function WithFixup(p: Pool, literal: Expr): Pool
    requires Keyable(literal)
  {
    p.(literals := p.literals[Key(literal) := |p.fixups|],
       fixups := p.fixups + [FixupState(literal, literal, false)])
  }

  lemma AddFixupIndexed(p: Pool, literal: Expr, d: Spellings)
    requires LiteralsIndexed(p, d) && FixupsDeclared(p) && KeySafe(literal, d) && Keyable(literal)
    requires Key(literal) !in p.literals
    ensures LiteralsIndexed(WithFixup(p, literal), d) && FixupsDeclared(WithFixup(p, literal))
  {
    var q := WithFixup(p, literal);
    forall id | 0 <= id < |p.fixups| && q.fixups[id].shared
      ensures exists j :: 0 <= j < |q.statements| && Declares(q.statements[j], q.fixups[id])
    {
      var j :| 0 <= j < |p.statements| && Declares(p.statements[j], p.fixups[id]);
    }
  }

  lemma OwnedStable(p: Pool, q: Pool)
    requires StatementsOwned(p) && Grows(p, q)
    ensures forall j :: 0 <= j < |p.statements| ==> Owned(q.statements[j], q)
  {
    forall j | 0 <= j < |p.statements| ensures Owned(q.statements[j], q) {
      var s := p.statements[j];
      assert Owned(s, p) && q.statements[j] == s;
      if s.rhs.Arrow? {
        var rs := Values(s.rhs.body);
        forall i | 0 <= i < |rs| ensures SlotOk(rs[i], i, q.fixups) {
          assert SlotOk(rs[i], i, p.fixups);
        }
      }
    }
  }

  lemma FactoryStable(p: Pool, q: Pool, s: Stmt, key: string, d: Spellings)
    requires Grows(p, q) && IsFactoryFor(s, key, p.fixups, d)
    ensures IsFactoryFor(s, key, q.fixups, d)
  {
    var vs := Values(s.rhs.body);
    forall i | 0 <= i < |vs|
      ensures SlotOk(vs[i], i, q.fixups) && Origin(vs[i], q.fixups) == Origin(vs[i], p.fixups)
    {
      assert SlotOk(vs[i], i, p.fixups);
    }
    assert Origins(vs, q.fixups) == Origins(vs, p.fixups);
  }

  lemma {:induction false} FactoriesStable(p: Pool, q: Pool, d: Spellings)
    requires FactoriesDeclared(p, d) && Grows(p, q)
    ensures forall key :: key in p.factories ==>
              exists j :: 0 <= j < |q.statements| && FactoryAt(q.factories[key], q.statements[j], key, q.fixups, d)
  {
    forall key | key in p.factories
      ensures exists j :: 0 <= j < |q.statements| && FactoryAt(q.factories[key], q.statements[j], key, q.fixups, d)
    {
      var j :| 0 <= j < |p.statements| && FactoryAt(p.factories[key], p.statements[j], key, p.fixups, d);
      FactoryStable(p, q, p.statements[j], key, d);
      assert q.statements[j] == p.statements[j];
      assert FactoryAt(q.factories[key], q.statements[j], key, q.fixups, d);
    }
  }

  /** The name the next constant gets differs from all declared names. */
  lemma NextNameIsNew(p: Pool)
    requires NamesFresh(p)
    ensures forall j :: 0 <= j < |p.statements| ==> p.statements[j].name != ConstName(p.Next())
  {
    forall j | 0 <= j < |p.statements| ensures p.statements[j].name != ConstName(p.Next()) {
      assert NamedBelow(p.statements[j].name, p.Next());
      var k: nat :| k < p.Next() && Named(p.statements[j].name, k);
      if ConstName(k) == ConstName(p.Next()) {
        ConstNameInjective(k, p.Next());
      }
    }
  }

  /** Appending a declaration under the next constant name keeps names and reads in order. */
  lemma {:induction false} AppendKeepsOrder(p: Pool, q: Pool, s: Stmt)
    requires NamesFresh(p) && ReadsOrdered(p) && Grows(p, q)
    requires StatementsOwned(p)
    requires q.statements == p.statements + [s] && s.name == ConstName(p.Next())
    requires q.Next() == p.Next() + 1
    requires ScopedAt(StmtReads(s, q.fixups), p.Next())
    requires forall id :: 0 <= id < |q.fixups| ==> ScopedAt(Reads(q.fixups[id].original), p.Next())
    ensures NamesFresh(q) && ReadsOrdered(q)
  {
    NextNameIsNew(p);
    StmtReadsStable(p, q);
    forall j | 0 <= j < |q.statements| ensures NamedBelow(q.statements[j].name, q.Next()) {
      if j < |p.statements| {
        assert NamedBelow(p.statements[j].name, p.Next());
      } else {
        assert Named(s.name, p.Next());
      }
    }
    forall i, j | 0 <= i <= j < |q.statements|
      ensures q.statements[j].name !in StmtReads(q.statements[i], q.fixups)
    {
      if j == |p.statements| {
        assert ScopedAt(StmtReads(q.statements[i], q.fixups), p.Next());
      }
    }
  }

  lemma {:induction false} ShareKeeps(p: Pool, id: nat, literal: Expr, d: Spellings)
    requires Inv(p, d) && id < |p.fixups| && !p.fixups[id].shared && Same(p.fixups[id].original, literal)
    requires Keyable(literal) && Key(literal) in p.literals && p.literals[Key(literal)] == id
    ensures Inv(Share(p, id, literal), d) && Grows(p, Share(p, id, literal))
    ensures Share(p, id, literal).fixups[id].shared
  {
    var q := Share(p, id, literal);
    hide LiteralsIndexed, FixupsDeclared, NamesFresh, ReadsOrdered, StatementsOwned, FactoriesDeclared, Owned;
    hide Grows, Share;
    ShareGrows(p, id, literal);
    ShareIndexed(p, id, literal, d);
    ShareOrdered(p, id, literal);
    ShareDeclares(p, id, literal, d);
    ShareOwned(p, id, literal);
    FactoriesStable(p, q, d);
    FactoriesKept(p, q, d);
  }

  lemma FactoriesKept(p: Pool, q: Pool, d: Spellings)
    requires q.factories == p.factories
    requires forall key :: key in p.factories ==>
               exists j :: 0 <= j < |q.statements| && FactoryAt(q.factories[key], q.statements[j], key, q.fixups, d)
    ensures FactoriesDeclared(q, d)
  {
  }

  lemma ShareIndexed(p: Pool, id: nat, literal: Expr, d: Spellings)
    requires LiteralsIndexed(p, d) && id < |p.fixups|
    ensures LiteralsIndexed(Share(p, id, literal), d)
  {
  }

  lemma {:induction false} ShareOrdered(p: Pool, id: nat, literal: Expr)
    requires NamesFresh(p) && ReadsOrdered(p) && StatementsOwned(p)
    requires id < |p.fixups| && !p.fixups[id].shared && Same(p.fixups[id].original, literal) && Keyable(literal)
    ensures NamesFresh(Share(p, id, literal)) && ReadsOrdered(Share(p, id, literal))
  {
    var q := Share(p, id, literal);
    var s := q.statements[|p.statements|];
    ShareGrows(p, id, literal);
    EmitKeyable(literal, q.fixups);
    ReadsErased(literal);
    ReadsErased(p.fixups[id].original);
    AppendKeepsOrder(p, q, s);
  }

  lemma ShareOwned(p: Pool, id: nat, literal: Expr)
    requires StatementsOwned(p) && id < |p.fixups| && Grows(p, Share(p, id, literal))
    requires var q := Share(p, id, literal); Owned(q.statements[|p.statements|], q)
    ensures StatementsOwned(Share(p, id, literal))
  {
    hide Owned;
    OwnedStable(p, Share(p, id, literal));
  }

  lemma ShareGrows(p: Pool, id: nat, literal: Expr)
    requires id < |p.fixups| && !p.fixups[id].shared
    ensures Grows(p, Share(p, id, literal))
    ensures var q := Share(p, id, literal);
            && q.Next() == p.Next() + 1 && q.statements[|p.statements|].name == ConstName(p.Next())
            && q.fixups[id].shared && q.factories == p.factories
  {
    assert Named(ConstName(p.Next()), p.Next());
  }

  lemma {:induction false} ShareDeclares(p: Pool, id: nat, literal: Expr, d: Spellings)
    requires FixupsDeclared(p) && LiteralsIndexed(p, d)
    requires id < |p.fixups| && !p.fixups[id].shared && Same(p.fixups[id].original, literal)
    requires Keyable(literal) && Key(literal) in p.literals && p.literals[Key(literal)] == id
    ensures FixupsDeclared(Share(p, id, literal))
    ensures Owned(Share(p, id, literal).statements[|p.statements|], Share(p, id, literal))
  {
    var q := Share(p, id, literal);
    var s := q.statements[|p.statements|];
    assert Declares(s, q.fixups[id]);
    forall i | 0 <= i < |q.fixups| && q.fixups[i].shared
      ensures exists j :: 0 <= j < |q.statements| && Declares(q.statements[j], q.fixups[i])
    {
      if i == id {
        assert Declares(q.statements[|p.statements|], q.fixups[i]);
      } else {
        var j :| 0 <= j < |p.statements| && Declares(p.statements[j], p.fixups[i]);
        assert Declares(q.statements[j], q.fixups[i]);
      }
    }
  }

  /** What a constant request returns, besides keeping the invariant. */
  lemma {:induction false} ConstLiteralKeeps(p: Pool, literal: Expr, force: bool, d: Spellings)
    requires Inv(p, d) && Unmixed(d) && Admissible(p, GetConst(literal, force), d)
    ensures var (q, r) := ConstLiteral(p, literal, force);
            && Inv(q, d) && Grows(p, q)
            && (r.None? <==> !NotPooled(literal) && !Keyable(literal))
            && (r.Some? && !NotPooled(literal) ==>
                  && r.value.Fixup? && r.value.id < |q.fixups|
                  && Same(q.fixups[r.value.id].original, literal)
                  && (force && Key(literal) !in p.literals ==> q.fixups[r.value.id].shared)
                  && (Key(literal) in p.literals ==> q.fixups[r.value.id].shared))
  {
    if !NotPooled(literal) && Keyable(literal) {
      var key := Key(literal);
      if key in p.literals {
        var id := p.literals[key];
        KeyInjective(p.fixups[id].original, literal, d);
        if !p.fixups[id].shared {
          ShareKeeps(p, id, literal, d);
        } else {
          GrowsReflexive(p);
        }
      } else {
        var id := |p.fixups|;
        var q := WithFixup(p, literal);
        AddFixupKeeps(p, literal, d);
        if force {
          ShareKeeps(q, id, literal, d);
          GrowsTransitive(p, q, Share(q, id, literal));
        }
      }
    } else {
      GrowsReflexive(p);
    }
  }

  lemma GrowsReflexive(p: Pool)
    ensures Grows(p, p)
  {
  }

  // ---------- Literal factories ----------

  ghost predicate ConstantsSafe(vs: seq<Expr>, d: Spellings) {
    forall v :: v in vs && IsConstant(v) ==> Keyable(v) && KeySafe(v, d)
  }

  /** The constant values of a literal are safe when its template is. */
  lemma TemplateSafe(literal: Expr, d: Spellings)
    requires literal.Arr? || literal.Obj?
    requires Keyable(Template(literal)) && KeySafe(Template(literal), d)
    ensures ConstantsSafe(Values(literal), d)
  {
    var vs, t := Values(literal), Template(literal);
    forall i | 0 <= i < |vs| && IsConstant(vs[i]) ensures Keyable(vs[i]) && KeySafe(vs[i], d) {
      assert Values(t)[i] == vs[i];
      if t.Arr? {
        assert t.entries[i] in t.entries;
      } else {
        assert t.fields[i] in t.fields;
      }
    }
  }

  lemma {:induction false} ConstantIsScoped(e: Expr)
    requires IsConstant(e) && Keyable(e)
    ensures Reads(e) == {}
  {
    match e
    case Arr(es) =>
      forall x | x in es ensures Reads(x) == {} { ConstantIsScoped(x); }
    case Obj(fs) =>
      forall f | f in fs ensures Reads(f.value) == {} { ConstantIsScoped(f.value); }
    case Typeof(x) => ConstantIsScoped(x);
    case _ =>
  }

  ghost predicate SlotsOk(rs: seq<Expr>, vs: seq<Expr>, fx: seq<FixupState>) {
    && |rs| <= |vs|
    && forall i :: 0 <= i < |rs| ==>
         SlotOk(rs[i], i, fx) && if IsConstant(vs[i]) then Same(Origin(rs[i], fx), vs[i]) else Origin(rs[i], fx) == UNKNOWN
  }

  lemma {:induction false} FactoryValuesKeep(p: Pool, vs: seq<Expr>, n: nat, d: Spellings)
    requires Inv(p, d) && n <= |vs| && ConstantsSafe(vs, d) && Unmixed(d)
    ensures var (q, rs) := FactoryValues(p, vs, n);
            Inv(q, d) && Grows(p, q) && rs.Some? && SlotsOk(rs.value, vs, q.fixups)
  {
    assert p.IdsInRange();
    hide Inv, Grows, ConstLiteral;
    if n == 0 {
      GrowsReflexive(p);
    } else {
      FactoryValuesKeep(p, vs, n - 1, d);
      var (q, rs) := FactoryValues(p, vs, n - 1);
      if IsConstant(vs[n - 1]) {
        ConstantSlot(q, rs.value, vs, d);
        GrowsTransitive(p, q, ConstLiteral(q, vs[n - 1], true).0);
      } else {
        SlotsExtend(rs.value, vs, ReadVar(ParamName(n - 1)), q.fixups);
      }
    }
  }

  lemma ConstantSlot(q: Pool, rs: seq<Expr>, vs: seq<Expr>, d: Spellings)
    requires Inv(q, d) && |rs| < |vs| && SlotsOk(rs, vs, q.fixups)
    requires var v := vs[|rs|]; IsConstant(v) && Keyable(v) && KeySafe(v, d) && Unmixed(d)
    ensures var (q', r) := ConstLiteral(q, vs[|rs|], true);
            Inv(q', d) && Grows(q, q') && r.Some? && SlotsOk(rs + [r.value], vs, q'.fixups)
  {
    var v := vs[|rs|];
    ConstantIsScoped(v);
    ConstLiteralKeeps(q, v, true, d);
    var (q', r) := ConstLiteral(q, v, true);
    SlotsStable(q, q', rs, vs);
    SameSafe(Origin(r.value, q'.fixups), v, d);
    SlotsExtend(rs, vs, r.value, q'.fixups);
  }

  lemma SlotsExtend(rs: seq<Expr>, vs: seq<Expr>, x: Expr, fx: seq<FixupState>)
    requires |rs| < |vs| && SlotsOk(rs, vs, fx) && SlotOk(x, |rs|, fx)
    requires if IsConstant(vs[|rs|]) then Same(Origin(x, fx), vs[|rs|]) else Origin(x, fx) == UNKNOWN
    ensures SlotsOk(rs + [x], vs, fx)
  {
  }

  lemma SlotsStable(p: Pool, q: Pool, rs: seq<Expr>, vs: seq<Expr>)
    requires Grows(p, q) && SlotsOk(rs, vs, p.fixups)
    ensures SlotsOk(rs, vs, q.fixups)
  {
    forall i | 0 <= i < |rs|
      ensures SlotOk(rs[i], i, q.fixups) && Origin(rs[i], q.fixups) == Origin(rs[i], p.fixups)
    {
      assert SlotOk(rs[i], i, p.fixups);
    }
  }

  lemma {:induction false} ParamNamed(vs: seq<Expr>, i: nat)
    requires i < |vs| && vs[i].ReadVar?
    ensures vs[i].name_ in ParamNames(vs)
  {
    if i > 0 {
      ParamNamed(vs[1..], i - 1);
    }
  }

  /** A declared constant name is not one still to be handed out. */
  lemma DeclaredIsScoped(p: Pool, id: nat)
    requires FixupsDeclared(p) && NamesFresh(p) && id < |p.fixups| && p.fixups[id].shared
    ensures ScopedAt(Reads(p.fixups[id].resolved), p.Next())
  {
    var f := p.fixups[id];
    var j :| 0 <= j < |p.statements| && Declares(p.statements[j], f);
    assert NamedBelow(p.statements[j].name, p.Next());
    var k: nat :| k < p.Next() && Named(p.statements[j].name, k);
    forall m | m >= p.Next() ensures ConstName(m) !in Reads(f.resolved) {
      if ConstName(m) == ConstName(k) {
        ConstNameInjective(m, k);
      }
    }
  }

  /** A factory body mentions only shared fix-ups. */
  lemma FactoryBodyShared(s: Stmt, rs: seq<Expr>, fx: seq<FixupState>)
    requires BodyOf(s, rs, fx)
    ensures SharedIds(FixupsIn(s.rhs.body), fx)
  {
    forall id | id in FixupsIn(s.rhs.body) ensures id < |fx| && fx[id].shared {
      var i := SlotOfFixup(s.rhs.body, id);
      assert SlotOk(rs[i], i, fx);
    }
  }

  /** A factory body reads only its parameters and declared constants. */
  lemma FactoryBodyScoped(p: Pool, s: Stmt, rs: seq<Expr>)
    requires FixupsDeclared(p) && NamesFresh(p) && BodyOf(s, rs, p.fixups)
    ensures ScopedAt(StmtReads(s, p.fixups), p.Next())
  {
    hide BodyOf, StmtReads, NamesFresh, FixupsDeclared;
    forall k | k >= p.Next() ensures ConstName(k) !in StmtReads(s, p.fixups) {
      if ConstName(k) in StmtReads(s, p.fixups) {
        var r := ReadInBody(s, rs, p.fixups, ConstName(k));
        DeclaredIsScoped(p, r.id);
      }
    }
  }

  /** A name that a factory body reads is the usage of a shared constant. */
  lemma ReadInBody(s: Stmt, rs: seq<Expr>, fx: seq<FixupState>, n: string) returns (r: Expr)
    requires BodyOf(s, rs, fx) && n in StmtReads(s, fx)
    ensures r.Fixup? && r.id < |fx| && fx[r.id].shared && n in Reads(fx[r.id].resolved)
  {
    var i := SlotOfRead(s.rhs.body, fx, n);
    r := rs[i];
    assert SlotOk(r, i, fx);
    if r.ReadVar? {
      ParamNamed(rs, i);
      assert false;
    }
  }

  lemma SlotOfFixup(body: Expr, id: nat) returns (i: nat)
    requires (body.Arr? || body.Obj?) && id in FixupsIn(body)
    ensures i < |Values(body)| && id in FixupsIn(Values(body)[i])
  {
    if body.Arr? {
      var x :| x in body.entries && id in FixupsIn(x);
      i :| 0 <= i < |body.entries| && body.entries[i] == x;
    } else {
      var f :| f in body.fields && id in FixupsIn(f.value);
      i :| 0 <= i < |body.fields| && body.fields[i] == f;
    }
  }

  lemma SlotOfRead(body: Expr, fx: seq<FixupState>, n: string) returns (i: nat)
    requires (body.Arr? || body.Obj?) && n in Reads(Emit(body, fx))
    ensures i < |Values(body)| && n in Reads(Emit(Values(body)[i], fx))
  {
    var e := Emit(body, fx);
    if body.Arr? {
      var x :| x in e.entries && n in Reads(x);
      i :| 0 <= i < |e.entries| && e.entries[i] == x;
    } else {
      var f :| f in e.fields && n in Reads(f.value);
      i :| 0 <= i < |e.fields| && e.fields[i] == f;
    }
  }

  /** The body of a new factory stands for the template of the literal. */
  lemma BodyTemplate(literal: Expr, rs: seq<Expr>, fx: seq<FixupState>)
    requires literal.Arr? || literal.Obj?
    requires |rs| == |Values(literal)| && SlotsOk(rs, Values(literal), fx)
    ensures var body := WithValues(literal, rs);
            Same(WithValues(body, Origins(Values(body), fx)), Template(literal))
  {
    var body := WithValues(literal, rs);
    var a, b := WithValues(body, Origins(rs, fx)), Template(literal);
    if literal.Arr? {
      assert Erase(a).entries == Erase(b).entries;
    } else {
      assert Erase(a).fields == Erase(b).fields;
    }
  }

  lemma LiteralFactoryKeeps(p: Pool, literal: Expr, d: Spellings)
    requires Inv(p, d) && Unmixed(d) && Admissible(p, GetFactory(literal), d)
    ensures var (q, r) := LiteralFactory(p, literal);
            Inv(q, d) && Grows(p, q) && (r.None? <==> !Keyable(Template(literal)))
  {
    GrowsReflexive(p);
    if Keyable(Template(literal)) && Key(Template(literal)) !in p.factories {
      var vs := Values(literal);
      TemplateSafe(literal, d);
      FactoryValuesKeep(p, vs, |vs|, d);
      var (q, rs) := FactoryValues(p, vs, |vs|);
      AddFactoryKeeps(q, literal, rs.value, d);
      assert LiteralFactory(p, literal).0 == WithFactory(q, literal, rs.value);
      GrowsTransitive(p, q, WithFactory(q, literal, rs.value));
    }
  }

  function WithFactory(q: Pool, literal: Expr, rs: seq<Expr>): Pool
    requires (literal.Arr? || literal.Obj?) && |rs| == |Values(literal)| && Keyable(Template(literal))
  {
    NewFactory(q, Key(Template(literal)), literal, rs).0
  }

  lemma WithFactoryGrows(q: Pool, literal: Expr, rs: seq<Expr>)
    requires (literal.Arr? || literal.Obj?) && |rs| == |Values(literal)| && Keyable(Template(literal))
    requires Key(Template(literal)) !in q.factories
    ensures var r := WithFactory(q, literal, rs);
            Grows(q, r) && r.Next() == q.Next() + 1 && r.statements[|q.statements|].name == ConstName(q.Next())
  {
    assert Named(ConstName(q.Next()), q.Next());
  }

  lemma AddFactoryKeeps(q: Pool, literal: Expr, rs: seq<Expr>, d: Spellings)
    requires Inv(q, d) && (literal.Arr? || literal.Obj?)
    requires Keyable(Template(literal)) && KeySafe(Template(literal), d)
    requires |rs| == |Values(literal)| && SlotsOk(rs, Values(literal), q.fixups)
    requires Key(Template(literal)) !in q.factories
    ensures Inv(WithFactory(q, literal, rs), d) && Grows(q, WithFactory(q, literal, rs))
  {
    var r := WithFactory(q, literal, rs);
    WithFactoryGrows(q, literal, rs);
    AddFactoryOrdered(q, literal, rs);
    AddFactoryDeclared(q, literal, rs, d);
    DeclaredStable(q, r);
  }

  lemma AddFactoryOrdered(q: Pool, literal: Expr, rs: seq<Expr>)
    requires FixupsDeclared(q) && NamesFresh(q) && ReadsOrdered(q) && StatementsOwned(q)
    requires (literal.Arr? || literal.Obj?) && Keyable(Template(literal))
    requires |rs| == |Values(literal)| && SlotsOk(rs, Values(literal), q.fixups)
    requires Key(Template(literal)) !in q.factories
    ensures var r := WithFactory(q, literal, rs); NamesFresh(r) && ReadsOrdered(r) && StatementsOwned(r)
  {
    var r := WithFactory(q, literal, rs);
    var s := r.statements[|q.statements|];
    WithFactoryGrows(q, literal, rs);
    FactoryBodyShared(s, rs, q.fixups);
    FactoryBodyScoped(q, s, rs);
    AppendKeepsOrder(q, r, s);
    OwnedStable(q, r);
  }

  lemma AddFactoryDeclared(q: Pool, literal: Expr, rs: seq<Expr>, d: Spellings)
    requires FactoriesDeclared(q, d) && (literal.Arr? || literal.Obj?)
    requires Keyable(Template(literal)) && KeySafe(Template(literal), d)
    requires |rs| == |Values(literal)| && SlotsOk(rs, Values(literal), q.fixups)
    requires Key(Template(literal)) !in q.factories
    ensures FactoriesDeclared(WithFactory(q, literal, rs), d)
  {
    WithFactoryGrows(q, literal, rs);
    FactoriesStable(q, WithFactory(q, literal, rs), d);
    NewFactoryDeclared(q, literal, rs, d);
  }

  lemma NewFactoryDeclared(q: Pool, literal: Expr, rs: seq<Expr>, d: Spellings)
    requires literal.Arr? || literal.Obj?
    requires Keyable(Template(literal)) && KeySafe(Template(literal), d)
    requires |rs| == |Values(literal)| && SlotsOk(rs, Values(literal), q.fixups)
    ensures var r := WithFactory(q, literal, rs);
            var key := Key(Template(literal));
            FactoryAt(r.factories[key], r.statements[|q.statements|], key, r.fixups, d)
  {
    BodyTemplate(literal, rs, q.fixups);
    var body := WithValues(literal, rs);
    SameSafe(Template(literal), WithValues(body, Origins(Values(body), q.fixups)), d);
  }

  /** Statements added without touching a fix-up keep every shared fix-up declared. */
  lemma DeclaredStable(p: Pool, q: Pool)
    requires FixupsDeclared(p) && p.statements <= q.statements && q.fixups == p.fixups
    ensures FixupsDeclared(q)
  {
    forall i | 0 <= i < |q.fixups| && q.fixups[i].shared
      ensures exists j :: 0 <= j < |q.statements| && Declares(q.statements[j], q.fixups[i])
    {
      var j :| 0 <= j < |p.statements| && Declares(p.statements[j], p.fixups[i]);
      assert Declares(q.statements[j], q.fixups[i]);
    }
  }

  // ---------- Whole runs ----------

  lemma StepKeeps(p: Pool, r: Request, d: Spellings)
    requires Inv(p, d) && Unmixed(d) && Admissible(p, r, d)
    ensures Inv(Step(p, r).0, d) && Grows(p, Step(p, r).0)
  {
    match r
    case GetConst(literal, force) => ConstLiteralKeeps(p, literal, force, d);
    case GetFactory(literal) => LiteralFactoryKeeps(p, literal, d);
    case GetName(prefix, always) => UniqueNameKeeps(p, prefix, always, d);
  }
}
