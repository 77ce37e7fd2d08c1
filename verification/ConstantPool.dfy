/** The constant pool as the objects that update themselves in place. */
module ConstantPool {
  import opened OutputAst
  import opened KeyFn
  import opened Names
  import opened PoolModel
  import opened Wrappers

  /** A place-holder for a literal; `id` is the identity by which expressions refer to it. */
  class FixupExpression {
    const id: nat
    const original: Expr
    var resolved: Expr
    var shared: bool

    constructor (id: nat, resolved: Expr)
      ensures this.id == id
      ensures State() == FixupState(resolved, resolved, false)
    {
      this.id := id;
      this.original := resolved;
      this.resolved := resolved;
      this.shared := false;
    }

    ghost function State(): FixupState
      reads this
    {
      FixupState(original, resolved, shared)
    }

    method Fixup(expression: Expr)
      modifies this
      ensures State() == old(State()).(resolved := expression, shared := true)
    {
      resolved := expression;
      shared := true;
    }
  }

  ghost function States(fs: seq<FixupExpression>): (r: seq<FixupState>)
    reads fs
    ensures |r| == |fs|
    ensures forall i :: 0 <= i < |fs| ==> r[i] == fs[i].State()
  {
    seq(|fs|, i requires 0 <= i < |fs| reads fs => fs[i].State())
  }

  function Ids(m: map<string, FixupExpression>): map<string, nat> {
    map k | k in m :: m[k].id
  }

  class ConstantPool {
    const isClosureCompilerEnabled: bool
    var statements: seq<Stmt>
    var literals: map<string, FixupExpression>
    var literalFactories: map<string, Expr>
    var claimedNames: map<string, nat>
    /** Every fix-up handed out so far, by identity. */
    var fixups: seq<FixupExpression>

    ghost predicate Valid()
      reads this
    {
      && (forall i :: 0 <= i < |fixups| ==> fixups[i].id == i)
      && (forall k :: k in literals ==> literals[k].id < |fixups| && fixups[literals[k].id] == literals[k])
    }

    ghost function State(): (p: Pool)
      requires Valid()
      reads this, fixups
      ensures p.IdsInRange()
    {
      Pool(isClosureCompilerEnabled, statements, Ids(literals), States(fixups), literalFactories, claimedNames)
    }

    constructor (isClosureCompilerEnabled: bool)
      ensures Valid() && fixups == []
      ensures State() == Empty(isClosureCompilerEnabled)
    {
      this.isClosureCompilerEnabled := isClosureCompilerEnabled;
      statements, literals, literalFactories, claimedNames, fixups := [], map[], map[], map[], [];
    }

    /** Only new fix-ups are added, after the existing ones. */
    twostate predicate KeepsFixups()
      reads this
    {
      && old(fixups) <= fixups
      && forall i :: |old(fixups)| <= i < |fixups| ==> fresh(fixups[i])
    }

    method UniqueName(name: string, alwaysIncludeSuffix: bool) returns (result: string)
      requires Valid()
      modifies this`claimedNames
      ensures Valid()
      ensures (result, State()) == PoolModel.UniqueName(old(State()), name, alwaysIncludeSuffix)
    {
      var count := if name in claimedNames then claimedNames[name] else 0;
      result := Form(name, count, alwaysIncludeSuffix);
      claimedNames := claimedNames[name := count + 1];
    }

    method FreshName() returns (result: string)
      requires Valid()
      modifies this`claimedNames
      ensures Valid()
      ensures (result, State()) == PoolModel.UniqueName(old(State()), CONSTANT_PREFIX, true)
    {
      result := UniqueName(CONSTANT_PREFIX, true);
    }

    method ShareConstant(fixup: FixupExpression, literal: Expr)
      requires Valid() && fixup.id < |fixups| && fixups[fixup.id] == fixup
      modifies this`statements, this`claimedNames, fixup
      ensures Valid()
      ensures State() == Share(old(State()), fixup.id, literal)
    {
      var name := FreshName();
      var definition, usage;
      if isClosureCompilerEnabled && IsLongString(literal) {
        definition := Returning(literal);
        usage := Invoke(name);
      } else {
        definition := Direct(literal);
        usage := ReadVar(name);
      }
      statements := statements + [Declare(name, definition)];
      fixup.Fixup(usage);
      assert State().fixups == Share(old(State()), fixup.id, literal).fixups;
    }

    /** `None` is the outcome when producing the key throws. */
    method GetConstLiteral(literal: Expr, forceShared: bool) returns (r: Option<Expr>)
      requires Valid()
      modifies this, fixups
      ensures Valid() && KeepsFixups()
      ensures (State(), r) == ConstLiteral(old(State()), literal, forceShared)
    {
      if NotPooled(literal) {
        return Some(literal);
      }
      if !Keyable(literal) {
        return None;
      }
      var key := Key(literal);
      var fixup: FixupExpression;
      var newValue := false;
      if key in literals {
        fixup := literals[key];
      } else {
        fixup := AddFixup(key, literal);
        newValue := true;
      }
      if (!newValue && !fixup.shared) || (newValue && forceShared) {
        ShareConstant(fixup, literal);
      }
      r := Some(Fixup(fixup.id));
    }

    method AddFixup(key: string, literal: Expr) returns (fixup: FixupExpression)
      requires Valid() && key !in literals
      modifies this`literals, this`fixups
      ensures Valid() && KeepsFixups()
      ensures fixup.id == |old(fixups)| && fixups == old(fixups) + [fixup] && fresh(fixup)
      ensures var p := old(State());
              State() == p.(literals := p.literals[key := |p.fixups|],
                            fixups := p.fixups + [FixupState(literal, literal, false)])
    {
      fixup := new FixupExpression(|fixups|, literal);
      literals := literals[key := fixup];
      fixups := fixups + [fixup];
      assert Ids(literals) == old(Ids(literals))[key := fixup.id];
      assert States(fixups) == old(States(fixups)) + [FixupState(literal, literal, false)];
    }

    /**
     * What stands for each value in the body of a new factory: a shared constant or a parameter.
     * `None` is the outcome when a request for a constant throws.
     */
    method ResultExpressions(values: seq<Expr>) returns (r: Option<seq<Expr>>)
      requires Valid()
      modifies this, fixups
      ensures Valid() && KeepsFixups()
      ensures (State(), r) == FactoryValues(old(State()), values, |values|)
    {
      hide ConstLiteral;
      var resultExpressions := [];
      var index := 0;
      while index < |values|
        invariant 0 <= index <= |values|
        invariant Valid() && KeepsFixups()
        invariant (State(), Some(resultExpressions)) == FactoryValues(old(State()), values, index)
      {
        if IsConstant(values[index]) {
          var constant := GetConstLiteral(values[index], true);
          if constant.None? {
            ThrownStays(old(State()), values, index + 1, |values|);
            return None;
          }
          resultExpressions := resultExpressions + [constant.value];
        } else {
          resultExpressions := resultExpressions + [ReadVar(ParamName(index))];
        }
        index := index + 1;
      }
      r := Some(resultExpressions);
    }

    /** A function of the parameters among the given values, under a new name. */
    method DeclareFactory(key: string, literal: Expr, resultExpressions: seq<Expr>) returns (literalFactory: Expr)
      requires Valid() && (literal.Arr? || literal.Obj?) && |resultExpressions| == |Values(literal)|
      modifies this`claimedNames, this`statements, this`literalFactories
      ensures Valid()
      ensures (State(), literalFactory) == NewFactory(old(State()), key, literal, resultExpressions)
    {
      var name := FreshName();
      var decl := Declare(name, Arrow(ParamNames(resultExpressions), WithValues(literal, resultExpressions)));
      statements := statements + [decl];
      literalFactory := ReadVar(name);
      literalFactories := literalFactories[key := literalFactory];
    }

    /** `None` is the outcome when producing the key throws. */
    method GetLiteralFactory(literal: Expr) returns (r: Option<(Expr, seq<Expr>)>)
      requires Valid() && (literal.Arr? || literal.Obj?)
      modifies this, fixups
      ensures Valid() && KeepsFixups()
      ensures (State(), r) == LiteralFactory(old(State()), literal)
    {
      var template := Template(literal);
      if !Keyable(template) {
        return None;
      }
      var key, values := Key(template), Values(literal);
      var literalFactoryArguments := NonConstant(values);
      if key in literalFactories {
        return Some((literalFactories[key], literalFactoryArguments));
      }
      var resultExpressions := ResultExpressions(values);
      if resultExpressions.None? {
        return None;
      }
      var literalFactory := DeclareFactory(key, literal, resultExpressions.value);
      r := Some((literalFactory, literalFactoryArguments));
    }
  }
}
