/** Which expressions are constant and which have keys, by what occurs in them. */
module Occurrences {
  import opened KeyFn
  import opened OutputAst
  import opened Wrappers

  /** The expression at a path: an entry, the value of a field, or the operand of `typeof`. */
  function At(e: Expr, path: seq<nat>): Option<Expr>
    decreases path
  {
    if path == [] then Some(e)
    else match e
      case Arr(es) => if path[0] < |es| then At(es[path[0]], path[1..]) else None
      case Obj(fs) => if path[0] < |fs| then At(fs[path[0]].value, path[1..]) else None
      case Typeof(x) => if path[0] == 0 then At(x, path[1..]) else None
      case _ => None
  }

  /** Kinds of expressions, as what may occur in one. */
  datatype Kinds = Varying | Keyless

  /** Variables, imports, calls and other kinds vary; calls, other kinds and fix-ups have no key. */
  predicate IsOf(e: Expr, kinds: Kinds) {
    match kinds
    case Varying => e.ReadVar? || e.External? || e.Invoke? || e.Dynamic?
    case Keyless => e.Invoke? || e.Dynamic? || e.Fixup?
  }

  ghost predicate OccursAt(e: Expr, kinds: Kinds, path: seq<nat>) {
    At(e, path).Some? && IsOf(At(e, path).value, kinds)
  }

  ghost predicate Occurs(e: Expr, kinds: Kinds) {
    exists path :: OccursAt(e, kinds, path)
  }

  function Children(e: Expr): seq<Expr> {
    match e
    case Arr(es) => es
    case Obj(fs) => seq(|fs|, i requires 0 <= i < |fs| => fs[i].value)
    case Typeof(x) => [x]
    case _ => []
  }

  /** Something occurs in an expression if the expression is of that kind or it occurs in a part. */
  lemma OccursInPart(e: Expr, kinds: Kinds)
    ensures Occurs(e, kinds) <==> IsOf(e, kinds) || exists i :: 0 <= i < |Children(e)| && Occurs(Children(e)[i], kinds)
  {
    if path :| OccursAt(e, kinds, path) {
      if path != [] {
        assert OccursAt(Children(e)[path[0]], kinds, path[1..]);
      }
    }
    if IsOf(e, kinds) {
      assert OccursAt(e, kinds, []);
    }
    if i :| 0 <= i < |Children(e)| && Occurs(Children(e)[i], kinds) {
      var path :| OccursAt(Children(e)[i], kinds, path);
      assert ([i] + path)[1..] == path;
      assert OccursAt(e, kinds, [i] + path);
    }
  }

  /** An expression is constant exactly when no variable, import, call or other kind occurs in it. */
  lemma {:induction false} ConstantIff(e: Expr)
    ensures IsConstant(e) <==> !Occurs(e, Varying)
  {
    OccursInPart(e, Varying);
    hide Occurs;
    forall i | 0 <= i < |Children(e)| ensures IsConstant(Children(e)[i]) <==> !Occurs(Children(e)[i], Varying) {
      ConstantIff(Children(e)[i]);
    }
    PartsConstant(e);
  }

  lemma PartsConstant(e: Expr)
    ensures e.Arr? || e.Obj? || e.Typeof? ==>
              (IsConstant(e) <==> forall i :: 0 <= i < |Children(e)| ==> IsConstant(Children(e)[i]))
  {
    if e.Arr? {
      assert forall i :: 0 <= i < |e.entries| ==> e.entries[i] in e.entries;
      assert forall i :: 0 <= i < |e.entries| ==> Children(e)[i] == e.entries[i];
    } else if e.Obj? {
      assert forall i :: 0 <= i < |e.fields| ==> e.fields[i] in e.fields;
      assert forall i :: 0 <= i < |e.fields| ==> Children(e)[i] == e.fields[i].value;
    } else if e.Typeof? {
      assert Children(e)[0] == e.expr;
    }
  }

  /** An expression has a key exactly when no call, fix-up or other kind occurs in it. */
  lemma {:induction false} KeyableIff(e: Expr)
    ensures Keyable(e) <==> !Occurs(e, Keyless)
  {
    OccursInPart(e, Keyless);
    hide Occurs;
    forall i | 0 <= i < |Children(e)| ensures Keyable(Children(e)[i]) <==> !Occurs(Children(e)[i], Keyless) {
      KeyableIff(Children(e)[i]);
    }
    PartsKeyable(e);
  }

  lemma PartsKeyable(e: Expr)
    ensures e.Arr? || e.Obj? || e.Typeof? ==>
              (Keyable(e) <==> forall i :: 0 <= i < |Children(e)| ==> Keyable(Children(e)[i]))
  {
    if e.Arr? {
      assert forall i :: 0 <= i < |e.entries| ==> e.entries[i] in e.entries;
      assert forall i :: 0 <= i < |e.entries| ==> Children(e)[i] == e.entries[i];
    } else if e.Obj? {
      assert forall i :: 0 <= i < |e.fields| ==> e.fields[i] in e.fields;
      assert forall i :: 0 <= i < |e.fields| ==> Children(e)[i] == e.fields[i].value;
    } else if e.Typeof? {
      assert Children(e)[0] == e.expr;
    }
  }
}
