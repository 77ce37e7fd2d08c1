/** The part of the output AST that the constant pool handles. */
module OutputAst {

  import opened Wrappers

  /**
   * The text `String(n)` gives for a number, except that negative zero, which `String`
   * renders as "0", keeps its sign here so that the two zeros stay different values.
   */
  type NumText = t: string | IsNumText(t) witness "0"

  predicate IsNumText(t: string) {
    || t in {"NaN", "Infinity", "-Infinity"}
    || (t != "" && forall c :: c in t ==> '0' <= c <= '9' || c in {'.', 'e', '+', '-'})
  }

  /** The value of a `LiteralExpr`. */
  datatype Prim = PUndefined | PNull | PBool(b: bool) | PNum(text: NumText) | PStr(s: string)

  datatype Entry = Entry(key: string, value: Expr, quoted: bool)

  /**
   * `External` is a reference to an import: its module, its name, and the value it has at run
   * time, if given. `Fixup(id)` is a reference to the `id`-th fix-up the pool created. `Invoke(name)` is a call
   * without arguments of the variable `name`. `Dynamic(id)` stands for any other expression
   * kind (calls, conditionals, property reads, ...), which is never constant.
   */
  datatype Expr =
    | Lit(value: Prim)
    | Arr(entries: seq<Expr>)
    | Obj(fields: seq<Entry>)
    | External(moduleName: Option<string>, name: Option<string>, runtime: Option<nat>)
    | ReadVar(name_: string)
    | Typeof(expr: Expr)
    | Invoke(callee: string)
    | Dynamic(dyn: nat)
    | Fixup(id: nat)

  predicate IsConstant(e: Expr) {
    match e
    case Lit(_) => true
    case Arr(es) => forall x :: x in es ==> IsConstant(x)
    case Obj(fs) => forall f :: f in fs ==> IsConstant(f.value)
    case Typeof(x) => IsConstant(x)
    case Fixup(_) => true
    case _ => false
  }

  /** The expression without the run-time values of imports, which no emitted code refers to. */
  function Erase(e: Expr): Expr {
    match e
    case Arr(es) => Arr(seq(|es|, i requires 0 <= i < |es| => Erase(es[i])))
    case Obj(fs) => Obj(seq(|fs|, i requires 0 <= i < |fs| => fs[i].(value := Erase(fs[i].value))))
    case External(m, n, _) => External(m, n, None)
    case Typeof(x) => Typeof(Erase(x))
    case _ => e
  }

  /** Equal but for the run-time values of imports. */
  predicate Same(x: Expr, y: Expr) { Erase(x) == Erase(y) }

  const LONG_STRING: nat := 50

  predicate IsLongString(e: Expr) {
    e.Lit? && e.value.PStr? && |e.value.s| >= LONG_STRING
  }

  /** The values of an array or object literal, in order. */
  function Values(e: Expr): seq<Expr>
    requires e.Arr? || e.Obj?
  {
    if e.Arr? then e.entries else seq(|e.fields|, i requires 0 <= i < |e.fields| => e.fields[i].value)
  }

  /** The literal `e` with its values replaced, keeping the keys of an object literal. */
  function WithValues(e: Expr, vs: seq<Expr>): (r: Expr)
    requires e.Arr? || e.Obj?
    requires |vs| == |Values(e)|
    ensures (r.Arr? <==> e.Arr?) && (r.Obj? <==> e.Obj?) && Values(r) == vs
  {
    if e.Arr? then Arr(vs)
    else Obj(seq(|vs|, i requires 0 <= i < |vs| => e.fields[i].(value := vs[i])))
  }
}
