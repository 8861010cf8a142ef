/** Expression trees of the task filter language, their static types and their direct meaning. */
module FilterAst {

  /** The types a filter variable may be declared with, and the types of subexpressions. */
  datatype Type = TError | TBoolean | TInteger | TString | TRegex

  datatype BinOp = And | Or | Eq | Ne | Gt | Ge | Ls | Le | Like

  /** A tree node carries the text index of its token, which only error messages use. */
  datatype Expr =
    | Variable(at: int, id: nat)
    | Integer(at: int, value: int)
    | Text(at: int, raw: string)
    | Error
    | Not(at: int, t: Expr)
    | Binary(at: int, op: BinOp, l: Expr, r: Expr)

  /** Everything the tokenizer, the parser and the code generator write to the error stream. */
  datatype Diagnostic =
    | UnclosedString(at: int)
    | BadNumber(at: int)
    | NoToken(at: int)
    | UnknownVariable(at: int)
    | UnmatchedClose(at: int)
    | UnmatchedOpen(at: int)
    | EmptyExpression(at: int)
    | UnexpectedExpression(at: int)
    | UnexpectedOperator(at: int)
    | BadConversion(from: Type, at: int, to: Type)
    | BadRegex(at: int)

  /** The regex engine is foreign code: which patterns it accepts and which subjects they match. */
  datatype RegexEngine = RegexEngine(valid: string -> bool, matches: (string, string) -> bool)

  datatype Value = BoolV(b: bool) | IntV(n: int) | StrV(s: string) | RegexV(pattern: string)

  function At(e: Expr): int {
    if e.Error? then -1 else e.at
  }

  /** The `type` field that code generation leaves on a node. */
  function TypeOf(e: Expr, types: seq<Type>, regexRequired: bool): Type {
    match e
    case Variable(_, id) => if id < |types| then types[id] else TError
    case Integer(_, _) => TInteger
    case Text(_, _) => if regexRequired then TRegex else TString
    case Error => TError
    case Not(_, _) => TBoolean
    case Binary(_, _, _, _) => TBoolean
  }

  predicate Scalar(t: Type) {
    t == TBoolean || t == TInteger
  }

  /** Every operator in the tree gets operands it admits, and every pattern compiles. */
  predicate WellTyped(e: Expr, types: seq<Type>, regexRequired: bool, engine: RegexEngine) {
    match e
    case Variable(_, _) => true
    case Integer(_, _) => true
    case Text(_, raw) => regexRequired ==> engine.valid(Unescape(raw))
    case Error => true
    case Not(_, t) => WellTyped(t, types, false, engine) && Scalar(TypeOf(t, types, false))
    case Binary(_, op, l, r) =>
      && WellTyped(l, types, false, engine)
      && WellTyped(r, types, op == Like, engine)
      && Admits(op, TypeOf(l, types, false), TypeOf(r, types, op == Like))
  }

  /** The operand types an operator admits. */
  predicate Admits(op: BinOp, lt: Type, rt: Type) {
    match op
    case Like => lt == TString && rt == TRegex
    case Eq => (lt == TString && rt == TString) || (Scalar(lt) && Scalar(rt))
    case Ne => (lt == TString && rt == TString) || (Scalar(lt) && Scalar(rt))
    case _ => Scalar(lt) && Scalar(rt)
  }

  predicate VariablesBelow(e: Expr, n: nat) {
    match e
    case Variable(_, id) => id < n
    case Not(_, t) => VariablesBelow(t, n)
    case Binary(_, _, l, r) => VariablesBelow(l, n) && VariablesBelow(r, n)
    case _ => true
  }

  /** `\\`, `\'` and `\"` stand for their second character; any other backslash stands for itself. */
  function Unescape(raw: string): string {
    if raw == "" then ""
    else if raw[0] == '\\' && 1 < |raw| && raw[1] in ['\\', '\'', '\"'] then [raw[1]] + Unescape(raw[2..])
    else [raw[0]] + Unescape(raw[1..])
  }

  predicate HasError(e: Expr) {
    match e
    case Error => true
    case Not(_, t) => HasError(t)
    case Binary(_, _, l, r) => HasError(l) || HasError(r)
    case _ => false
  }

  predicate HasType(v: Value, t: Type) {
    match t
    case TError => false
    case TBoolean => v.BoolV?
    case TInteger => v.IntV?
    case TString => v.StrV?
    case TRegex => v.RegexV?
  }

  /** A valuation gives every declared variable a value of its declared type. */
  predicate Valuation(env: seq<Value>, types: seq<Type>) {
    |env| == |types| && forall i :: 0 <= i < |env| && types[i] != TError ==> HasType(env[i], types[i])
  }

  function Number(v: Value): int {
    match v
    case BoolV(b) => if b then 1 else 0
    case IntV(n) => n
    case _ => 0
  }

  function Truth(v: Value): bool {
    Number(v) != 0
  }

  /** The value of a tree, without code or a stack. */
  function Eval(e: Expr, env: seq<Value>, regexRequired: bool, engine: RegexEngine): Value {
    match e
    case Variable(_, id) => if id < |env| then env[id] else IntV(0)
    case Integer(_, n) => IntV(n)
    case Text(_, raw) => if regexRequired then RegexV(Unescape(raw)) else StrV(Unescape(raw))
    case Error => IntV(0)
    case Not(_, t) => BoolV(!Truth(Eval(t, env, false, engine)))
    case Binary(_, op, l, r) =>
      var a, b := Eval(l, env, false, engine), Eval(r, env, op == Like, engine);
      BoolV(Apply(op, a, b, engine))
  }

  function Apply(op: BinOp, a: Value, b: Value, engine: RegexEngine): bool {
    match op
    case And => Truth(a) && Truth(b)
    case Or => Truth(a) || Truth(b)
    case Eq => Same(a, b)
    case Ne => !Same(a, b)
    case Gt => Number(a) > Number(b)
    case Ge => Number(a) >= Number(b)
    case Ls => Number(a) < Number(b)
    case Le => Number(a) <= Number(b)
    case Like => a.StrV? && b.RegexV? && engine.matches(a.s, b.pattern)
  }

  predicate Same(a: Value, b: Value) {
    if a.StrV? then a == b else Number(a) == Number(b)
  }

  /** A well-typed tree evaluates to a value of its static type. */
  lemma {:induction false} EvalHasType(e: Expr, types: seq<Type>, env: seq<Value>, regexRequired: bool,
                                       engine: RegexEngine)
    requires Valuation(env, types)
    requires TypeOf(e, types, regexRequired) != TError
    ensures HasType(Eval(e, env, regexRequired, engine), TypeOf(e, types, regexRequired))
  {
    match e {
      case Variable(_, id) =>
      case _ =>
    }
  }
}
