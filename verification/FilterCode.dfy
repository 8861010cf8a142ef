/** Code generation, linking and the stack machine of the task filter. */
module FilterCode {
  import opened FilterAst

  // ---------- code cells ----------

  // The generated code is one vector of 64-bit words that mixes opcodes and operands.
  const OP_LOAD_INT64 := 0
  const OP_LOAD_VAR := 1
  const OP_LOAD_STR := 2
  const OP_LOAD_REGEX := 3
  const OP_TEST := 4
  const OP_NOT := 5
  const OP_AND := 6
  const OP_OR := 7
  const OP_EQ := 8
  const OP_LS := 9
  const OP_LE := 10
  const OP_S_EQ := 11
  const OP_S_LIKE := 12
  const OP_CJUMP := 13
  const OP_NJUMP := 14
  const OP_HLT := 15

  /** A word of code or a stack slot. The address of a pool entry is a tagged reference to it; the
      address of a string or regex that a caller passes as a variable is a tag around its contents. */
  datatype Cell =
    | Word(w: int)
    | StringAt(index: int)
    | RegexAt(index: int)
    | StringPtr(s: string)
    | RegexPtr(pattern: string)

  datatype Pools = Pools(strings: seq<string>, regexes: seq<string>)

  predicate HasOperand(op: int) {
    OP_LOAD_INT64 <= op <= OP_LOAD_REGEX || op == OP_CJUMP || op == OP_NJUMP
  }

  /** The number of cells an instruction takes. */
  function Width(op: int): nat {
    if HasOperand(op) then 2 else 1
  }

  /** The cells are a whole number of instructions. */
  predicate Whole(code: seq<Cell>) {
    code == [] ||
    (code[0].Word? && Width(code[0].w) <= |code| && (HasOperand(code[0].w) ==> code[1].Word?)
      && Whole(code[Width(code[0].w)..]))
  }

  lemma {:induction false} WholeConcat(a: seq<Cell>, b: seq<Cell>)
    requires Whole(a) && Whole(b)
    ensures Whole(a + b)
  {
    if a == [] {
      assert a + b == b;
    } else {
      WholeConcat(a[Width(a[0].w)..], b);
      assert (a + b)[Width(a[0].w)..] == a[Width(a[0].w)..] + b;
    }
  }

  // ---------- generation ----------

  /** What generating one tree appends to the code, to the two pools and to the error stream. */
  datatype Piece = Piece(code: seq<Cell>, strings: seq<string>, regexes: seq<string>, err: seq<Diagnostic>)

  function Op(op: int): (code: seq<Cell>) {
    [Word(op)]
  }

  function Load(op: int, operand: int): seq<Cell> {
    [Word(op), Word(operand)]
  }

  /** `ensure_type`: the code and the error of converting an operand. */
  function Conversion(from: Type, to: Type, at: int): (seq<Cell>, seq<Diagnostic>) {
    if from == to || (to == TInteger && from == TBoolean) then ([], [])
    else if to == TBoolean && from == TInteger then (Op(OP_TEST), [])
    else ([], [BadConversion(from, at, to)])
  }

  /** The types the operands of an operator are converted to; equality looks at its left operand. */
  function Wanted(op: BinOp, lt: Type): (Type, Type) {
    match op
    case And => (TBoolean, TBoolean)
    case Or => (TBoolean, TBoolean)
    case Like => (TString, TRegex)
    case Eq => if lt == TString then (TString, TString) else (TInteger, TInteger)
    case Ne => if lt == TString then (TString, TString) else (TInteger, TInteger)
    case _ => (TInteger, TInteger)
  }

  /** The instructions that follow both operands. */
  function Tail(op: BinOp, lt: Type): seq<Cell> {
    match op
    case And => Op(OP_AND)
    case Or => Op(OP_OR)
    case Like => Op(OP_S_LIKE)
    case Eq => if lt == TString then Op(OP_S_EQ) else Op(OP_EQ)
    case Ne => (if lt == TString then Op(OP_S_EQ) else Op(OP_EQ)) + Op(OP_NOT)
    case Le => Op(OP_LE)
    case Gt => Op(OP_LE) + Op(OP_NOT)
    case Ls => Op(OP_LS)
    case Ge => Op(OP_LS) + Op(OP_NOT)
  }

  /** The piece of a tree when the pools already hold `ns` strings and `nr` regexes. */
  function Gen(e: Expr, types: seq<Type>, regexRequired: bool, engine: RegexEngine, ns: nat, nr: nat): Piece {
    match e
    case Variable(_, id) => Piece(Load(OP_LOAD_VAR, id), [], [], [])
    case Integer(_, n) => Piece(Load(OP_LOAD_INT64, n), [], [], [])
    case Error => Piece(Load(OP_LOAD_INT64, 0), [], [], [])
    case Text(at, raw) =>
      if !regexRequired then Piece(Load(OP_LOAD_STR, ns), [Unescape(raw)], [], [])
      else if engine.valid(Unescape(raw)) then Piece(Load(OP_LOAD_REGEX, nr), [], [Unescape(raw)], [])
      else Piece(Load(OP_LOAD_REGEX, nr), [], [], [BadRegex(at)])
    case Not(_, t) =>
      var p := Gen(t, types, false, engine, ns, nr);
      var c := Conversion(TypeOf(t, types, false), TBoolean, At(t));
      Piece(p.code + c.0 + Op(OP_NOT), p.strings, p.regexes, p.err + c.1)
    case Binary(_, op, l, r) =>
      var p := Gen(l, types, false, engine, ns, nr);
      var q := Gen(r, types, op == Like, engine, ns + |p.strings|, nr + |p.regexes|);
      var lt := TypeOf(l, types, false);
      Combine(op, lt, p, q, Conversion(lt, Wanted(op, lt).0, At(l)),
              Conversion(TypeOf(r, types, op == Like), Wanted(op, lt).1, At(r)))
  }

  type Converted = (seq<Cell>, seq<Diagnostic>)

  /** Both operand pieces, both conversions and the operator itself. The left conversion of a
      short-circuit operator comes before the jump, which skips everything up to its end. */
  function Combine(op: BinOp, lt: Type, p: Piece, q: Piece, a: Converted, b: Converted): Piece {
    if op == And || op == Or then
      Piece(p.code + a.0 + Load(Jump(op), |q.code| + |b.0| + 1) + q.code + b.0 + Tail(op, lt),
            p.strings + q.strings, p.regexes + q.regexes, p.err + a.1 + q.err + b.1)
    else
      Piece(p.code + q.code + a.0 + b.0 + Tail(op, lt),
            p.strings + q.strings, p.regexes + q.regexes, p.err + q.err + a.1 + b.1)
  }

  function Jump(op: BinOp): int {
    if op == And then OP_NJUMP else OP_CJUMP
  }

  lemma {:induction false} GenWhole(e: Expr, types: seq<Type>, regexRequired: bool, engine: RegexEngine, ns: nat,
                                    nr: nat)
    ensures Whole(Gen(e, types, regexRequired, engine, ns, nr).code)
  {
    hide Combine, Conversion, Wanted, Unescape;
    match e {
      case Not(_, t) =>
        GenWhole(t, types, false, engine, ns, nr);
        var p := Gen(t, types, false, engine, ns, nr);
        ConversionWhole(TypeOf(t, types, false), TBoolean, At(t));
        WholeConcat3(p.code, Conversion(TypeOf(t, types, false), TBoolean, At(t)).0, Op(OP_NOT));
      case Binary(_, op, l, r) =>
        GenWhole(l, types, false, engine, ns, nr);
        var p := Gen(l, types, false, engine, ns, nr);
        GenWhole(r, types, op == Like, engine, ns + |p.strings|, nr + |p.regexes|);
        var lt := TypeOf(l, types, false);
        ConversionWhole(lt, Wanted(op, lt).0, At(l));
        ConversionWhole(TypeOf(r, types, op == Like), Wanted(op, lt).1, At(r));
        CombineWhole(op, lt, p, Gen(r, types, op == Like, engine, ns + |p.strings|, nr + |p.regexes|),
                     Conversion(lt, Wanted(op, lt).0, At(l)),
                     Conversion(TypeOf(r, types, op == Like), Wanted(op, lt).1, At(r)));
      case _ =>
        LoadWhole();
    }
  }

  lemma CombineWhole(op: BinOp, lt: Type, p: Piece, q: Piece, a: Converted, b: Converted)
    requires Whole(p.code) && Whole(q.code) && Whole(a.0) && Whole(b.0)
    ensures Whole(Combine(op, lt, p, q, a, b).code)
  {
    hide Whole, Tail;
    TailWhole(op, lt);
    LoadWhole();
    if op == And || op == Or {
      var load := Load(Jump(op), |q.code| + |b.0| + 1);
      WholeConcat3(p.code, a.0, load);
      WholeConcat3(p.code + a.0 + load, q.code, b.0);
      WholeConcat(p.code + a.0 + load + q.code + b.0, Tail(op, lt));
    } else {
      WholeConcat3(p.code, q.code, a.0);
      WholeConcat3(p.code + q.code + a.0, b.0, Tail(op, lt));
    }
  }

  lemma ConversionWhole(from: Type, to: Type, at: int)
    ensures Whole(Conversion(from, to, at).0)
  {
  }

  lemma {:induction false} WholeConcat3(a: seq<Cell>, b: seq<Cell>, c: seq<Cell>)
    requires Whole(a) && Whole(b) && Whole(c)
    ensures Whole(a + b + c)
  {
    WholeConcat(a, b);
    WholeConcat(a + b, c);
  }

  lemma TailWhole(op: BinOp, lt: Type)
    ensures Whole(Tail(op, lt))
  {
    hide *;
    OpsWhole();
    TailOps(op, lt);
  }

  lemma TailOps(op: BinOp, lt: Type)
    ensures exists x :: !HasOperand(x) && (Tail(op, lt) == Op(x) || Tail(op, lt) == Op(x) + Op(OP_NOT))
  {
    var t := Tail(op, lt);
    assert t == Op(t[0].w) || t == Op(t[0].w) + Op(OP_NOT);
  }

  lemma OpsWhole()
    ensures forall x | !HasOperand(x) :: Whole(Op(x)) && Whole(Op(x) + Op(OP_NOT))
  {
    forall x | !HasOperand(x) ensures Whole(Op(x)) && Whole(Op(x) + Op(OP_NOT)) {
      WholeConcat(Op(x), Op(OP_NOT));
    }
  }

  lemma LoadWhole()
    ensures forall op, v | HasOperand(op) :: Whole(Load(op, v))
  {
  }

  /** The type checker is exact: generation reports nothing iff the tree is well typed. */
  lemma {:induction false} GenErrorsIffIllTyped(e: Expr, types: seq<Type>, regexRequired: bool, engine: RegexEngine,
                                                ns: nat, nr: nat)
    ensures Gen(e, types, regexRequired, engine, ns, nr).err == [] <==> WellTyped(e, types, regexRequired, engine)
  {
    hide Combine, Conversion, Admits, Wanted, Tail, Unescape;
    match e {
      case Not(_, t) =>
        GenErrorsIffIllTyped(t, types, false, engine, ns, nr);
        BooleanOperand(TypeOf(t, types, false), At(t));
      case Binary(_, op, l, r) =>
        GenErrorsIffIllTyped(l, types, false, engine, ns, nr);
        var p := Gen(l, types, false, engine, ns, nr);
        GenErrorsIffIllTyped(r, types, op == Like, engine, ns + |p.strings|, nr + |p.regexes|);
        var lt, rt := TypeOf(l, types, false), TypeOf(r, types, op == Like);
        CombineErrors(op, lt, p, Gen(r, types, op == Like, engine, ns + |p.strings|, nr + |p.regexes|),
                      Conversion(lt, Wanted(op, lt).0, At(l)), Conversion(rt, Wanted(op, lt).1, At(r)));
        ConversionErrors(op, lt, rt, At(l), At(r));
      case _ =>
    }
  }

  lemma CombineErrors(op: BinOp, lt: Type, p: Piece, q: Piece, a: Converted, b: Converted)
    ensures Combine(op, lt, p, q, a, b).err == [] <==> p.err == [] && q.err == [] && a.1 == [] && b.1 == []
  {
  }

  lemma BooleanOperand(t: Type, at: int)
    ensures Conversion(t, TBoolean, at).1 == [] <==> Scalar(t)
  {
  }

  lemma ConversionErrors(op: BinOp, lt: Type, rt: Type, la: int, ra: int)
    ensures
      Conversion(lt, Wanted(op, lt).0, la).1 == [] && Conversion(rt, Wanted(op, lt).1, ra).1 == [] <==>
      Admits(op, lt, rt)
  {
  }
}
