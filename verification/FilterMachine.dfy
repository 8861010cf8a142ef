/** The link pass and the stack machine, and what running generated code computes. */
module FilterMachine {
  import opened Shared
  import opened FilterAst
  import opened FilterCode

  // ---------- linking ----------

  /** Loads of pool entries become loads of their addresses. An operand is stepped over, so it is
      never read as an opcode. */
  function Link(code: seq<Cell>): (linked: seq<Cell>)
    requires Whole(code)
    ensures |linked| == |code|
  {
    if code == [] then [] else LinkFirst(code) + Link(code[Width(code[0].w)..])
  }

  function LinkFirst(code: seq<Cell>): (first: seq<Cell>)
    requires Whole(code) && code != []
    ensures |first| == Width(code[0].w)
  {
    if code[0].w == OP_LOAD_STR then [Word(OP_LOAD_INT64), StringAt(code[1].w)]
    else if code[0].w == OP_LOAD_REGEX then [Word(OP_LOAD_INT64), RegexAt(code[1].w)]
    else code[..Width(code[0].w)]
  }

  lemma LinkNone()
    ensures Whole([]) && Link([]) == []
  {
  }

  lemma {:induction false} WholeRest(code: seq<Cell>)
    requires Whole(code) && code != []
    ensures code[0].Word? && Width(code[0].w) <= |code| && Whole(code[Width(code[0].w)..])
    ensures Link(code) == LinkFirst(code) + Link(code[Width(code[0].w)..])
  {
    hide LinkFirst;
  }

  lemma {:induction false} LinkConcat(a: seq<Cell>, b: seq<Cell>)
    requires Whole(a) && Whole(b)
    ensures Whole(a + b) && Link(a + b) == Link(a) + Link(b)
  {
    hide LinkFirst, Link, Whole;
    WholeConcat(a, b);
    if a == [] {
      assert a + b == b;
      LinkNone();
    } else {
      WholeRest(a);
      WholeRest(a + b);
      var rest := a[Width(a[0].w)..];
      LinkConcat(rest, b);
      assert (a + b)[Width(a[0].w)..] == rest + b;
      LinkFirstConcat(a, b);
      assert LinkFirst(a) + (Link(rest) + Link(b)) == LinkFirst(a) + Link(rest) + Link(b);
    }
  }

  lemma {:induction false} LinkFirstConcat(a: seq<Cell>, b: seq<Cell>)
    requires Whole(a) && a != [] && Whole(a + b)
    ensures LinkFirst(a + b) == LinkFirst(a)
  {
    assert (a + b)[..Width(a[0].w)] == a[..Width(a[0].w)];
  }

  // ---------- the machine ----------

  datatype Machine = Machine(code: seq<Cell>, pools: Pools, vars: seq<Cell>, engine: RegexEngine)

  /** Fault stands for every access out of range, for a stack underflow, for an operand of the wrong
      kind and for a jump that does not advance. */
  datatype Outcome = Halted(stack: seq<Cell>) | Fault

  function StringOf(c: Cell, pools: Pools): Option<string> {
    match c
    case StringAt(i) => if 0 <= i < |pools.strings| then Some(pools.strings[i]) else None
    case StringPtr(s) => Some(s)
    case _ => None
  }

  function PatternOf(c: Cell, pools: Pools): Option<string> {
    match c
    case RegexAt(i) => if 0 <= i < |pools.regexes| then Some(pools.regexes[i]) else None
    case RegexPtr(p) => Some(p)
    case _ => None
  }

  function Bit(b: bool): Cell {
    Word(if b then 1 else 0)
  }

  /** Bitwise operations on two's complement words of any width. */
  function BitAnd(a: int, b: int): int
    decreases if a < 0 then -a else a
  {
    if a == 0 || b == 0 then 0
    else if a == -1 then b
    else 2 * BitAnd(a / 2, b / 2) + (a % 2) * (b % 2)
  }

  function BitOr(a: int, b: int): int {
    -1 - BitAnd(-1 - a, -1 - b)
  }

  function Top(stack: seq<Cell>): Cell
    requires stack != []
  {
    stack[|stack| - 1]
  }

  function Pop(stack: seq<Cell>): seq<Cell>
    requires stack != []
  {
    stack[..|stack| - 1]
  }

  predicate IsBinary(op: int) {
    OP_AND <= op <= OP_S_LIKE
  }

  /** The result of a two-operand instruction; `prev` is the slot that was on top. */
  function Binop(op: int, under: Cell, prev: Cell, pools: Pools, engine: RegexEngine): Option<Cell>
    requires IsBinary(op)
  {
    if op == OP_S_EQ then
      var a, b := StringOf(under, pools), StringOf(prev, pools);
      if a.Some? && b.Some? then Some(Bit(a == b)) else None
    else if op == OP_S_LIKE then
      var a, b := StringOf(under, pools), PatternOf(prev, pools);
      if a.Some? && b.Some? then Some(Bit(engine.matches(a.value, b.value))) else None
    else if !under.Word? || !prev.Word? then None
    else Some(
      if op == OP_AND then Word(BitAnd(under.w, prev.w))
      else if op == OP_OR then Word(BitOr(under.w, prev.w))
      else if op == OP_EQ then Bit(under.w == prev.w)
      else if op == OP_LS then Bit(under.w < prev.w)
      else Bit(under.w <= prev.w))
  }

  /** Runs from instruction `pc` until OP_HLT. */
  function Run(m: Machine, pc: nat, stack: seq<Cell>): Outcome
    decreases |m.code| - pc
  {
    if pc >= |m.code| || !m.code[pc].Word? then Fault
    else
      var op := m.code[pc].w;
      if op == OP_HLT then Halted(stack)
      else if op == OP_LOAD_INT64 then
        if pc + 1 < |m.code| then Run(m, pc + 2, stack + [m.code[pc + 1]]) else Fault
      else if op == OP_LOAD_VAR then
        if pc + 1 < |m.code| && m.code[pc + 1].Word? && 0 <= m.code[pc + 1].w < |m.vars| then
          Run(m, pc + 2, stack + [m.vars[m.code[pc + 1].w]])
        else Fault
      else if op == OP_TEST || op == OP_NOT then
        if stack != [] && Top(stack).Word? then
          Run(m, pc + 1, Pop(stack) + [Bit((Top(stack).w != 0) == (op == OP_TEST))])
        else Fault
      else if IsBinary(op) then
        if |stack| < 2 then Fault
        else
          var r := Binop(op, Top(Pop(stack)), Top(stack), m.pools, m.engine);
          if r.Some? then Run(m, pc + 1, Pop(Pop(stack)) + [r.value]) else Fault
      else if op == OP_CJUMP || op == OP_NJUMP then
        if pc + 1 < |m.code| && m.code[pc + 1].Word? && stack != [] && Top(stack).Word? then
          if (Top(stack).w != 0) != (op == OP_CJUMP) then Run(m, pc + 2, stack)
          else if m.code[pc + 1].w < 0 then Fault
          else if pc + 2 + m.code[pc + 1].w > |m.code| then Fault
          else Run(m, pc + 2 + m.code[pc + 1].w, stack)
        else Fault
      else Run(m, pc + 1, stack)
  }

  // ---------- correctness of generated code ----------

  /** A slot that represents a value. */
  predicate Denotes(c: Cell, v: Value, pools: Pools) {
    match v
    case BoolV(b) => c == Bit(b)
    case IntV(n) => c == Word(n)
    case StrV(s) => StringOf(c, pools) == Some(s)
    case RegexV(p) => PatternOf(c, pools) == Some(p)
  }

  /** How a caller passes a value: booleans as 0 and 1, strings and regexes by address. */
  function CellOf(v: Value): Cell {
    match v
    case BoolV(b) => Bit(b)
    case IntV(n) => Word(n)
    case StrV(s) => StringPtr(s)
    case RegexV(p) => RegexPtr(p)
  }

  predicate Passes(m: Machine, env: seq<Value>) {
    |m.vars| == |env| && forall i :: 0 <= i < |env| ==> m.vars[i] == CellOf(env[i])
  }

  /** The code holds `part` at `pc`. */
  predicate Segment(code: seq<Cell>, pc: nat, part: seq<Cell>) {
    pc + |part| <= |code| && code[pc..pc + |part|] == part
  }

  lemma SegmentSplit(code: seq<Cell>, pc: nat, a: seq<Cell>, b: seq<Cell>)
    requires Segment(code, pc, a + b)
    ensures Segment(code, pc, a) && Segment(code, pc + |a|, b)
  {
    assert code[pc..pc + |a + b|][..|a|] == a;
    assert code[pc..pc + |a + b|][|a|..] == b;
  }

  predicate PoolsHold(pools: Pools, p: Piece, ns: nat, nr: nat) {
    && ns + |p.strings| <= |pools.strings| && pools.strings[ns..ns + |p.strings|] == p.strings
    && nr + |p.regexes| <= |pools.regexes| && pools.regexes[nr..nr + |p.regexes|] == p.regexes
  }

  lemma SliceSplit(s: seq<string>, n: nat, a: seq<string>, b: seq<string>)
    requires n + |a + b| <= |s| && s[n..n + |a + b|] == a + b
    ensures s[n..n + |a|] == a && s[n + |a|..n + |a| + |b|] == b
  {
    var t := s[n..n + |a + b|];
    assert t[..|a|] == a && t[|a|..] == b;
    forall k | 0 <= k < |a| ensures s[n..n + |a|][k] == a[k] {
      assert t[k] == a[k];
    }
    forall k | 0 <= k < |b| ensures s[n + |a|..n + |a| + |b|][k] == b[k] {
      assert t[|a| + k] == b[k];
    }
  }

  lemma PoolsSplit(pools: Pools, p: Piece, q: Piece, code: seq<Cell>, err: seq<Diagnostic>, ns: nat, nr: nat)
    requires PoolsHold(pools, Piece(code, p.strings + q.strings, p.regexes + q.regexes, err), ns, nr)
    ensures PoolsHold(pools, p, ns, nr) && PoolsHold(pools, q, ns + |p.strings|, nr + |p.regexes|)
  {
    SliceSplit(pools.strings, ns, p.strings, q.strings);
    SliceSplit(pools.regexes, nr, p.regexes, q.regexes);
  }

  /** Converting the slot of a scalar to the type an operator wants. */
  lemma RunConversion(m: Machine, from: Type, to: Type, at: int, v: Value, c: Cell, pc: nat, stack: seq<Cell>)
    returns (d: Cell)
    requires HasType(v, from) && Denotes(c, v, m.pools)
    requires Conversion(from, to, at).1 == []
    requires Segment(m.code, pc, Conversion(from, to, at).0)
    ensures Run(m, pc, stack + [c]) == Run(m, pc + |Conversion(from, to, at).0|, stack + [d])
    ensures to == TBoolean ==> d == Bit(Truth(v))
    ensures to == TInteger ==> d == Word(Number(v))
    ensures to == TString || to == TRegex ==> d == c && from == to
  {
    if to == TBoolean && from == TInteger {
      var before := stack + [c];
      assert m.code[pc..pc + 1][0] == m.code[pc];
      assert Top(before) == c && Pop(before) == stack;
      d := Bit(Truth(v));
    } else {
      d := c;
    }
  }

  /** The operator instructions on converted operands leave the meaning of the operator. */
  lemma {:induction false} RunTail(m: Machine, op: BinOp, lt: Type, a: Value, b: Value, x: Cell, y: Cell, pc: nat,
                                   stack: seq<Cell>)
    requires op != And && op != Or
    requires Segment(m.code, pc, Tail(op, lt))
    requires Wanted(op, lt).0 == TInteger ==> !a.StrV? && x == Word(Number(a)) && y == Word(Number(b))
    requires Wanted(op, lt).0 == TString ==> a.StrV? && Denotes(x, a, m.pools) && Denotes(y, b, m.pools)
    requires Wanted(op, lt).1 == TString ==> b.StrV?
    requires Wanted(op, lt).1 == TRegex ==> b.RegexV?
    ensures Run(m, pc, stack + [x, y]) == Run(m, pc + |Tail(op, lt)|, stack + [Bit(Apply(op, a, b, m.engine))])
  {
    hide Run, Binop, Apply, Tail, Wanted, Denotes;
    TailResult(op, lt, a, b, x, y, m.pools, m.engine);
    var first := m.code[pc..pc + |Tail(op, lt)|];
    assert first[0] == m.code[pc];
    var r := Binop(m.code[pc].w, x, y, m.pools, m.engine);
    RunBinop(m, pc, stack, x, y);
    if |Tail(op, lt)| == 2 {
      assert first[1] == m.code[pc + 1];
      RunNotWord(m, pc + 1, stack, r.value);
    }
  }

  /** The first instruction computes the operator or, before an OP_NOT, its negation. */
  lemma TailResult(op: BinOp, lt: Type, a: Value, b: Value, x: Cell, y: Cell, pools: Pools, engine: RegexEngine)
    requires op != And && op != Or
    requires Wanted(op, lt).0 == TInteger ==> !a.StrV? && x == Word(Number(a)) && y == Word(Number(b))
    requires Wanted(op, lt).0 == TString ==> a.StrV? && Denotes(x, a, pools) && Denotes(y, b, pools)
    requires Wanted(op, lt).1 == TString ==> b.StrV?
    requires Wanted(op, lt).1 == TRegex ==> b.RegexV?
    ensures var tail := Tail(op, lt);
      && 1 <= |tail| <= 2 && tail[0].Word? && IsBinary(tail[0].w)
      && var r := Binop(tail[0].w, x, y, pools, engine);
         && r.Some? && r.value.Word?
         && (|tail| == 1 ==> r.value == Bit(Apply(op, a, b, engine)))
         && (|tail| == 2 ==> tail[1] == Word(OP_NOT) && Bit(r.value.w == 0) == Bit(Apply(op, a, b, engine)))
  {
  }

  lemma {:induction false} RunBinop(m: Machine, pc: nat, stack: seq<Cell>, x: Cell, y: Cell)
    requires pc < |m.code| && m.code[pc].Word? && IsBinary(m.code[pc].w)
    requires Binop(m.code[pc].w, x, y, m.pools, m.engine).Some?
    ensures Run(m, pc, stack + [x, y]) == Run(m, pc + 1, stack + [Binop(m.code[pc].w, x, y, m.pools, m.engine).value])
  {
    hide Binop;
    TwoOnTop(stack, x, y);
  }

  lemma {:induction false} RunNotWord(m: Machine, pc: nat, stack: seq<Cell>, x: Cell)
    requires pc < |m.code| && m.code[pc] == Word(OP_NOT) && x.Word?
    ensures Run(m, pc, stack + [x]) == Run(m, pc + 1, stack + [Bit(x.w == 0)])
  {
    OneOnTop(stack, x);
  }

  lemma OneOnTop(stack: seq<Cell>, x: Cell)
    ensures stack + [x] != [] && Top(stack + [x]) == x && Pop(stack + [x]) == stack
  {
  }

  lemma TwoOnTop(stack: seq<Cell>, x: Cell, y: Cell)
    ensures |stack + [x, y]| >= 2 && Top(stack + [x, y]) == y
    ensures Top(Pop(stack + [x, y])) == x && Pop(Pop(stack + [x, y])) == stack
  {
    assert stack + [x, y] == stack + [x] + [y];
    OneOnTop(stack + [x], y);
    OneOnTop(stack, x);
  }

  lemma ConversionLinked(from: Type, to: Type, at: int)
    ensures Whole(Conversion(from, to, at).0) && Link(Conversion(from, to, at).0) == Conversion(from, to, at).0
  {
  }

  lemma TailLinked(op: BinOp, lt: Type)
    ensures Whole(Tail(op, lt)) && Link(Tail(op, lt)) == Tail(op, lt)
  {
    TailWhole(op, lt);
    if |Tail(op, lt)| == 2 {
      LinkConcat(Tail(op, lt)[..1], Tail(op, lt)[1..]);
      assert Tail(op, lt) == Tail(op, lt)[..1] + Tail(op, lt)[1..];
    }
  }

  lemma JumpLinked(op: BinOp, skip: nat)
    ensures Whole(Load(Jump(op), skip)) && Link(Load(Jump(op), skip)) == Load(Jump(op), skip)
  {
    assert Load(Jump(op), skip)[2..] == [];
  }

  lemma {:induction false} LinkConcat3(a: seq<Cell>, b: seq<Cell>, c: seq<Cell>)
    requires Whole(a) && Whole(b) && Whole(c)
    ensures Whole(a + b + c) && Link(a + b + c) == Link(a) + Link(b) + Link(c)
  {
    LinkConcat(a, b);
    LinkConcat(a + b, c);
  }

  /** The linked code of a non-short-circuit operator, part by part. */
  lemma EagerLayout(m: Machine, op: BinOp, lt: Type, p: Piece, q: Piece, a: Converted, b: Converted, pc: nat)
    requires op != And && op != Or
    requires Whole(p.code) && Whole(q.code) && Whole(a.0) && Whole(b.0) && Link(a.0) == a.0 && Link(b.0) == b.0
    requires Whole(Combine(op, lt, p, q, a, b).code)
    requires Segment(m.code, pc, Link(Combine(op, lt, p, q, a, b).code))
    ensures Segment(m.code, pc, Link(p.code))
    ensures Segment(m.code, pc + |p.code|, Link(q.code))
    ensures Segment(m.code, pc + |p.code| + |q.code|, a.0)
    ensures Segment(m.code, pc + |p.code| + |q.code| + |a.0|, b.0)
    ensures Segment(m.code, pc + |p.code| + |q.code| + |a.0| + |b.0|, Tail(op, lt))
  {
    hide Link, Whole, Tail, Segment, Jump;
    TailLinked(op, lt);
    LinkConcat3(p.code, q.code, a.0);
    LinkConcat3(p.code + q.code + a.0, b.0, Tail(op, lt));
    SegmentSplit(m.code, pc, Link(p.code) + Link(q.code) + a.0 + b.0, Tail(op, lt));
    SegmentSplit(m.code, pc, Link(p.code) + Link(q.code) + a.0, b.0);
    SegmentSplit(m.code, pc, Link(p.code) + Link(q.code), a.0);
    SegmentSplit(m.code, pc, Link(p.code), Link(q.code));
  }

  /** The linked code of a short-circuit operator, part by part. */
  lemma LazyLayout(m: Machine, op: BinOp, lt: Type, p: Piece, q: Piece, a: Converted, b: Converted, pc: nat)
    requires op == And || op == Or
    requires Whole(p.code) && Whole(q.code) && Whole(a.0) && Whole(b.0) && Link(a.0) == a.0 && Link(b.0) == b.0
    requires Whole(Combine(op, lt, p, q, a, b).code)
    requires Segment(m.code, pc, Link(Combine(op, lt, p, q, a, b).code))
    ensures Segment(m.code, pc, Link(p.code))
    ensures Segment(m.code, pc + |p.code|, a.0)
    ensures Segment(m.code, pc + |p.code| + |a.0|, Load(Jump(op), |q.code| + |b.0| + 1))
    ensures Segment(m.code, pc + |p.code| + |a.0| + 2, Link(q.code))
    ensures Segment(m.code, pc + |p.code| + |a.0| + 2 + |q.code|, b.0)
    ensures Segment(m.code, pc + |p.code| + |a.0| + 2 + |q.code| + |b.0|, Tail(op, lt))
  {
    hide Link, Whole, Tail, Segment, Jump;
    var load := Load(Jump(op), |q.code| + |b.0| + 1);
    TailLinked(op, lt);
    JumpLinked(op, |q.code| + |b.0| + 1);
    LinkConcat3(p.code, a.0, load);
    LinkConcat3(p.code + a.0 + load, q.code, b.0);
    LinkConcat(p.code + a.0 + load + q.code + b.0, Tail(op, lt));
    LazySegments(m.code, pc, Link(p.code), a.0, load, Link(q.code), b.0, Tail(op, lt));
  }

  lemma LazySegments(code: seq<Cell>, pc: nat, p: seq<Cell>, a: seq<Cell>, load: seq<Cell>, q: seq<Cell>,
                     b: seq<Cell>, tail: seq<Cell>)
    requires Segment(code, pc, p + a + load + q + b + tail)
    ensures Segment(code, pc, p) && Segment(code, pc + |p|, a) && Segment(code, pc + |p| + |a|, load)
    ensures Segment(code, pc + |p| + |a| + |load|, q) && Segment(code, pc + |p| + |a| + |load| + |q|, b)
    ensures Segment(code, pc + |p| + |a| + |load| + |q| + |b|, tail)
  {
    hide Segment;
    SegmentSplit(code, pc, p + a + load + q + b, tail);
    SegmentSplit(code, pc, p + a + load + q, b);
    SegmentSplit(code, pc, p + a + load, q);
    SegmentSplit(code, pc, p + a, load);
    SegmentSplit(code, pc, p, a);
  }

  /** One jump: it lands just past the final operator exactly when the left operand decides. */
  lemma RunJump(m: Machine, op: BinOp, skip: nat, t: bool, pc: nat, stack: seq<Cell>)
    requires op == And || op == Or
    requires Segment(m.code, pc, Load(Jump(op), skip)) && pc + 2 + skip <= |m.code|
    ensures Run(m, pc, stack + [Bit(t)]) == Run(m, if t == (op == Or) then pc + 2 + skip else pc + 2, stack + [Bit(t)])
  {
    var load := m.code[pc..pc + 2];
    assert load[0] == m.code[pc] && load[1] == m.code[pc + 1];
    assert Top(stack + [Bit(t)]) == Bit(t);
  }

  /** The final operator of a short-circuit expression, on a left operand that did not decide. */
  lemma {:induction false} RunLast(m: Machine, op: BinOp, lt: Type, a: bool, b: bool, pc: nat, stack: seq<Cell>)
    requires op == And || op == Or
    requires Segment(m.code, pc, Tail(op, lt))
    ensures Run(m, pc, stack + [Bit(a), Bit(b)]) == Run(m, pc + 1, stack + [Bit(if op == And then a && b else a || b)])
  {
    var before := stack + [Bit(a), Bit(b)];
    assert Top(before) == Bit(b) && Top(Pop(before)) == Bit(a) && Pop(Pop(before)) == stack;
    assert m.code[pc..pc + 1][0] == m.code[pc];
    assert BitAnd(-1, -1) == -1 && BitAnd(-2, -2) == 2 * BitAnd(-1, -1);
    assert BitAnd(-2, -1) == 2 * BitAnd(-1, -1) && BitAnd(-1, -2) == -2;
  }

  /** The linked code of a tree. */
  ghost function Linked(m: Machine, e: Expr, types: seq<Type>, regexRequired: bool, ns: nat, nr: nat): seq<Cell> {
    GenWhole(e, types, regexRequired, m.engine, ns, nr);
    Link(Gen(e, types, regexRequired, m.engine, ns, nr).code)
  }

  /** The machine holds the linked code and the pool entries of a well-typed tree, and its variables
      pass a valuation. */
  ghost predicate Ready(m: Machine, e: Expr, types: seq<Type>, env: seq<Value>, regexRequired: bool, ns: nat, nr: nat,
                        pc: nat) {
    && Valuation(env, types) && Passes(m, env) && VariablesBelow(e, |types|)
    && WellTyped(e, types, regexRequired, m.engine) && TypeOf(e, types, regexRequired) != TError
    && PoolsHold(m.pools, Gen(e, types, regexRequired, m.engine, ns, nr), ns, nr)
    && Segment(m.code, pc, Linked(m, e, types, regexRequired, ns, nr))
  }

  /** Compiler correctness: the linked code of a well-typed tree pushes one slot that denotes the
      value of the tree and leaves the rest of the stack alone. */
  lemma {:induction false} RunGen(m: Machine, e: Expr, types: seq<Type>, env: seq<Value>, regexRequired: bool,
                                  ns: nat, nr: nat, pc: nat, stack: seq<Cell>)
    returns (c: Cell)
    requires Ready(m, e, types, env, regexRequired, ns, nr, pc)
    ensures Denotes(c, Eval(e, env, regexRequired, m.engine), m.pools)
    ensures Run(m, pc, stack) == Run(m, pc + |Gen(e, types, regexRequired, m.engine, ns, nr).code|, stack + [c])
    decreases e, 1
  {
    hide *;
    if e.Not? {
      NotIgnoresRegex(e, types, env, regexRequired, m, ns, nr, pc);
      c := RunNot(m, e, types, env, ns, nr, pc, stack);
    } else if e.Binary? {
      NotIgnoresRegex(e, types, env, regexRequired, m, ns, nr, pc);
      if e.op == And || e.op == Or {
        c := RunLazy(m, e, types, env, ns, nr, pc, stack);
      } else {
        c := RunEager(m, e, types, env, ns, nr, pc, stack);
      }
    } else {
      c := RunLeaf(m, e, types, env, regexRequired, ns, nr, pc, stack);
    }
  }

  /** An operator does not become a pattern where a pattern is wanted. */
  lemma {:induction false} NotIgnoresRegex(e: Expr, types: seq<Type>, env: seq<Value>, regexRequired: bool, m: Machine,
                                           ns: nat, nr: nat, pc: nat)
    requires e.Not? || e.Binary?
    ensures Gen(e, types, regexRequired, m.engine, ns, nr) == Gen(e, types, false, m.engine, ns, nr)
    ensures Eval(e, env, regexRequired, m.engine) == Eval(e, env, false, m.engine)
    ensures Ready(m, e, types, env, regexRequired, ns, nr, pc) ==> Ready(m, e, types, env, false, ns, nr, pc)
  {
    hide Combine, Conversion, Apply, Unescape, Admits, Link;
  }

  lemma RunLeaf(m: Machine, e: Expr, types: seq<Type>, env: seq<Value>, regexRequired: bool,
                ns: nat, nr: nat, pc: nat, stack: seq<Cell>)
    returns (c: Cell)
    requires Ready(m, e, types, env, regexRequired, ns, nr, pc) && !e.Not? && !e.Binary?
    ensures Denotes(c, Eval(e, env, regexRequired, m.engine), m.pools)
    ensures Run(m, pc, stack) == Run(m, pc + |Gen(e, types, regexRequired, m.engine, ns, nr).code|, stack + [c])
  {
    hide Unescape;
    var part := m.code[pc..pc + 2];
    assert part[0] == m.code[pc] && part[1] == m.code[pc + 1];
    match e {
      case Variable(_, id) => c := m.vars[id];
      case Integer(_, n) => c := Word(n);
      case Text(_, raw) =>
        if regexRequired {
          c := RegexAt(nr);
          assert m.pools.regexes[nr..nr + 1][0] == m.pools.regexes[nr];
        } else {
          c := StringAt(ns);
          assert m.pools.strings[ns..ns + 1][0] == m.pools.strings[ns];
        }
    }
  }

  // ---------- negation ----------

  lemma {:induction false} UnfoldNot(m: Machine, e: Expr, types: seq<Type>, env: seq<Value>, ns: nat, nr: nat, pc: nat)
    requires e.Not? && Ready(m, e, types, env, false, ns, nr, pc)
    ensures
      var p := Gen(e.t, types, false, m.engine, ns, nr);
      var c := Conversion(TypeOf(e.t, types, false), TBoolean, At(e.t));
      && Gen(e, types, false, m.engine, ns, nr) == Piece(p.code + c.0 + Op(OP_NOT), p.strings, p.regexes, p.err + c.1)
      && Eval(e, env, false, m.engine) == BoolV(!Truth(Eval(e.t, env, false, m.engine)))
      && Valuation(env, types) && Passes(m, env) && VariablesBelow(e.t, |types|)
      && WellTyped(e.t, types, false, m.engine) && Scalar(TypeOf(e.t, types, false))
      && PoolsHold(m.pools, p, ns, nr)
  {
    hide Combine, Conversion, Apply, Unescape, Admits, Link, Whole;
  }

  lemma {:induction false} NotParts(m: Machine, e: Expr, types: seq<Type>, env: seq<Value>, ns: nat, nr: nat, pc: nat)
    requires e.Not? && Ready(m, e, types, env, false, ns, nr, pc)
    ensures
      var p := Gen(e.t, types, false, m.engine, ns, nr);
      var c := Conversion(TypeOf(e.t, types, false), TBoolean, At(e.t));
      && Ready(m, e.t, types, env, false, ns, nr, pc)
      && Segment(m.code, pc + |p.code|, c.0)
      && Segment(m.code, pc + |p.code| + |c.0|, Op(OP_NOT))
  {
    hide Link, Whole, Conversion, Segment, Gen, WellTyped, Eval, VariablesBelow, TypeOf, PoolsHold;
    UnfoldNot(m, e, types, env, ns, nr, pc);
    var t := TypeOf(e.t, types, false);
    var p := Gen(e.t, types, false, m.engine, ns, nr);
    var conv := Conversion(t, TBoolean, At(e.t)).0;
    GenWhole(e.t, types, false, m.engine, ns, nr);
    ConversionLinked(t, TBoolean, At(e.t));
    NotLinked();
    LinkConcat3(p.code, conv, Op(OP_NOT));
    SegmentSplit(m.code, pc, Link(p.code) + conv, Op(OP_NOT));
    SegmentSplit(m.code, pc, Link(p.code), conv);
  }

  lemma NotLinked()
    ensures Whole(Op(OP_NOT)) && Link(Op(OP_NOT)) == Op(OP_NOT)
  {
  }

  lemma {:induction false} RunNotInstruction(m: Machine, b: bool, pc: nat, stack: seq<Cell>)
    requires Segment(m.code, pc, Op(OP_NOT))
    ensures Run(m, pc, stack + [Bit(b)]) == Run(m, pc + 1, stack + [Bit(!b)])
    ensures |Op(OP_NOT)| == 1
  {
    assert m.code[pc..pc + 1][0] == m.code[pc];
    assert Top(stack + [Bit(b)]) == Bit(b) && Pop(stack + [Bit(b)]) == stack;
  }

  lemma {:induction false} RunNot(m: Machine, e: Expr, types: seq<Type>, env: seq<Value>, ns: nat, nr: nat, pc: nat,
                                  stack: seq<Cell>)
    returns (c: Cell)
    requires e.Not? && Ready(m, e, types, env, false, ns, nr, pc)
    ensures Denotes(c, Eval(e, env, false, m.engine), m.pools)
    ensures Run(m, pc, stack) == Run(m, pc + |Gen(e, types, false, m.engine, ns, nr).code|, stack + [c])
    decreases e, 0
  {
    hide *;
    UnfoldNot(m, e, types, env, ns, nr, pc);
    NotParts(m, e, types, env, ns, nr, pc);
    var t := TypeOf(e.t, types, false);
    var p := Gen(e.t, types, false, m.engine, ns, nr);
    var conv := Conversion(t, TBoolean, At(e.t)).0;
    var x := RunGen(m, e.t, types, env, false, ns, nr, pc, stack);
    var v := Eval(e.t, env, false, m.engine);
    ScalarIsTyped(t);
    EvalHasType(e.t, types, env, false, m.engine);
    BooleanOperand(t, At(e.t));
    var y := RunConversion(m, t, TBoolean, At(e.t), v, x, pc + |p.code|, stack);
    RunNotInstruction(m, Truth(v), pc + |p.code| + |conv|, stack);
    c := Bit(!Truth(v));
    BitDenotes(!Truth(v), m.pools);
  }

  lemma ScalarIsTyped(t: Type)
    requires Scalar(t)
    ensures t != TError
  {
  }

  lemma BitDenotes(b: bool, pools: Pools)
    ensures Denotes(Bit(b), BoolV(b), pools)
  {
  }

  // ---------- binary operators ----------

  /** The right operand's piece, at the offsets that the left one leaves. */
  function RightPiece(m: Machine, e: Expr, types: seq<Type>, ns: nat, nr: nat): Piece
    requires e.Binary?
  {
    var p := Gen(e.l, types, false, m.engine, ns, nr);
    Gen(e.r, types, e.op == Like, m.engine, ns + |p.strings|, nr + |p.regexes|)
  }

  function LeftConversion(e: Expr, types: seq<Type>): Converted
    requires e.Binary?
  {
    Conversion(TypeOf(e.l, types, false), Wanted(e.op, TypeOf(e.l, types, false)).0, At(e.l))
  }

  function RightConversion(e: Expr, types: seq<Type>): Converted
    requires e.Binary?
  {
    Conversion(TypeOf(e.r, types, e.op == Like), Wanted(e.op, TypeOf(e.l, types, false)).1, At(e.r))
  }

  lemma {:induction false} UnfoldBinary(m: Machine, e: Expr, types: seq<Type>, env: seq<Value>, ns: nat, nr: nat,
                                        pc: nat)
    requires e.Binary? && Ready(m, e, types, env, false, ns, nr, pc)
    ensures
      var p, q := Gen(e.l, types, false, m.engine, ns, nr), RightPiece(m, e, types, ns, nr);
      var lt, rt := TypeOf(e.l, types, false), TypeOf(e.r, types, e.op == Like);
      && Gen(e, types, false, m.engine, ns, nr)
           == Combine(e.op, lt, p, q, LeftConversion(e, types), RightConversion(e, types))
      && Eval(e, env, false, m.engine) ==
           BoolV(Apply(e.op, Eval(e.l, env, false, m.engine), Eval(e.r, env, e.op == Like, m.engine), m.engine))
      && Valuation(env, types) && Passes(m, env)
      && VariablesBelow(e.l, |types|) && VariablesBelow(e.r, |types|)
      && WellTyped(e.l, types, false, m.engine) && WellTyped(e.r, types, e.op == Like, m.engine)
      && Admits(e.op, lt, rt)
  {
    hide Combine, Conversion, Apply, Unescape, Admits, Link, Whole, Wanted;
  }

  /** What both layouts of a binary operator give about its operands. */
  lemma {:induction false} BinaryParts(m: Machine, e: Expr, types: seq<Type>, env: seq<Value>, ns: nat, nr: nat,
                                       pc: nat)
    requires e.Binary? && Ready(m, e, types, env, false, ns, nr, pc)
    ensures
      var p, q := Gen(e.l, types, false, m.engine, ns, nr), RightPiece(m, e, types, ns, nr);
      var lt, rt := TypeOf(e.l, types, false), TypeOf(e.r, types, e.op == Like);
      && PoolsHold(m.pools, p, ns, nr) && PoolsHold(m.pools, q, ns + |p.strings|, nr + |p.regexes|)
      && LeftConversion(e, types).1 == [] && RightConversion(e, types).1 == []
      && lt != TError && rt != TError
      && Whole(p.code) && Whole(q.code)
      && Whole(LeftConversion(e, types).0) && Link(LeftConversion(e, types).0) == LeftConversion(e, types).0
      && Whole(RightConversion(e, types).0) && Link(RightConversion(e, types).0) == RightConversion(e, types).0
  {
    hide Link, Whole, Conversion, Segment, Gen, WellTyped, Eval, VariablesBelow, TypeOf, PoolsHold, Wanted, Tail;
    UnfoldBinary(m, e, types, env, ns, nr, pc);
    var p, q := Gen(e.l, types, false, m.engine, ns, nr), RightPiece(m, e, types, ns, nr);
    var lt, rt := TypeOf(e.l, types, false), TypeOf(e.r, types, e.op == Like);
    var w := Combine(e.op, lt, p, q, LeftConversion(e, types), RightConversion(e, types));
    PoolsSplit(m.pools, p, q, w.code, w.err, ns, nr);
    ConversionErrors(e.op, lt, rt, At(e.l), At(e.r));
    AdmitsNoError(e.op, lt, rt);
    GenWhole(e.l, types, false, m.engine, ns, nr);
    GenWhole(e.r, types, e.op == Like, m.engine, ns + |p.strings|, nr + |p.regexes|);
    ConversionLinked(lt, Wanted(e.op, lt).0, At(e.l));
    ConversionLinked(rt, Wanted(e.op, lt).1, At(e.r));
  }

  lemma AdmitsNoError(op: BinOp, lt: Type, rt: Type)
    requires Admits(op, lt, rt)
    ensures lt != TError && rt != TError
  {
  }

  /** Only conversions to boolean emit code, so operands of the other operators stay where they are. */
  lemma EagerConversion(from: Type, to: Type, at: int, v: Value, c: Cell, pools: Pools)
    requires to != TBoolean && Conversion(from, to, at).1 == []
    requires HasType(v, from) && Denotes(c, v, pools)
    ensures Conversion(from, to, at).0 == []
    ensures to == TInteger ==> c == Word(Number(v)) && !v.StrV?
    ensures to == TString ==> v.StrV?
    ensures to == TRegex ==> v.RegexV?
  {
  }

  lemma EagerWants(op: BinOp, lt: Type)
    requires op != And && op != Or
    ensures Wanted(op, lt).0 != TBoolean && Wanted(op, lt).1 != TBoolean
    ensures Wanted(op, lt).0 == TInteger <==> Wanted(op, lt).1 == TInteger
  {
  }

  lemma {:induction false} EagerReady(m: Machine, e: Expr, types: seq<Type>, env: seq<Value>, ns: nat, nr: nat, pc: nat)
    requires e.Binary? && e.op != And && e.op != Or && Ready(m, e, types, env, false, ns, nr, pc)
    ensures
      var p, q := Gen(e.l, types, false, m.engine, ns, nr), RightPiece(m, e, types, ns, nr);
      var a, b := LeftConversion(e, types), RightConversion(e, types);
      var end := pc + |p.code| + |q.code| + |a.0| + |b.0|;
      && Ready(m, e.l, types, env, false, ns, nr, pc)
      && Ready(m, e.r, types, env, e.op == Like, ns + |p.strings|, nr + |p.regexes|, pc + |p.code|)
      && Segment(m.code, end, Tail(e.op, TypeOf(e.l, types, false)))
      && pc + |Gen(e, types, false, m.engine, ns, nr).code| == end + |Tail(e.op, TypeOf(e.l, types, false))|
  {
    hide Link, Whole, Conversion, Segment, Gen, WellTyped, Eval, VariablesBelow, TypeOf, PoolsHold, Wanted, Tail,
      Valuation, Passes;
    GenWhole(e, types, false, m.engine, ns, nr);
    UnfoldBinary(m, e, types, env, ns, nr, pc);
    BinaryParts(m, e, types, env, ns, nr, pc);
    var p, q := Gen(e.l, types, false, m.engine, ns, nr), RightPiece(m, e, types, ns, nr);
    EagerLayout(m, e.op, TypeOf(e.l, types, false), p, q, LeftConversion(e, types), RightConversion(e, types), pc);
  }

  lemma {:induction false} RunEager(m: Machine, e: Expr, types: seq<Type>, env: seq<Value>, ns: nat, nr: nat, pc: nat,
                                    stack: seq<Cell>)
    returns (c: Cell)
    requires e.Binary? && e.op != And && e.op != Or && Ready(m, e, types, env, false, ns, nr, pc)
    ensures Denotes(c, Eval(e, env, false, m.engine), m.pools)
    ensures Run(m, pc, stack) == Run(m, pc + |Gen(e, types, false, m.engine, ns, nr).code|, stack + [c])
    decreases e, 0
  {
    hide *;
    UnfoldBinary(m, e, types, env, ns, nr, pc);
    BinaryParts(m, e, types, env, ns, nr, pc);
    EagerReady(m, e, types, env, ns, nr, pc);
    var p, q := Gen(e.l, types, false, m.engine, ns, nr), RightPiece(m, e, types, ns, nr);
    var x := RunGen(m, e.l, types, env, false, ns, nr, pc, stack);
    var y := RunRight(m, e, types, env, ns, nr, pc + |p.code|, stack + [x]);
    var u, v := Eval(e.l, env, false, m.engine), Eval(e.r, env, e.op == Like, m.engine);
    EagerOperands(m, e, types, env, u, v, x, y);
    assert stack + [x] + [y] == stack + [x, y];
    RunTail(m, e.op, TypeOf(e.l, types, false), u, v, x, y, pc + |p.code| + |q.code|, stack);
    c := Bit(Apply(e.op, u, v, m.engine));
    BitDenotes(Apply(e.op, u, v, m.engine), m.pools);
  }

  lemma {:induction false} RunRight(m: Machine, e: Expr, types: seq<Type>, env: seq<Value>, ns: nat, nr: nat, pc: nat,
                                    stack: seq<Cell>)
    returns (c: Cell)
    requires e.Binary?
    requires
      var p := Gen(e.l, types, false, m.engine, ns, nr);
      Ready(m, e.r, types, env, e.op == Like, ns + |p.strings|, nr + |p.regexes|, pc)
    ensures Denotes(c, Eval(e.r, env, e.op == Like, m.engine), m.pools)
    ensures Run(m, pc, stack) == Run(m, pc + |RightPiece(m, e, types, ns, nr).code|, stack + [c])
    decreases e.r, 2
  {
    hide Gen, Run, Ready, Eval;
    var p := Gen(e.l, types, false, m.engine, ns, nr);
    c := RunGen(m, e.r, types, env, e.op == Like, ns + |p.strings|, nr + |p.regexes|, pc, stack);
  }

  lemma {:induction false} EagerOperands(m: Machine, e: Expr, types: seq<Type>, env: seq<Value>, u: Value, v: Value,
                                         x: Cell, y: Cell)
    requires e.Binary? && e.op != And && e.op != Or && Valuation(env, types)
    requires u == Eval(e.l, env, false, m.engine) && v == Eval(e.r, env, e.op == Like, m.engine)
    requires TypeOf(e.l, types, false) != TError && TypeOf(e.r, types, e.op == Like) != TError
    requires LeftConversion(e, types).1 == [] && RightConversion(e, types).1 == []
    requires Denotes(x, u, m.pools) && Denotes(y, v, m.pools)
    ensures LeftConversion(e, types).0 == [] && RightConversion(e, types).0 == []
    ensures
      var w := Wanted(e.op, TypeOf(e.l, types, false));
      && (w.0 == TInteger ==> !u.StrV? && x == Word(Number(u)) && y == Word(Number(v)))
      && (w.0 == TString ==> u.StrV? && Denotes(x, u, m.pools) && Denotes(y, v, m.pools))
      && (w.1 == TString ==> v.StrV?) && (w.1 == TRegex ==> v.RegexV?)
  {
    hide Conversion, HasType, Denotes, Eval, Wanted, TypeOf, Valuation;
    var lt, rt := TypeOf(e.l, types, false), TypeOf(e.r, types, e.op == Like);
    EvalHasType(e.l, types, env, false, m.engine);
    EvalHasType(e.r, types, env, e.op == Like, m.engine);
    EagerWants(e.op, lt);
    EagerConversion(lt, Wanted(e.op, lt).0, At(e.l), u, x, m.pools);
    EagerConversion(rt, Wanted(e.op, lt).1, At(e.r), v, y, m.pools);
  }

  lemma {:induction false} LazyReady(m: Machine, e: Expr, types: seq<Type>, env: seq<Value>, ns: nat, nr: nat, pc: nat)
    requires e.Binary? && (e.op == And || e.op == Or) && Ready(m, e, types, env, false, ns, nr, pc)
    ensures
      var p, q := Gen(e.l, types, false, m.engine, ns, nr), RightPiece(m, e, types, ns, nr);
      var a, b := LeftConversion(e, types), RightConversion(e, types);
      var jump := pc + |p.code| + |a.0|;
      var end := jump + 2 + |q.code| + |b.0|;
      && Ready(m, e.l, types, env, false, ns, nr, pc)
      && Segment(m.code, pc + |p.code|, a.0)
      && Segment(m.code, jump, Load(Jump(e.op), |q.code| + |b.0| + 1))
      && Ready(m, e.r, types, env, false, ns + |p.strings|, nr + |p.regexes|, jump + 2)
      && Segment(m.code, jump + 2 + |q.code|, b.0)
      && Segment(m.code, end, Tail(e.op, TypeOf(e.l, types, false)))
      && pc + |Gen(e, types, false, m.engine, ns, nr).code| == end + 1 <= |m.code|
  {
    hide Link, Whole, Conversion, Segment, Gen, WellTyped, Eval, VariablesBelow, TypeOf, PoolsHold, Wanted, Valuation,
      Passes;
    GenWhole(e, types, false, m.engine, ns, nr);
    UnfoldBinary(m, e, types, env, ns, nr, pc);
    BinaryParts(m, e, types, env, ns, nr, pc);
    var p, q := Gen(e.l, types, false, m.engine, ns, nr), RightPiece(m, e, types, ns, nr);
    SegmentFits(m, pc, Linked(m, e, types, false, ns, nr));
    LazyLayout(m, e.op, TypeOf(e.l, types, false), p, q, LeftConversion(e, types), RightConversion(e, types), pc);
  }

  lemma SegmentFits(m: Machine, pc: nat, part: seq<Cell>)
    requires Segment(m.code, pc, part)
    ensures pc + |part| <= |m.code|
  {
  }

  /** The operand of a short-circuit operator, as a truth value. */
  lemma {:induction false} LazyOperand(m: Machine, e: Expr, t: Expr, types: seq<Type>, env: seq<Value>, conv: Converted,
                                       x: Cell, pc: nat, stack: seq<Cell>)
    requires Valuation(env, types) && TypeOf(t, types, false) != TError
    requires conv == Conversion(TypeOf(t, types, false), TBoolean, At(t)) && conv.1 == []
    requires Denotes(x, Eval(t, env, false, m.engine), m.pools)
    requires Segment(m.code, pc, conv.0)
    ensures Run(m, pc, stack + [x]) == Run(m, pc + |conv.0|, stack + [Bit(Truth(Eval(t, env, false, m.engine)))])
  {
    hide *;
    EvalHasType(t, types, env, false, m.engine);
    var d := RunConversion(m, TypeOf(t, types, false), TBoolean, At(t), Eval(t, env, false, m.engine), x, pc, stack);
  }

  lemma LazyWants(e: Expr, types: seq<Type>)
    requires e.Binary? && (e.op == And || e.op == Or)
    ensures LeftConversion(e, types) == Conversion(TypeOf(e.l, types, false), TBoolean, At(e.l))
    ensures RightConversion(e, types) == Conversion(TypeOf(e.r, types, false), TBoolean, At(e.r))
  {
  }

  lemma LazyValue(op: BinOp, u: Value, v: Value, engine: RegexEngine)
    requires op == And || op == Or
    ensures Truth(u) == (op == Or) ==> Apply(op, u, v, engine) == Truth(u)
    ensures Apply(op, u, v, engine) == if op == And then Truth(u) && Truth(v) else Truth(u) || Truth(v)
  {
  }

  lemma {:induction false} RunLazy(m: Machine, e: Expr, types: seq<Type>, env: seq<Value>, ns: nat, nr: nat, pc: nat,
                                   stack: seq<Cell>)
    returns (c: Cell)
    requires e.Binary? && (e.op == And || e.op == Or) && Ready(m, e, types, env, false, ns, nr, pc)
    ensures Denotes(c, Eval(e, env, false, m.engine), m.pools)
    ensures Run(m, pc, stack) == Run(m, pc + |Gen(e, types, false, m.engine, ns, nr).code|, stack + [c])
    decreases e, 0
  {
    hide *;
    UnfoldBinary(m, e, types, env, ns, nr, pc);
    BinaryParts(m, e, types, env, ns, nr, pc);
    LazyReady(m, e, types, env, ns, nr, pc);
    LazyWants(e, types);
    var p, q := Gen(e.l, types, false, m.engine, ns, nr), RightPiece(m, e, types, ns, nr);
    var a, b := LeftConversion(e, types), RightConversion(e, types);
    var u, v := Eval(e.l, env, false, m.engine), Eval(e.r, env, false, m.engine);
    var x := RunGen(m, e.l, types, env, false, ns, nr, pc, stack);
    LazyOperand(m, e, e.l, types, env, a, x, pc + |p.code|, stack);
    var jump := pc + |p.code| + |a.0|;
    RunJump(m, e.op, |q.code| + |b.0| + 1, Truth(u), jump, stack);
    LazyValue(e.op, u, v, m.engine);
    c := Bit(Apply(e.op, u, v, m.engine));
    BitDenotes(Apply(e.op, u, v, m.engine), m.pools);
    if Truth(u) != (e.op == Or) {
      var s := stack + [Bit(Truth(u))];
      var y := RunRight(m, e, types, env, ns, nr, jump + 2, s);
      LazyOperand(m, e, e.r, types, env, b, y, jump + 2 + |q.code|, s);
      assert s + [Bit(Truth(v))] == stack + [Bit(Truth(u)), Bit(Truth(v))];
      RunLast(m, e.op, TypeOf(e.l, types, false), Truth(u), Truth(v), jump + 2 + |q.code| + |b.0|, stack);
    }
  }
}
