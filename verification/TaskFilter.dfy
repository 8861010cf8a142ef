/** The task filter as its callers see it: compile a text once, then match records against it. */
module TaskFilter {
  import opened FilterAst
  import opened FilterTokens
  import opened FilterParser
  import opened FilterParens
  import opened FilterGrammar
  import opened FilterCode
  import opened FilterMachine

  // ---------- the front end ----------

  datatype Parsed = Rejected(err: seq<Diagnostic>) | Tree(tree: Expr, err: seq<Diagnostic>)

  /** Tokens, names, parentheses and tree. Nothing is parsed after an error of the first three. */
  ghost function Parse(text: string, names: seq<string>): Parsed {
    var tokens := Resolved(text, Lex(text, 0).0, names);
    var err := Lex(text, 0).1 + UnknownNames(text, Lex(text, 0).0, names) + StrayCloses(tokens, 0, 0)
      + StrayOpens(tokens, 0);
    if err != [] then Rejected(err)
    else
      LinksNest(tokens);
      TokensWellFormed(text, names);
      var (tree, e) := Build(text, LinkAll(tokens), 0, |tokens|);
      Tree(tree, e)
  }

  lemma {:induction false} LexWellFormed(s: string, i: nat, k: nat)
    requires k < |Lex(s, i).0|
    ensures WellFormed(Lex(s, i).0[k], s)
    decreases |s| - i
  {
    hide LexAt;
    var x := LexAt(s, i);
    LexAtWellFormed(s, i);
    if k >= |x.tokens| {
      LexWellFormed(s, x.next, k - |x.tokens|);
    }
  }

  lemma LexAtWellFormed(s: string, i: nat)
    requires i < |s|
    ensures forall t :: t in LexAt(s, i).tokens ==> WellFormed(t, s)
  {
    hide FindOp, StringEnd, NameEnd, FromChars;
  }

  lemma {:induction false} TokensWellFormed(text: string, names: seq<string>)
    ensures forall t :: t in LinkAll(Resolved(text, Lex(text, 0).0, names)) ==> WellFormed(t, text)
  {
    hide Lex, CloseOf, Declared;
    var tokens := Lex(text, 0).0;
    forall k | 0 <= k < |tokens| ensures WellFormed(LinkAll(Resolved(text, tokens, names))[k], text) {
      LexWellFormed(text, 0, k);
    }
  }

  // ---------- the back end ----------

  /** The code of a whole filter: the tree, its conversion to boolean and the halt. */
  function Program(tree: Expr, types: seq<Type>, engine: RegexEngine): Piece {
    var p := Gen(tree, types, false, engine, 0, 0);
    var c := Conversion(TypeOf(tree, types, false), TBoolean, At(tree));
    Piece(p.code + c.0 + Op(OP_HLT), p.strings, p.regexes, p.err + c.1)
  }

  lemma {:induction false} NotPiece(e: Expr, types: seq<Type>, engine: RegexEngine, ns: nat, nr: nat)
    requires e.Not?
    ensures var p := Gen(e.t, types, false, engine, ns, nr);
      var c := Conversion(TypeOf(e.t, types, false), TBoolean, At(e.t));
      Gen(e, types, false, engine, ns, nr) == Piece(p.code + c.0 + [Word(OP_NOT)], p.strings, p.regexes, p.err + c.1)
  {
  }

  lemma ProgramWhole(tree: Expr, types: seq<Type>, engine: RegexEngine)
    ensures Whole(Program(tree, types, engine).code)
  {
    hide Gen, Conversion;
    GenWhole(tree, types, false, engine, 0, 0);
    ConversionWhole(TypeOf(tree, types, false), TBoolean, At(tree));
    OpsWhole();
    WholeConcat3(Gen(tree, types, false, engine, 0, 0).code,
      Conversion(TypeOf(tree, types, false), TBoolean, At(tree)).0, Op(OP_HLT));
  }

  /** Every variable of a parsed tree comes from a token of its range. */
  lemma {:induction false} BuildVariables(s: string, tokens: seq<Token>, l: nat, r: nat, n: nat)
    requires Nested(tokens, l, r) && forall k :: l <= k < r ==> WellFormed(tokens[k], s)
    requires forall k :: l <= k < r && tokens[k].kind == KVariable ==> tokens[k].data < n
    ensures VariablesBelow(Build(s, tokens, l, r).0, n)
    decreases r - l, 1
  {
    hide Collect, Assoc, Nested;
    NestedRest(tokens, l, r);
    if l < r {
      var c := Chain([], [], false, 0, []);
      CollectVariables(s, tokens, l, r, c, n);
      var d := Collect(s, tokens, l, r, c);
      if |d.operands| != |d.ops| {
        AssocVariables(d.operands, d.ops, n);
      }
    }
  }

  ghost predicate AllBelow(operands: seq<Expr>, n: nat) {
    forall e :: e in operands ==> VariablesBelow(e, n)
  }

  lemma {:induction false} CollectVariables(s: string, tokens: seq<Token>, i: nat, r: nat, c: Chain, n: nat)
    requires Nested(tokens, i, r) && forall k :: i <= k < r ==> WellFormed(tokens[k], s)
    requires forall k :: i <= k < r && tokens[k].kind == KVariable ==> tokens[k].data < n
    requires Alternates(c) && AllBelow(c.operands, n)
    ensures AllBelow(Collect(s, tokens, i, r, c).operands, n)
    decreases r - i, 0
  {
    hide Build, Assoc, Nested, WellFormed, AllBelow, WithOperand, VariablesBelow;
    NestedRest(tokens, i, r);
    if i < r {
      var t := tokens[i];
      if t.kind in {KVariable, KNumber, KString} {
        LeafVariables(s, t, n);
        OperandVariables(c, Leaf(s, t), n);
        CollectVariables(s, tokens, i + 1, r, WithOperand(c, Leaf(s, t)), n);
      } else if t.kind == KOpen {
        NestedInside(tokens, i, r, i);
        BuildVariables(s, tokens, i + 1, t.data, n);
        var (tree, err) := Build(s, tokens, i + 1, t.data);
        OperandVariables(c.(err := c.err + err), tree, n);
        CollectVariables(s, tokens, t.data + 1, r, WithOperand(c.(err := c.err + err), tree), n);
      } else if t.kind == KNot {
        CollectVariables(s, tokens, i + 1, r, c.(odd := !c.odd, lastNot := t.l), n);
      } else if t.kind.KOp? {
        CollectVariables(s, tokens, i + 1, r, WithOp(c, OpAt(t.l, t.kind.op)), n);
      } else {
        CollectVariables(s, tokens, i + 1, r, c, n);
      }
    }
  }

  lemma {:induction false} LeafVariables(s: string, t: Token, n: nat)
    requires WellFormed(t, s) && t.kind in {KVariable, KNumber, KString} && (t.kind == KVariable ==> t.data < n)
    ensures VariablesBelow(Leaf(s, t), n)
  {
  }

  lemma {:induction false} OperandVariables(c: Chain, tree: Expr, n: nat)
    requires Alternates(c) && AllBelow(c.operands, n) && VariablesBelow(tree, n)
    ensures Alternates(WithOperand(c, tree)) && AllBelow(WithOperand(c, tree).operands, n)
  {
  }

  lemma {:induction false} AssocVariables(operands: seq<Expr>, ops: seq<OpAt>, n: nat)
    requires |operands| == |ops| + 1 && AllBelow(operands, n)
    ensures VariablesBelow(Assoc(operands, ops), n)
    decreases |ops|
  {
    hide Pr;
    if ops != [] {
      var m := LastLoosest(ops);
      AssocVariables(operands[..m + 1], ops[..m], n);
      AssocVariables(operands[m + 1..], ops[m + 1..], n);
    }
  }

  lemma {:induction false} ParseVariables(text: string, names: seq<string>)
    requires Parse(text, names).Tree?
    ensures VariablesBelow(Parse(text, names).tree, |names|)
  {
    hide Lex, CloseOf, StrayCloses, StrayOpens, Build, Declared;
    var scanned := Lex(text, 0).0;
    var tokens := Resolved(text, scanned, names);
    LinksNest(tokens);
    TokensWellFormed(text, names);
    forall k | 0 <= k < |tokens| && tokens[k].kind == KVariable ensures LinkAll(tokens)[k].data < |names| {
      KnownName(text, scanned, names, k);
    }
    BuildVariables(text, LinkAll(tokens), 0, |tokens|, |names|);
  }

  lemma {:induction false} KnownName(s: string, tokens: seq<Token>, names: seq<string>, k: nat)
    requires k < |tokens| && tokens[k].kind == KVariable && UnknownNames(s, tokens, names) == []
    ensures Spelling(s, tokens[k]) in names
  {
    if k < |tokens| - 1 {
      KnownName(s, tokens[..|tokens| - 1], names, k);
    }
  }

  /** The tokens of a text as the parser gets them. */
  function Tokens(text: string, names: seq<string>): seq<Token> {
    LinkAll(Resolved(text, Lex(text, 0).0, names))
  }

  lemma {:induction false} ParsedReadable(text: string, names: seq<string>)
    requires Parse(text, names).Tree?
    ensures var tokens := Tokens(text, names);
      && Readable(text, tokens, 0, |tokens|)
      && (Parse(text, names).tree, Parse(text, names).err) == Build(text, tokens, 0, |tokens|)
  {
    hide Build, Lex, Resolved, StrayCloses, UnknownNames, Nested, WellFormed, CloseOf;
    var tokens := Resolved(text, Lex(text, 0).0, names);
    LinksNest(tokens);
    TokensWellFormed(text, names);
    forall i | 0 <= i < |tokens| && tokens[i].kind == KOpen
      ensures CloseOf(tokens, i + 1, 0) < |tokens|
    {
      NoStrayOpens(tokens, 0, i);
    }
  }

  /** The tree of an accepted text has its root token at the root: `||` binds loosest, then `&&`, then the
      comparisons, and operators of one kind associate to the left. */
  lemma {:induction false} ParseBinds(text: string, names: seq<string>, p: nat)
    requires Parse(text, names).Tree? && Parse(text, names).err == [] && p < |Tokens(text, names)|
    requires var tokens := Tokens(text, names); RootToken(tokens, 0, |tokens|, p) && EndsOperand(tokens, 0, p)
    ensures var tokens := Tokens(text, names);
      && Readable(text, tokens, 0, p) && Readable(text, tokens, p + 1, |tokens|)
      && Parse(text, names).tree == Binary(tokens[p].l, tokens[p].kind.op, Build(text, tokens, 0, p).0,
                                           Build(text, tokens, p + 1, |tokens|).0)
  {
    hide *;
    ParsedReadable(text, names);
    BuildBinds(text, Tokens(text, names), 0, |Tokens(text, names)|, p);
  }

  /** Only texts whose tokens read as an expression compile. */
  lemma CompiledReads(text: string, names: seq<string>, types: seq<Type>, engine: RegexEngine)
    requires Parse(text, names).Tree? && Parse(text, names).err == []
    requires Program(Parse(text, names).tree, types, engine).err == []
    ensures Nested(Tokens(text, names), 0, |Tokens(text, names)|)
    ensures Reads(Tokens(text, names), 0, |Tokens(text, names)|, true)
  {
    ParsedReadable(text, names);
    hide Parse, Tokens, Reads, Build, Gen, WellTyped, HasError, Nested, WellFormed;
    var tree := Parse(text, names).tree;
    GenErrorsIffIllTyped(tree, types, false, engine, 0, 0);
    BooleanOperand(TypeOf(tree, types, false), FilterAst.At(tree));
    TypedSound(tree, types, false, engine);
    AcceptedIff(text, Tokens(text, names), 0, |Tokens(text, names)|);
  }

  lemma {:induction false} TypedSound(e: Expr, types: seq<Type>, regexRequired: bool, engine: RegexEngine)
    requires WellTyped(e, types, regexRequired, engine) && TypeOf(e, types, regexRequired) != TError
    ensures !HasError(e)
  {
    match e {
      case Not(_, t) => TypedSound(t, types, false, engine);
      case Binary(_, op, l, r) =>
        TypedSound(l, types, false, engine);
        TypedSound(r, types, op == Like, engine);
      case _ =>
    }
  }

  /** Safety and meaning of a compiled filter, for every text that compiles and every valuation of the
      declared variables: the machine meets no fault and halts with the truth of the tree. */
  lemma {:induction false} CompiledMeaning(text: string, names: seq<string>, types: seq<Type>, engine: RegexEngine,
                                           env: seq<Value>, m: Machine)
    requires |names| == |types| && Valuation(env, types) && Passes(m, env) && m.engine == engine
    requires Parse(text, names).Tree?
    requires Program(Parse(text, names).tree, types, engine).err == []
    requires Whole(Program(Parse(text, names).tree, types, engine).code)
    requires m.code == Link(Program(Parse(text, names).tree, types, engine).code)
    requires m.pools == Pools(Program(Parse(text, names).tree, types, engine).strings,
      Program(Parse(text, names).tree, types, engine).regexes)
    ensures Run(m, 0, []) == Halted([Bit(Truth(Eval(Parse(text, names).tree, env, false, engine)))])
  {
    hide *;
    ParseVariables(text, names);
    ProgramMeaning(Parse(text, names).tree, types, env, m);
  }

  lemma {:induction false} ProgramMeaning(tree: Expr, types: seq<Type>, env: seq<Value>, m: Machine)
    requires Valuation(env, types) && Passes(m, env) && VariablesBelow(tree, |types|)
    requires Program(tree, types, m.engine).err == []
    requires Whole(Program(tree, types, m.engine).code)
    requires m.code == Link(Program(tree, types, m.engine).code)
    requires m.pools == Pools(Program(tree, types, m.engine).strings, Program(tree, types, m.engine).regexes)
    ensures Run(m, 0, []) == Halted([Bit(Truth(Eval(tree, env, false, m.engine)))])
  {
    hide Run, Gen, Conversion, Link, Whole, Segment, Ready, Eval, WellTyped, Valuation, Passes, VariablesBelow,
      TypeOf, Denotes;
    var p := Gen(tree, types, false, m.engine, 0, 0);
    var t := TypeOf(tree, types, false);
    var conv := Conversion(t, TBoolean, At(tree));
    GenErrorsIffIllTyped(tree, types, false, m.engine, 0, 0);
    BooleanOperand(t, At(tree));
    ScalarIsTyped(t);
    ProgramLayout(tree, types, m);
    ProgramReady(tree, types, env, m);
    var c := RunGen(m, tree, types, env, false, 0, 0, 0, []);
    EvalHasType(tree, types, env, false, m.engine);
    var d := RunConversion(m, t, TBoolean, At(tree), Eval(tree, env, false, m.engine), c, |p.code|, []);
    RunHalt(m, |p.code| + |conv.0|, [d]);
    assert [] + [c] == [c] && [] + [d] == [d];
  }

  lemma {:induction false} ProgramLayout(tree: Expr, types: seq<Type>, m: Machine)
    requires Whole(Program(tree, types, m.engine).code)
    requires m.code == Link(Program(tree, types, m.engine).code)
    ensures Segment(m.code, 0, Linked(m, tree, types, false, 0, 0))
    ensures
      var p := Gen(tree, types, false, m.engine, 0, 0);
      var conv := Conversion(TypeOf(tree, types, false), TBoolean, At(tree));
      Segment(m.code, |p.code|, conv.0) && Segment(m.code, |p.code| + |conv.0|, Op(OP_HLT))
  {
    hide Gen, Conversion, Link, Whole, Segment, TypeOf;
    var p := Gen(tree, types, false, m.engine, 0, 0);
    var t := TypeOf(tree, types, false);
    var conv := Conversion(t, TBoolean, At(tree));
    GenWhole(tree, types, false, m.engine, 0, 0);
    ConversionLinked(t, TBoolean, At(tree));
    HaltLinked();
    LinkConcat3(p.code, conv.0, Op(OP_HLT));
    SegmentWhole(m.code);
    SegmentSplit(m.code, 0, Link(p.code) + conv.0, Op(OP_HLT));
    SegmentSplit(m.code, 0, Link(p.code), conv.0);
  }

  lemma {:induction false} ProgramReady(tree: Expr, types: seq<Type>, env: seq<Value>, m: Machine)
    requires Valuation(env, types) && Passes(m, env) && VariablesBelow(tree, |types|)
    requires WellTyped(tree, types, false, m.engine) && TypeOf(tree, types, false) != TError
    requires m.pools == Pools(Program(tree, types, m.engine).strings, Program(tree, types, m.engine).regexes)
    requires Segment(m.code, 0, Linked(m, tree, types, false, 0, 0))
    ensures Ready(m, tree, types, env, false, 0, 0, 0)
  {
    hide Gen, Conversion, Link, Whole, Segment, WellTyped, Valuation, Passes, VariablesBelow, TypeOf;
    var p := Gen(tree, types, false, m.engine, 0, 0);
    assert m.pools.strings == p.strings && m.pools.regexes == p.regexes;
    assert p.strings[0..|p.strings|] == p.strings && p.regexes[0..|p.regexes|] == p.regexes;
  }

  lemma HaltLinked()
    ensures Whole(Op(OP_HLT)) && Link(Op(OP_HLT)) == Op(OP_HLT)
  {
  }

  lemma SegmentWhole(code: seq<Cell>)
    ensures Segment(code, 0, code)
  {
    assert code[0..|code|] == code;
  }

  lemma {:induction false} RunHalt(m: Machine, pc: nat, stack: seq<Cell>)
    requires Segment(m.code, pc, Op(OP_HLT))
    ensures Run(m, pc, stack) == Halted(stack)
  {
    assert m.code[pc..pc + 1][0] == m.code[pc];
  }

  // ---------- the filter object ----------

  function Names(varsInfo: seq<(string, Type)>): (names: seq<string>)
    ensures |names| == |varsInfo|
  {
    seq(|varsInfo|, i requires 0 <= i < |varsInfo| => varsInfo[i].0)
  }

  function Types(varsInfo: seq<(string, Type)>): (types: seq<Type>)
    ensures |types| == |varsInfo|
  {
    seq(|varsInfo|, i requires 0 <= i < |varsInfo| => varsInfo[i].1)
  }

  lemma UnescapeAt(raw: string, i: nat)
    requires i < |raw|
    ensures Unescape(raw[i..]) ==
      if raw[i] == '\\' && i + 1 != |raw| && (raw[i + 1] == '\\' || raw[i + 1] == '\'' || raw[i + 1] == '\"') then
        [raw[i + 1]] + Unescape(raw[i + 2..])
      else [raw[i]] + Unescape(raw[i + 1..])
  {
    var rest := raw[i..];
    assert rest[1..] == raw[i + 1..];
    assert i + 1 != |raw| ==> rest[2..] == raw[i + 2..] && rest[1] == raw[i + 1];
  }

  lemma UnescapeNone()
    ensures Unescape("") == ""
  {
  }

  method UnescapeText(raw: string) returns (unescaped: string)
    ensures unescaped == Unescape(raw)
  {
    hide Unescape;
    unescaped := "";
    var i := 0;
    assert raw[0..] == raw;
    while i < |raw|
      invariant i <= |raw| && unescaped + Unescape(raw[i..]) == Unescape(raw)
    {
      UnescapeAt(raw, i);
      if raw[i] == '\\' && i + 1 != |raw| && (raw[i + 1] == '\\' || raw[i + 1] == '\'' || raw[i + 1] == '\"') {
        unescaped := unescaped + [raw[i + 1]];
        i := i + 1;
      } else {
        unescaped := unescaped + [raw[i]];
      }
      i := i + 1;
    }
    assert raw[i..] == "";
    UnescapeNone();
  }

  lemma LinkInside(code: seq<Cell>, i: nat)
    requires i < |code| && Whole(code[i..])
    ensures code[i].Word? && i + Width(code[i].w) <= |code|
    ensures HasOperand(code[i].w) ==> code[i + 1].Word?
    ensures Whole(code[i + Width(code[i].w)..])
    ensures Link(code[i..]) == LinkFirst(code[i..]) + Link(code[i + Width(code[i].w)..])
  {
    assert code[i..][Width(code[i].w)..] == code[i + Width(code[i].w)..];
  }

  lemma {:induction false} LinkStart(code: seq<Cell>)
    requires Whole(code)
    ensures Whole(code[0..]) && code[..0] + Link(code[0..]) == Link(code)
  {
    assert code[0..] == code;
  }

  lemma LinkDone(code: seq<Cell>)
    requires Whole(code[|code|..])
    ensures code[..|code|] + Link(code[|code|..]) == code
  {
  }

  /** The code after the instruction at `i` is linked in place. */
  function LinkedAt(code: seq<Cell>, i: nat): (linked: seq<Cell>)
    requires i < |code| && code[i].Word? && i + Width(code[i].w) <= |code|
    requires HasOperand(code[i].w) ==> code[i + 1].Word?
    ensures |linked| == |code|
  {
    if code[i].w == OP_LOAD_STR then code[i := Word(OP_LOAD_INT64)][i + 1 := StringAt(code[i + 1].w)]
    else if code[i].w == OP_LOAD_REGEX then code[i := Word(OP_LOAD_INT64)][i + 1 := RegexAt(code[i + 1].w)]
    else code
  }

  lemma LinkStep(code: seq<Cell>, i: nat)
    requires i < |code| && Whole(code[i..])
    ensures code[i].Word? && i + Width(code[i].w) <= |code| && (HasOperand(code[i].w) ==> code[i + 1].Word?)
    ensures
      var linked, w := LinkedAt(code, i), Width(code[i].w);
      && Whole(linked[i + w..]) && linked[..i + w] + Link(linked[i + w..]) == code[..i] + Link(code[i..])
      && linked[i].Word?
      && w == if linked[i].w == OP_LOAD_INT64 || linked[i].w == OP_LOAD_VAR || linked[i].w == OP_CJUMP
           || linked[i].w == OP_NJUMP
              then 2 else 1
  {
    hide Link, Whole;
    LinkInside(code, i);
    var linked, w := LinkedAt(code, i), Width(code[i].w);
    assert linked[i + w..] == code[i + w..];
    assert linked[..i + w] == code[..i] + LinkFirst(code[i..]);
  }

  lemma GenBinary(e: Expr, types: seq<Type>, engine: RegexEngine, ns: nat, nr: nat)
    returns (p: Piece, q: Piece, a: Converted, b: Converted)
    requires e.Binary?
    ensures p == Gen(e.l, types, false, engine, ns, nr)
    ensures q == Gen(e.r, types, e.op == Like, engine, ns + |p.strings|, nr + |p.regexes|)
    ensures
      var lt := TypeOf(e.l, types, false);
      && a == Conversion(lt, Wanted(e.op, lt).0, FilterAst.At(e.l))
      && b == Conversion(TypeOf(e.r, types, e.op == Like), Wanted(e.op, lt).1, FilterAst.At(e.r))
      && Gen(e, types, false, engine, ns, nr) == Combine(e.op, lt, p, q, a, b)
  {
    hide Combine, Conversion, Wanted, Unescape;
    p := Gen(e.l, types, false, engine, ns, nr);
    q := Gen(e.r, types, e.op == Like, engine, ns + |p.strings|, nr + |p.regexes|);
    var lt := TypeOf(e.l, types, false);
    a := Conversion(lt, Wanted(e.op, lt).0, FilterAst.At(e.l));
    b := Conversion(TypeOf(e.r, types, e.op == Like), Wanted(e.op, lt).1, FilterAst.At(e.r));
  }

  /** Patching the placeholder gives the short-circuit code. */
  lemma LazyCode(op: BinOp, lt: Type, p: Piece, q: Piece, a: Converted, b: Converted, code0: seq<Cell>, code: seq<Cell>)
    requires op == And || op == Or
    requires code == code0 + p.code + a.0 + [Word(Jump(op))] + [Word(0)] + q.code + b.0 + Tail(op, lt)
    ensures
      var where := |code0| + |p.code| + |a.0| + 1;
      && where < |code|
      && code[where := Word(|code| - where - 1)] == code0 + Combine(op, lt, p, q, a, b).code
    ensures Combine(op, lt, p, q, a, b).strings == p.strings + q.strings
    ensures Combine(op, lt, p, q, a, b).regexes == p.regexes + q.regexes
    ensures Combine(op, lt, p, q, a, b).err == p.err + a.1 + q.err + b.1
  {
    hide Jump;
    var before, body := code0 + p.code + a.0, q.code + b.0 + Tail(op, lt);
    BackPatch(before, Word(Jump(op)), body, Word(|q.code| + |b.0| + 1));
    assert code == before + [Word(Jump(op))] + [Word(0)] + body;
    assert code0 + Combine(op, lt, p, q, a, b).code == before + Load(Jump(op), |q.code| + |b.0| + 1) + body;
  }

  lemma BackPatch(before: seq<Cell>, jump: Cell, body: seq<Cell>, offset: Cell)
    ensures (before + [jump] + [Word(0)] + body)[|before| + 1 := offset] == before + [jump, offset] + body
  {
  }

  lemma EagerCode(op: BinOp, lt: Type, p: Piece, q: Piece, a: Converted, b: Converted)
    requires op != And && op != Or
    ensures Combine(op, lt, p, q, a, b) == Piece(p.code + q.code + a.0 + b.0 + Tail(op, lt), p.strings + q.strings,
                                                 p.regexes + q.regexes, p.err + q.err + a.1 + b.1)
  {
  }

  /** The machine's loop over its program counter and its stack. */
  method RunLoop(m: Machine) returns (b: bool)
    requires Run(m, 0, []).Halted? && Run(m, 0, []).stack != [] && Top(Run(m, 0, []).stack).Word?
    ensures b == (Top(Run(m, 0, []).stack).w != 0)
  {
    hide Binop;
    var pc: nat, stack: seq<Cell> := 0, [];
    while m.code[pc].w != OP_HLT
      invariant Run(m, pc, stack) == Run(m, 0, [])
      invariant pc < |m.code| && m.code[pc].Word?
      decreases |m.code| - pc
    {
      var op := m.code[pc].w;
      if op == OP_LOAD_INT64 {
        pc := pc + 1;
        stack := stack + [m.code[pc]];
      } else if op == OP_LOAD_VAR {
        pc := pc + 1;
        stack := stack + [m.vars[m.code[pc].w]];
      } else if op == OP_TEST {
        stack := Pop(stack) + [Bit(Top(stack).w != 0)];
      } else if op == OP_NOT {
        stack := Pop(stack) + [Bit(Top(stack).w == 0)];
      } else if IsBinary(op) {
        var prev := Top(stack);
        stack := Pop(stack);
        stack := Pop(stack) + [Binop(op, Top(stack), prev, m.pools, m.engine).value];
      } else if op == OP_CJUMP {
        pc := pc + 1;
        if Top(stack).w != 0 {
          pc := pc + m.code[pc].w;
        }
      } else if op == OP_NJUMP {
        pc := pc + 1;
        if Top(stack).w == 0 {
          pc := pc + m.code[pc].w;
        }
      }
      pc := pc + 1;
    }
    b := Top(stack).w != 0;
  }

  class Filter {
    const engine: RegexEngine
    var err: seq<Diagnostic>
    var code: seq<Cell>
    var strings: seq<string>
    var regexes: seq<string>

    /** The machine that `Matches` runs on some variables. */
    ghost function Loaded(vars: seq<Cell>): Machine
      reads this
    {
      Machine(code, Pools(strings, regexes), vars, engine)
    }

    /** The state that compiling a text leaves: nothing after a front-end error, otherwise the linked
        program of the reference parser's tree, and the errors of every phase that ran. */
    ghost predicate Compiled(text: string, names: seq<string>, types: seq<Type>)
      reads this
    {
      match Parse(text, names)
      case Rejected(e) => err == e && e != [] && code == [] && strings == [] && regexes == []
      case Tree(tree, e) =>
        var p := Program(tree, types, engine);
        && err == e + p.err
        && Whole(p.code) && code == Link(p.code)
        && strings == p.strings && regexes == p.regexes
    }

    constructor (text: string, varsInfo: seq<(string, Type)>, engine: RegexEngine)
      ensures this.engine == engine
      ensures Compiled(text, Names(varsInfo), Types(varsInfo))
    {
      this.engine := engine;
      err, code, strings, regexes := [], [], [], [];
      new;
      Compile(text, Names(varsInfo), Types(varsInfo));
    }

    method Compile(text: string, names: seq<string>, types: seq<Type>)
      requires err == [] && code == [] && strings == [] && regexes == []
      modifies this
      ensures Compiled(text, names, types)
    {
      hide Lex, Resolved, UnknownNames, StrayCloses, StrayOpens, LinkAll, Build, Program, Link, Nested, WellFormed,
        Whole;
      var tokens;
      tokens, err := Tokenize(text);
      tokens, err := ResolveVariables(text, tokens, names, err);
      ghost var resolved := tokens;
      tokens, err := MatchParens(tokens, err);
      if err == [] {
        LinksNest(resolved);
        TokensWellFormed(text, names);
        var tree;
        tree, err := BuildTree(text, tokens, 0, |tokens|, err);
        CompileTree(tree, types);
      }
    }

    /** Generates, converts to boolean, halts and links. */
    method CompileTree(tree: Expr, types: seq<Type>)
      requires code == [] && strings == [] && regexes == []
      modifies this
      ensures var p := Program(tree, types, engine);
        && err == old(err) + p.err
        && Whole(p.code) && code == Link(p.code)
        && strings == p.strings && regexes == p.regexes
    {
      hide Gen, Conversion, Whole, Link, TypeOf;
      Generate(tree, types, false);
      EnsureType(TypeOf(tree, types, false), TBoolean, FilterAst.At(tree));
      code := code + [Word(OP_HLT)];
      ProgramWhole(tree, types, engine);
      assert code == Program(tree, types, engine).code;
      LinkCode();
    }

    method EnsureType(from: Type, to: Type, at: int)
      modifies this
      ensures code == old(code) + Conversion(from, to, at).0
      ensures err == old(err) + Conversion(from, to, at).1
      ensures strings == old(strings) && regexes == old(regexes)
    {
      if from != to {
        if to == TInteger && from == TBoolean {
          return;
        } else if to == TBoolean && from == TInteger {
          code := code + [Word(OP_TEST)];
          return;
        }
        err := err + [BadConversion(from, at, to)];
      }
    }

    /** `generate`: appends the piece of a tree. */
    method Generate(e: Expr, types: seq<Type>, regexRequired: bool)
      modifies this
      ensures var p := Gen(e, types, regexRequired, engine, |old(strings)|, |old(regexes)|);
        && code == old(code) + p.code && strings == old(strings) + p.strings
        && regexes == old(regexes) + p.regexes && err == old(err) + p.err
      decreases e, 1
    {
      match e {
        case Variable(_, id) => code := code + [Word(OP_LOAD_VAR)] + [Word(id)];
        case Integer(_, n) => code := code + [Word(OP_LOAD_INT64)] + [Word(n)];
        case Error => code := code + [Word(OP_LOAD_INT64)] + [Word(0)];
        case Text(at, raw) => GenerateText(at, raw, regexRequired);
        case Not(_, _) => GenerateNot(e, types);
        case Binary(_, op, _, _) =>
          if op == And || op == Or {
            GenerateLazy(e, types);
          } else {
            GenerateEager(e, types);
          }
      }
    }

    method GenerateNot(e: Expr, types: seq<Type>)
      requires e.Not?
      modifies this
      ensures var p := Gen(e, types, false, engine, |old(strings)|, |old(regexes)|);
        && code == old(code) + p.code && strings == old(strings) + p.strings
        && regexes == old(regexes) + p.regexes && err == old(err) + p.err
      decreases e, 0
    {
      hide Conversion, Gen, TypeOf;
      NotPiece(e, types, engine, |strings|, |regexes|);
      Generate(e.t, types, false);
      EnsureType(TypeOf(e.t, types, false), TBoolean, FilterAst.At(e.t));
      code := code + [Word(OP_NOT)];
    }

    method GenerateText(at: int, raw: string, regexRequired: bool)
      modifies this
      ensures var p := Gen(Text(at, raw), [], regexRequired, engine, |old(strings)|, |old(regexes)|);
        && code == old(code) + p.code && strings == old(strings) + p.strings
        && regexes == old(regexes) + p.regexes && err == old(err) + p.err
    {
      var unescaped := UnescapeText(raw);
      if regexRequired {
        code := code + [Word(OP_LOAD_REGEX)] + [Word(|regexes|)];
        if engine.valid(unescaped) {
          regexes := regexes + [unescaped];
        } else {
          err := err + [BadRegex(at)];
        }
      } else {
        code := code + [Word(OP_LOAD_STR)] + [Word(|strings|)];
        strings := strings + [unescaped];
      }
    }

    /** The right operand is skipped by a jump whose length is patched in afterwards. */
    method GenerateLazy(e: Expr, types: seq<Type>)
      requires e.Binary? && (e.op == And || e.op == Or)
      modifies this
      ensures var p := Gen(e, types, false, engine, |old(strings)|, |old(regexes)|);
        && code == old(code) + p.code && strings == old(strings) + p.strings
        && regexes == old(regexes) + p.regexes && err == old(err) + p.err
      decreases e, 0
    {
      hide Conversion, Gen, TypeOf, Combine;
      ghost var p, q, a, b := GenBinary(e, types, engine, |strings|, |regexes|);
      ghost var code0 := code;
      Generate(e.l, types, false);
      EnsureType(TypeOf(e.l, types, false), TBoolean, FilterAst.At(e.l));
      code := code + [Word(Jump(e.op))];
      var where := |code|;
      code := code + [Word(0)];
      Generate(e.r, types, false);
      EnsureType(TypeOf(e.r, types, false), TBoolean, FilterAst.At(e.r));
      code := code + [Word(if e.op == And then OP_AND else OP_OR)];
      LazyCode(e.op, TypeOf(e.l, types, false), p, q, a, b, code0, code);
      code := code[where := Word(|code| - where - 1)];
    }

    method GenerateEager(e: Expr, types: seq<Type>)
      requires e.Binary? && e.op != And && e.op != Or
      modifies this
      ensures var p := Gen(e, types, false, engine, |old(strings)|, |old(regexes)|);
        && code == old(code) + p.code && strings == old(strings) + p.strings
        && regexes == old(regexes) + p.regexes && err == old(err) + p.err
      decreases e, 0
    {
      hide Conversion, Gen, TypeOf, Combine;
      ghost var p, q, a, b := GenBinary(e, types, engine, |strings|, |regexes|);
      ghost var code0 := code;
      var lt, rt := TypeOf(e.l, types, false), TypeOf(e.r, types, e.op == Like);
      Generate(e.l, types, false);
      Generate(e.r, types, e.op == Like);
      GenerateOperator(e.op, lt, rt, FilterAst.At(e.l), FilterAst.At(e.r));
      EagerCode(e.op, lt, p, q, a, b);
    }

    /** The conversions and the instructions that follow both operands. */
    method GenerateOperator(op: BinOp, lt: Type, rt: Type, la: int, ra: int)
      requires op != And && op != Or
      modifies this
      ensures
        var a, b := Conversion(lt, Wanted(op, lt).0, la), Conversion(rt, Wanted(op, lt).1, ra);
        && code == old(code) + a.0 + b.0 + Tail(op, lt) && err == old(err) + a.1 + b.1
        && strings == old(strings) && regexes == old(regexes)
    {
      if op == Eq || op == Ne {
        if lt == TString {
          EnsureType(rt, TString, ra);
          code := code + [Word(OP_S_EQ)];
        } else {
          EnsureType(lt, TInteger, la);
          EnsureType(rt, TInteger, ra);
          code := code + [Word(OP_EQ)];
        }
        if op == Ne {
          code := code + [Word(OP_NOT)];
        }
      } else if op == Like {
        EnsureType(lt, TString, la);
        EnsureType(rt, TRegex, ra);
        code := code + [Word(OP_S_LIKE)];
      } else {
        EnsureType(lt, TInteger, la);
        EnsureType(rt, TInteger, ra);
        code := code + [Word(if op == Le || op == Gt then OP_LE else OP_LS)];
        if op == Gt || op == Ge {
          code := code + [Word(OP_NOT)];
        }
      }
    }

    /** The link pass, instruction by instruction over the code in place. */
    method LinkCode()
      requires Whole(code)
      modifies this`code
      ensures code == Link(old(code))
    {
      hide Link, LinkFirst, Whole, HasOperand;
      ghost var code0 := code;
      var i := 0;
      LinkStart(code);
      while i < |code|
        invariant i <= |code| == |code0|
        invariant Whole(code[i..]) && code[..i] + Link(code[i..]) == Link(code0)
      {
        LinkInside(code, i);
        LinkStep(code, i);
        if code[i].w == OP_LOAD_STR {
          code := code[i := Word(OP_LOAD_INT64)][i + 1 := StringAt(code[i + 1].w)];
        } else if code[i].w == OP_LOAD_REGEX {
          code := code[i := Word(OP_LOAD_INT64)][i + 1 := RegexAt(code[i + 1].w)];
        }
        if code[i].w == OP_LOAD_INT64 || code[i].w == OP_LOAD_VAR || code[i].w == OP_CJUMP || code[i].w == OP_NJUMP {
          i := i + 1;
        }
        i := i + 1;
      }
      LinkDone(code);
    }

    /** Runs the compiled code: it halts without a fault and answers what the tree means. */
    method Matches(vars: seq<Cell>, ghost text: string, ghost names: seq<string>, ghost types: seq<Type>,
                   ghost env: seq<Value>)
      returns (b: bool)
      requires Compiled(text, names, types) && err == []
      requires |names| == |types| && Valuation(env, types) && Passes(Loaded(vars), env)
      ensures b == Truth(Eval(Parse(text, names).tree, env, false, engine))
    {
      var machine := Machine(code, Pools(strings, regexes), vars, engine);
      CompiledMeaning(text, names, types, engine, env, machine);
      b := RunLoop(machine);
    }
  }
}
