/** From printed text to result: the whole filter on the text of any well-typed expression. */
module FilterRoundTrip {
  import opened Shared
  import opened FilterAst
  import opened FilterTokens
  import opened FilterParser
  import opened FilterParens
  import opened FilterPrint
  import opened FilterCode
  import opened FilterMachine
  import opened TaskFilter

  lemma {:induction false} PrintableNoError(e: Expr, names: seq<string>)
    requires Printable(e, names)
    ensures !HasError(e)
  {
    hide Writable;
    match e {
      case Not(_, t) => PrintableNoError(t, names);
      case Binary(_, _, l, r) =>
        PrintableNoError(l, names);
        PrintableNoError(r, names);
      case _ =>
    }
  }

  /** Resolving the names of a scanned line leaves tokens that fit its lexemes, and no unknown name. */
  lemma {:induction false} ResolveScanned(s: string, tokens: seq<Token>, xs: seq<Lexeme>, names: seq<string>)
    requires AllScanned(s, tokens, xs, names) && forall x :: x in xs ==> Writable(x, names)
    ensures Spelled(s, Resolved(s, tokens, names), 0, xs)
    ensures UnknownNames(s, tokens, names) == []
    decreases |tokens|
  {
    hide Declared;
    forall k | 0 <= k < |xs| ensures Fits(s, Resolved(s, tokens, names)[k], xs[k]) {
      assert Scanned(s, tokens[k], xs[k], names) && Writable(xs[k], names);
    }
    if tokens != [] {
      var n := |tokens| - 1;
      ResolveScanned(s, tokens[..n], xs[..n], names);
      assert Scanned(s, tokens[n], xs[n], names) && Writable(xs[n], names);
    }
  }

  /** Print and parse: the text of any printable tree is accepted and gives the tree back. */
  lemma {:induction false} ParsePrint(e: Expr, names: seq<string>)
    requires Printable(e, names)
    ensures Parse(Print(e, names), names).Tree?
    ensures Parse(Print(e, names), names).err == []
    ensures Strip(Parse(Print(e, names), names).tree) == Strip(e)
  {
    hide Lex, Words, Writable, Strip, Build, Spelled, Balanced, CloseOf, StrayCloses, StrayOpens, AllScanned, Line,
         Nested, Resolved, LinkAll, UnknownNames, WellFormed;
    var text, xs := Print(e, names), Words(e);
    WordsWritable(e, names);
    PrintableNoError(e, names);
    assert text[0..] == text;
    LexLine(text, 0, xs, names);
    var tokens := Resolved(text, Lex(text, 0).0, names);
    ResolveScanned(text, Lex(text, 0).0, xs, names);
    ScannedLength(text, Lex(text, 0).0, xs, names);
    NoStrays(text, tokens, e);
    LinksNest(tokens);
    TokensWellFormed(text, names);
    var tree := BuildWords(text, tokens, 0, e);
  }

  lemma ScannedLength(s: string, tokens: seq<Token>, xs: seq<Lexeme>, names: seq<string>)
    requires AllScanned(s, tokens, xs, names)
    ensures |tokens| == |xs|
  {
  }

  lemma {:induction false} NoStrays(s: string, tokens: seq<Token>, e: Expr)
    requires Spelled(s, tokens, 0, Words(e)) && |tokens| == |Words(e)| && !HasError(e)
    ensures StrayCloses(tokens, 0, 0) == [] && StrayOpens(tokens, 0) == []
  {
    hide Words, Spelled, CloseOf, StrayCloses, StrayOpens;
    WordsBalanced(s, tokens, 0, e);
    StrayEnd(tokens, 0);
    StrayOpensSkip(tokens, 0, |tokens|);
    NoOpensAtEnd(tokens);
  }

  lemma {:induction false} NoOpensAtEnd(tokens: seq<Token>)
    ensures StrayOpens(tokens, |tokens|) == []
  {
  }

  // ---------- positions do not matter ----------

  lemma {:induction false} EvalStrip(e: Expr, env: seq<Value>, regexRequired: bool, engine: RegexEngine)
    ensures Eval(Strip(e), env, regexRequired, engine) == Eval(e, env, regexRequired, engine)
  {
    hide Apply, Unescape;
    match e {
      case Not(_, t) => EvalStrip(t, env, false, engine);
      case Binary(_, op, l, r) =>
        EvalStrip(l, env, false, engine);
        EvalStrip(r, env, op == Like, engine);
      case _ =>
    }
  }

  lemma {:induction false} TypeOfStrip(e: Expr, types: seq<Type>, regexRequired: bool)
    ensures TypeOf(Strip(e), types, regexRequired) == TypeOf(e, types, regexRequired)
  {
  }

  lemma {:induction false} WellTypedStrip(e: Expr, types: seq<Type>, regexRequired: bool, engine: RegexEngine)
    ensures WellTyped(Strip(e), types, regexRequired, engine) == WellTyped(e, types, regexRequired, engine)
  {
    hide Admits, Unescape, TypeOf;
    match e {
      case Not(_, t) =>
        WellTypedStrip(t, types, false, engine);
        TypeOfStrip(t, types, false);
      case Binary(_, op, l, r) =>
        WellTypedStrip(l, types, false, engine);
        WellTypedStrip(r, types, op == Like, engine);
        TypeOfStrip(l, types, false);
        TypeOfStrip(r, types, op == Like);
      case _ =>
    }
  }

  /** A filter whose text was printed from a tree compiles iff the tree is well typed and scalar. */
  lemma {:induction false} PrintedCompiles(e: Expr, names: seq<string>, types: seq<Type>, engine: RegexEngine)
    requires Printable(e, names)
    ensures Parse(Print(e, names), names).Tree?
    ensures Program(Parse(Print(e, names), names).tree, types, engine).err == []
            <==> WellTyped(e, types, false, engine) && Scalar(TypeOf(e, types, false))
  {
    hide Parse, Print, Printable, Strip, Gen, Conversion, WellTyped, TypeOf;
    ParsePrint(e, names);
    var tree := Parse(Print(e, names), names).tree;
    GenErrorsIffIllTyped(tree, types, false, engine, 0, 0);
    BooleanOperand(TypeOf(tree, types, false), FilterAst.At(tree));
    WellTypedStrip(tree, types, false, engine);
    WellTypedStrip(e, types, false, engine);
    TypeOfStrip(tree, types, false);
    TypeOfStrip(e, types, false);
  }

  /** Text to result: print any well-typed scalar tree, scan, parse, generate and link it, and the machine
      halts without a fault with the truth of that tree, for every valuation of the variables. */
  lemma {:induction false} PrintedMeaning(e: Expr, names: seq<string>, types: seq<Type>, engine: RegexEngine,
                                          env: seq<Value>, vars: seq<Cell>)
    requires Printable(e, names) && |names| == |types| && Valuation(env, types)
    requires WellTyped(e, types, false, engine) && Scalar(TypeOf(e, types, false))
    requires |vars| == |env| && forall i :: 0 <= i < |env| ==> vars[i] == CellOf(env[i])
    ensures Parse(Print(e, names), names).Tree?
    ensures
      var p := Program(Parse(Print(e, names), names).tree, types, engine);
      && p.err == [] && Whole(p.code)
      && Run(Machine(Link(p.code), Pools(p.strings, p.regexes), vars, engine), 0, []) ==
           Halted([Bit(Truth(Eval(e, env, false, engine)))])
  {
    hide Parse, Print, Printable, Strip, WellTyped, TypeOf, Eval, Program, Link, Whole, Run, Valuation, CellOf;
    PrintedCompiles(e, names, types, engine);
    ParsePrint(e, names);
    var tree := Parse(Print(e, names), names).tree;
    var p := Program(tree, types, engine);
    ProgramWhole(tree, types, engine);
    var m := Machine(Link(p.code), Pools(p.strings, p.regexes), vars, engine);
    CompiledMeaning(Print(e, names), names, types, engine, env, m);
    EvalStrip(tree, env, false, engine);
    EvalStrip(e, env, false, engine);
  }

  // ---------- which strings can be written ----------

  /** The scanner reads the quoted text, whatever follows it, as the one string token of `raw`. */
  ghost predicate ScansAs(quote: char, raw: string) {
    forall tail: string :: ScansBefore(quote, raw, tail)
  }

  predicate ScansBefore(quote: char, raw: string, tail: string) {
    LexAt([quote] + raw + [quote] + tail, 0) == Lexed(|raw| + 2, [Token(KString, 1, |raw| + 1, 0)], [])
  }

  lemma {:induction false} EndAfter(s: string, j: nat, end: nat)
    requires 0 < j <= end <= |s| && forall k :: j <= k < end ==> !(s[k] == s[0] && s[k - 1] != '\\')
    ensures StringEnd(s, 0, j) == StringEnd(s, 0, end)
    decreases end - j
  {
    if j < end {
      EndAfter(s, j + 1, end);
    }
  }

  lemma {:induction false} EndIs(s: string, j: nat)
    requires 0 < j <= |s|
    ensures var end := StringEnd(s, 0, j);
      && (forall k :: j <= k < end ==> !(s[k] == s[0] && s[k - 1] != '\\'))
      && (end < |s| ==> s[end] == s[0] && s[end - 1] != '\\')
    decreases |s| - j
  {
    if j < |s| && !(s[j] == s[0] && s[j - 1] != '\\') {
      EndIs(s, j + 1);
    }
  }

  lemma {:induction false} QuoteStarts(s: string)
    requires s != "" && IsQuote(s[0])
    ensures var j := StringEnd(s, 0, 1);
      LexAt(s, 0) == Lexed(j + 1, [Token(KString, 1, j, 0)], if j == |s| then [UnclosedString(0)] else [])
  {
    hide StringEnd, FindOp, FromChars, NameEnd, LexOp, StandsAt, Decimal;
    NoOp(s, 0);
    var c := s[0];
    assert c == '\"' || c == '\'';
    assert !IsSpace(c) && c != '(' && c != ')';
  }

  lemma EnclosedIff(quote: char, raw: string)
    requires IsQuote(quote)
    ensures ScansAs(quote, raw) <==> Enclosed(quote, raw)
  {
    hide StringEnd, LexAt;
    forall tail: string ensures ScansBefore(quote, raw, tail) <==> Enclosed(quote, raw) {
      EnclosedBefore(quote, raw, tail);
    }
    assert ScansAs(quote, raw) ==> ScansBefore(quote, raw, "");
  }

  lemma EnclosedBefore(quote: char, raw: string, tail: string)
    requires IsQuote(quote)
    ensures ScansBefore(quote, raw, tail) <==> Enclosed(quote, raw)
  {
    hide StringEnd, LexAt;
    var s, n := [quote] + raw + [quote] + tail, |raw| + 1;
    QuoteStarts(s);
    EndIs(s, 1);
    assert s[n] == quote && forall k :: 0 <= k < |raw| ==> s[k + 1] == raw[k];
    if Enclosed(quote, raw) {
      forall k | 1 <= k < n ensures !(s[k] == s[0] && s[k - 1] != '\\') {
        assert s[k] == raw[k - 1] && (k > 1 ==> s[k - 1] == raw[k - 2]);
      }
      EndAfter(s, 1, n);
      assert s[n - 1] == if raw == "" then quote else raw[|raw| - 1];
      ClosesAt(s, n);
    }
    if StringEnd(s, 0, 1) == n {
      forall k | 0 <= k < |raw| && raw[k] == quote ensures k > 0 && raw[k - 1] == '\\' {
        assert s[k + 1] == raw[k] && (k > 0 ==> s[k] == raw[k - 1]);
      }
      assert raw != "" ==> s[n - 1] == raw[|raw| - 1];
    }
  }

  lemma ClosesAt(s: string, n: nat)
    requires 0 < n < |s| && s[n] == s[0] && s[n - 1] != '\\'
    ensures StringEnd(s, 0, n) == n
  {
  }

  function Escape(value: string): string {
    if value == "" then ""
    else (if value[0] == '\\' || value[0] == '\"' then ['\\', value[0]] else [value[0]]) + Escape(value[1..])
  }

  lemma {:induction false} UnescapeEscape(value: string)
    ensures Unescape(Escape(value)) == value
  {
    if value != "" {
      UnescapeEscape(value[1..]);
      var e, rest := Escape(value), Escape(value[1..]);
      if value[0] == '\\' || value[0] == '\"' {
        assert e == ['\\', value[0]] + rest && e[2..] == rest;
      } else {
        assert e == [value[0]] + rest && e[1..] == rest;
      }
      assert value == [value[0]] + value[1..];
    }
  }

  lemma {:induction false} EscapeEnclosed(value: string)
    requires value != "" ==> value[|value| - 1] != '\\'
    ensures Enclosed('\"', Escape(value))
  {
    hide Escape;
    EscapeStep(value);
    if value != "" {
      assert value[1..] != "" ==> value[1..][|value[1..]| - 1] == value[|value| - 1];
      EscapeEnclosed(value[1..]);
      var head := if value[0] == '\\' || value[0] == '\"' then ['\\', value[0]] else [value[0]];
      EnclosedAfter(head, Escape(value[1..]), value);
    }
  }

  lemma {:induction false} EscapeStep(value: string)
    ensures value == "" ==> Escape(value) == ""
    ensures value != "" ==>
      Escape(value) == (if value[0] == '\\' || value[0] == '\"' then ['\\', value[0]] else [value[0]])
        + Escape(value[1..])
    ensures Escape(value) == "" ==> value == ""
  {
  }

  lemma EnclosedAfter(head: string, rest: string, value: string)
    requires value != "" && Enclosed('\"', rest) && rest == Escape(value[1..])
    requires head == if value[0] == '\\' || value[0] == '\"' then ['\\', value[0]] else [value[0]]
    requires value[|value| - 1] != '\\'
    ensures Enclosed('\"', head + rest)
  {
    EscapeStep(value[1..]);
    hide Escape;
    var e := head + rest;
    forall k | 0 <= k < |e| && e[k] == '\"' ensures k > 0 && e[k - 1] == '\\' {
      if k >= |head| {
        assert rest[k - |head|] == '\"';
        assert e[k - 1] == rest[k - |head| - 1];
      }
    }
    if rest == "" {
      assert value[1..] == "";
    } else {
      assert e[|e| - 1] == rest[|rest| - 1];
    }
  }

  /** The value of a string token that is properly closed never ends in a backslash. */
  lemma {:induction false} UnescapeLast(raw: string)
    requires raw != "" && raw[|raw| - 1] != '\\'
    ensures Unescape(raw) != "" && Unescape(raw)[|Unescape(raw)| - 1] == raw[|raw| - 1]
  {
    if raw[0] == '\\' && 1 < |raw| && raw[1] in ['\\', '\'', '\"'] {
      if |raw| > 2 {
        UnescapeLast(raw[2..]);
      } else {
        assert raw[2..] == "";
      }
    } else if |raw| > 1 {
      UnescapeLast(raw[1..]);
    } else {
      assert raw[1..] == "";
    }
  }

  /** A string can be written in a filter, in either kind of quotes, iff it does not end in a backslash:
      the scanner takes a quote after a backslash for an escaped one, also when that backslash is itself escaped. */
  lemma StringExpressible(value: string)
    ensures (exists quote, raw :: IsQuote(quote) && ScansAs(quote, raw) && Unescape(raw) == value)
            <==> value == "" || value[|value| - 1] != '\\'
  {
    hide ScansAs, Enclosed, Unescape;
    if value == "" || value[|value| - 1] != '\\' {
      UnescapeEscape(value);
      EscapeEnclosed(value);
      EnclosedIff('\"', Escape(value));
      assert IsQuote('\"') && ScansAs('\"', Escape(value)) && Unescape(Escape(value)) == value;
    }
    forall quote, raw | IsQuote(quote) && ScansAs(quote, raw) && Unescape(raw) == value
      ensures value == "" || value[|value| - 1] != '\\'
    {
      EnclosedIff(quote, raw);
      EnclosedLast(quote, raw);
    }
  }

  lemma {:induction false} EnclosedLast(quote: char, raw: string)
    requires Enclosed(quote, raw)
    ensures Unescape(raw) == "" || Unescape(raw)[|Unescape(raw)| - 1] != '\\'
  {
    if raw != "" {
      UnescapeLast(raw);
    }
  }

  /** A text in quotes that ends in a backslash, escaped or not, and has no other closing quote is not closed. */
  lemma BackslashHidesQuote(quote: char, raw: string)
    requires IsQuote(quote) && NoneInside(quote, raw) && raw != "" && raw[|raw| - 1] == '\\'
    ensures LexAt([quote] + raw + [quote], 0)
      == Lexed(|raw| + 3, [Token(KString, 1, |raw| + 2, 0)], [UnclosedString(0)])
  {
    hide StringEnd, LexAt;
    var s := [quote] + raw + [quote];
    QuoteStarts(s);
    forall k | 1 <= k < |s| ensures !(s[k] == s[0] && s[k - 1] != '\\') {
      assert k <= |raw| ==> s[k] == raw[k - 1];
      assert 1 < k ==> s[k - 1] == raw[k - 2];
    }
    EndAfter(s, 1, |s|);
    EndIs(s, |s|);
  }

  // ---------- why booleans are passed as 0 and 1 ----------

  /** The filter `v && 1` on a boolean variable, given an arbitrary word for it. */
  function Conjunction(): Expr {
    Binary(0, And, Variable(0, 0), Integer(0, 1))
  }

  function ConjunctionCode(): seq<Cell> {
    [Word(OP_LOAD_VAR), Word(0), Word(OP_NJUMP), Word(4), Word(OP_LOAD_INT64), Word(1), Word(OP_TEST), Word(OP_AND),
      Word(OP_HLT)]
  }

  function ConjunctionMachine(w: int, engine: RegexEngine): Machine {
    Machine(ConjunctionCode(), Pools([], []), [Word(w)], engine)
  }

  lemma ConjunctionCompiles(engine: RegexEngine)
    ensures Program(Conjunction(), [TBoolean], engine) == Piece(ConjunctionCode(), [], [], [])
    ensures Whole(ConjunctionCode()) && Link(ConjunctionCode()) == ConjunctionCode()
  {
    hide Link, Whole;
    var right := [Word(OP_LOAD_INT64), Word(1)];
    assert Gen(Integer(0, 1), [TBoolean], false, engine, 0, 0).code == right;
    assert Gen(Conjunction(), [TBoolean], false, engine, 0, 0).code == ConjunctionCode()[..8];
    assert ConjunctionCode() == ConjunctionCode()[..8] + [] + Op(OP_HLT);
    ProgramWhole(Conjunction(), [TBoolean], engine);
    ConjunctionLinked();
  }

  lemma ConjunctionLinked()
    ensures Whole(ConjunctionCode()) && Link(ConjunctionCode()) == ConjunctionCode()
  {
    hide Link, Whole, LinkFirst;
    var c := ConjunctionCode();
    HaltLinked();
    PlainLinked(c[7..], 1);
    PlainLinked(c[6..], 1);
    PlainLinked(c[4..], 2);
    PlainLinked(c[2..], 2);
    PlainLinked(c, 2);
    assert c[8..] == Op(OP_HLT) && c[7..][1..] == c[8..] && c[6..][1..] == c[7..] && c[4..][2..] == c[6..]
      && c[2..][2..] == c[4..];
  }

  lemma {:induction false} PlainLinked(code: seq<Cell>, w: nat)
    requires code != [] && code[0].Word? && w == Width(code[0].w) <= |code| && (w == 2 ==> code[1].Word?)
    requires code[0].w != OP_LOAD_STR && code[0].w != OP_LOAD_REGEX
    ensures Whole(code[w..]) && Link(code[w..]) == code[w..] ==> Whole(code) && Link(code) == code
  {
  }

  lemma {:induction false} BitAndOne(w: int)
    ensures BitAnd(w, 1) == w % 2
  {
    assert BitAnd(w / 2, 0) == 0;
  }

  /** The machine for a tree, its variables holding these cells. */
  function MachineOf(tree: Expr, types: seq<Type>, vars: seq<Cell>, engine: RegexEngine): Machine {
    ProgramWhole(tree, types, engine);
    var p := Program(tree, types, engine);
    Machine(Link(p.code), Pools(p.strings, p.regexes), vars, engine)
  }

  /** The filter `v && 1` answers 0 for the word 0 and the lowest bit of every other word. */
  lemma BooleanWords(w: int, engine: RegexEngine)
    ensures Program(Conjunction(), [TBoolean], engine).err == []
    ensures Run(MachineOf(Conjunction(), [TBoolean], [Word(w)], engine), 0, [])
      == Halted([Word(if w == 0 then 0 else w % 2)])
  {
    hide Run, Program, Link;
    ConjunctionCompiles(engine);
    ConjunctionRuns(w, engine);
  }

  lemma ConjunctionRuns(w: int, engine: RegexEngine)
    ensures Run(ConjunctionMachine(w, engine), 0, []) == Halted([Word(if w == 0 then 0 else w % 2)])
  {
    hide Binop, BitAnd;
    var m := ConjunctionMachine(w, engine);
    BitAndOne(w);
    assert [] + [Word(w)] == [Word(w)];
    assert Run(m, 0, []) == Run(m, 2, [Word(w)]);
    if w == 0 {
      assert Run(m, 2, [Word(w)]) == Run(m, 8, [Word(w)]);
    } else {
      var two := [Word(w), Word(1)];
      assert [Word(w)] + [Word(1)] == two && Pop(two) + [Bit(true)] == two;
      assert Run(m, 2, [Word(w)]) == Run(m, 4, [Word(w)]) == Run(m, 6, two) == Run(m, 7, two);
      BinopAnd(w, 1, engine);
      assert Run(m, 7, [Word(w), Word(1)]) == Run(m, 8, [Word(w % 2)]);
    }
  }

  lemma {:induction false} BinopAnd(a: int, b: int, engine: RegexEngine)
    ensures Binop(OP_AND, Word(a), Word(b), Pools([], []), engine) == Some(Word(BitAnd(a, b)))
  {
  }

  /** A tree that compiles runs to its value. */
  ghost predicate Agrees(tree: Expr, types: seq<Type>, env: seq<Value>, vars: seq<Cell>, engine: RegexEngine) {
    VariablesBelow(tree, |types|) && Program(tree, types, engine).err == [] ==>
      Run(MachineOf(tree, types, vars, engine), 0, []) == Halted([Bit(Truth(Eval(tree, env, false, engine)))])
  }

  /** The filter `v == 1`. */
  function EqualsOne(id: nat): Expr {
    Binary(0, Eq, Variable(0, id), Integer(0, 1))
  }

  lemma {:induction false} EqualsOnePiece(types: seq<Type>, id: nat, engine: RegexEngine)
    requires id < |types| && types[id] == TBoolean
    ensures var left, right := [Word(OP_LOAD_VAR), Word(id)], [Word(OP_LOAD_INT64), Word(1)];
      Gen(EqualsOne(id), types, false, engine, 0, 0) == Piece(left + right + [] + [] + Op(OP_EQ), [], [], [])
    ensures TypeOf(EqualsOne(id), types, false) == TBoolean && Conversion(TBoolean, TBoolean, 0) == ([], [])
  {
    hide Combine;
    var p, q := Piece([Word(OP_LOAD_VAR), Word(id)], [], [], []), Piece([Word(OP_LOAD_INT64), Word(1)], [], [], []);
    assert Gen(Variable(0, id), types, false, engine, 0, 0) == p;
    assert Gen(Integer(0, 1), types, false, engine, 0, 0) == q;
    CombineEqual(p, q);
  }

  lemma CombineEqual(p: Piece, q: Piece)
    requires p.strings == p.regexes == q.strings == q.regexes == [] && p.err == q.err == []
    ensures Combine(Eq, TBoolean, p, q, ([], []), ([], [])) == Piece(p.code + q.code + [] + [] + Op(OP_EQ), [], [], [])
  {
  }

  lemma SixCells(id: nat)
    ensures [Word(OP_LOAD_VAR), Word(id)] + [Word(OP_LOAD_INT64), Word(1)] + [] + [] + Op(OP_EQ) + [] + Op(OP_HLT) ==
      [Word(OP_LOAD_VAR), Word(id), Word(OP_LOAD_INT64), Word(1), Word(OP_EQ), Word(OP_HLT)]
  {
  }

  lemma {:induction false} EqualsOneCompiles(types: seq<Type>, id: nat, engine: RegexEngine)
    requires id < |types| && types[id] == TBoolean
    ensures VariablesBelow(EqualsOne(id), |types|)
    ensures Program(EqualsOne(id), types, engine) ==
      Piece([Word(OP_LOAD_VAR), Word(id), Word(OP_LOAD_INT64), Word(1), Word(OP_EQ), Word(OP_HLT)], [], [], [])
  {
    hide Gen, Combine, Conversion, Wanted, Tail, TypeOf;
    var left, right := [Word(OP_LOAD_VAR), Word(id)], [Word(OP_LOAD_INT64), Word(1)];
    EqualsOnePiece(types, id, engine);
    SixCells(id);
  }

  lemma EqualsOneLinked(id: nat)
    ensures var c := [Word(OP_LOAD_VAR), Word(id), Word(OP_LOAD_INT64), Word(1), Word(OP_EQ), Word(OP_HLT)];
      Whole(c) && Link(c) == c
  {
    hide Link, Whole, LinkFirst;
    var c := [Word(OP_LOAD_VAR), Word(id), Word(OP_LOAD_INT64), Word(1), Word(OP_EQ), Word(OP_HLT)];
    HaltLinked();
    PlainLinked(c[4..], 1);
    PlainLinked(c[2..], 2);
    PlainLinked(c, 2);
    assert c[5..] == Op(OP_HLT) && c[4..][1..] == c[5..] && c[2..][2..] == c[4..];
  }

  /** It compares the word itself. */
  lemma EqualsOneRuns(types: seq<Type>, id: nat, vars: seq<Cell>, w: int, engine: RegexEngine)
    requires id < |types| == |vars| && types[id] == TBoolean && vars[id] == Word(w)
    ensures Run(MachineOf(EqualsOne(id), types, vars, engine), 0, []) == Halted([Bit(w == 1)])
  {
    hide Program, Link, Binop;
    EqualsOneCompiles(types, id, engine);
    EqualsOneLinked(id);
    var m := MachineOf(EqualsOne(id), types, vars, engine);
    var two := [Word(w), Word(1)];
    assert [] + [Word(w)] == [Word(w)] && [Word(w)] + [Word(1)] == two;
    assert Pop(Pop(two)) + [Bit(w == 1)] == [Bit(w == 1)];
    EqualWords(w, 1, m);
    assert Run(m, 0, []) == Run(m, 2, [Word(w)]) == Run(m, 4, two) == Run(m, 5, [Bit(w == 1)]);
  }

  lemma EqualWords(a: int, b: int, m: Machine)
    ensures Binop(OP_EQ, Word(a), Word(b), m.pools, m.engine) == Some(Bit(a == b))
  {
  }

  /**
   * A boolean variable may be passed as the word `w` iff that is 0 or 1: only then do all filters that
   * compile agree with reading the word as a truth value.
   */
  lemma BooleanWordsIff(types: seq<Type>, env: seq<Value>, vars: seq<Cell>, id: nat, w: int, engine: RegexEngine)
    requires Valuation(env, types) && |vars| == |env| && id < |env| && types[id] == TBoolean
    requires env[id] == BoolV(w != 0) && vars[id] == Word(w)
    requires forall i :: 0 <= i < |env| && i != id ==> vars[i] == CellOf(env[i])
    ensures (forall tree :: Agrees(tree, types, env, vars, engine)) <==> w in {0, 1}
  {
    hide Run, Program, Link, Gen;
    if w in {0, 1} {
      forall tree ensures Agrees(tree, types, env, vars, engine) {
        ProgramWhole(tree, types, engine);
        if VariablesBelow(tree, |types|) && Program(tree, types, engine).err == [] {
          ProgramMeaning(tree, types, env, MachineOf(tree, types, vars, engine));
        }
      }
    } else {
      EqualsOneCompiles(types, id, engine);
      EqualsOneRuns(types, id, vars, w, engine);
      EqualsOneMeans(id, env, engine);
      assert !Agrees(EqualsOne(id), types, env, vars, engine);
    }
  }

  lemma {:induction false} EqualsOneMeans(id: nat, env: seq<Value>, engine: RegexEngine)
    requires id < |env| && env[id].BoolV?
    ensures Truth(Eval(EqualsOne(id), env, false, engine)) == env[id].b
  {
  }
}
