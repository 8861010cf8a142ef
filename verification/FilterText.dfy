/** What the characters and words of a filter mean, spelled out. */
module FilterText {
  import opened Shared
  import opened FilterAst
  import opened FilterTokens
  import opened FilterParser
  import opened FilterParens
  import opened FilterPrint
  import opened FilterCode
  import opened FilterMachine
  import opened FilterRoundTrip
  import opened TaskFilter

  // ---------- characters ----------

  /** The classes of characters, by their codes. */
  lemma CharClasses(c: char)
    ensures IsSpace(c) <==> c as int in {9, 10, 11, 12, 13, 32}
    ensures IsDigit(c) <==> c in "0123456789"
    ensures IsQuote(c) <==> c == '\'' || c == '\"'
    ensures IsNameStart(c) <==> c == '_' || 65 <= c as int <= 90 || 97 <= c as int <= 122
    ensures IsNamePart(c) <==> IsNameStart(c) || c in "0123456789"
  {
    if IsDigit(c) {
      var digits := "0123456789";
      assert digits[c as int - 48] == c;
    }
  }

  /** One of the ten operators, written out, stands at `i`. */
  predicate OperatorAt(s: string, i: nat)
    requires i < |s|
  {
    s[i] in {'!', '<', '>'} || (i + 1 < |s| && s[i..i + 2] in {"&&", "||", "==", "~="})
  }

  lemma {:induction false} OperatorAtIff(s: string, i: nat)
    requires i < |s|
    ensures FindOp(s, i, 0) < |OPS| <==> OperatorAt(s, i)
  {
    var k := FindOp(s, i, 0);
    assert s[i..i + 1] == [s[i]];
    var ops := OPS;
    assert ops[0].0 == "!=" && ops[1].0 == "!" && ops[2].0 == "&&" && ops[3].0 == "<=" && ops[4].0 == "<";
    assert ops[5].0 == "==" && ops[6].0 == ">=" && ops[7].0 == ">" && ops[8].0 == "||" && ops[9].0 == "~=";
    if k < |OPS| {
      assert s[i..i + |ops[k].0|][0] == s[i];
    } else {
      assert !StandsAt(s, i, ops[1].0) && !StandsAt(s, i, ops[2].0) && !StandsAt(s, i, ops[4].0);
      assert !StandsAt(s, i, ops[5].0) && !StandsAt(s, i, ops[7].0) && !StandsAt(s, i, ops[8].0);
      assert !StandsAt(s, i, ops[9].0);
    }
  }

  /** No token starts at a character iff it is none of these and no operator stands there. */
  lemma NoTokenIff(s: string, i: nat)
    requires i < |s|
    ensures LexAt(s, i) == Lexed(i + 1, [], [NoToken(i)]) <==>
      && !OperatorAt(s, i)
      && s[i] !in {'(', ')', '\'', '\"', '-', '_'}
      && (var n := s[i] as int;
          n !in {9, 10, 11, 12, 13, 32} && !(48 <= n <= 57) && !(65 <= n <= 90) && !(97 <= n <= 122))
  {
    hide FindOp, StringEnd, FromChars, NameEnd, StandsAt;
    OperatorAtIff(s, i);
  }

  // ---------- numbers ----------

  /** The text of an integer is a number iff it fits into 64 bits, and an error otherwise. */
  lemma NumberIff(n: int)
    ensures var w := Spell(LNum(n), []);
            LexAt(w + " ", 0) == if -9223372036854775808 <= n <= 9223372036854775807
              then Lexed(|w|, [Token(KNumber, 0, |w|, n)], []) else Lexed(1, [], [BadNumber(0)])
  {
    hide Digits, Decimal, DigitsEnd, FindOp, StringEnd, NameEnd, LexOp;
    var w, digits := Spell(LNum(n), []), Digits(if n < 0 then -n else n);
    var s, start := w + " ", if n < 0 then 1 else 0;
    NoOp(s, 0);
    forall k | start <= k < |w| ensures IsDigit(s[k]) {
      assert s[k] == digits[k - start];
    }
    DigitsEndIs(s, start, |w|);
    assert s[start..|w|] == digits;
    DecimalDigits(if n < 0 then -n else n);
  }

  /** Numerals are decimal. */
  lemma NextDigit(n: nat, d: nat)
    requires d < 10
    ensures Digits(d) == ["0123456789"[d]] && (n > 0 ==> Digits(10 * n + d) == Digits(n) + ["0123456789"[d]])
  {
    var digits := "0123456789";
    assert digits[0] == '0' && digits[1] == '1' && digits[2] == '2' && digits[3] == '3' && digits[4] == '4';
    assert digits[5] == '5' && digits[6] == '6' && digits[7] == '7' && digits[8] == '8' && digits[9] == '9';
    assert (10 * n + d) / 10 == n && (10 * n + d) % 10 == d;
  }

  // ---------- strings ----------

  /** A backslash and a character that it escapes stand at `k`. */
  predicate PairAt(raw: string, k: nat) {
    k + 1 < |raw| && raw[k] == '\\' && (raw[k + 1] == '\\' || raw[k + 1] == '\'' || raw[k + 1] == '\"')
  }

  /** The first pair stands for its second character, and everything before it for itself. */
  lemma {:induction false} UnescapeFirst(raw: string, n: nat)
    requires PairAt(raw, n) && forall k :: 0 <= k < n ==> !PairAt(raw, k)
    ensures Unescape(raw) == raw[..n] + [raw[n + 1]] + Unescape(raw[n + 2..])
  {
    if n == 0 {
      assert raw[..0] == "";
    } else {
      var rest := raw[1..];
      assert !PairAt(raw, 0);
      forall k | 0 <= k < n - 1 ensures !PairAt(rest, k) {
        assert !PairAt(raw, k + 1);
      }
      UnescapeFirst(rest, n - 1);
      assert rest[n - 1 + 2..] == raw[n + 2..];
      assert raw[..n] == [raw[0]] + rest[..n - 1];
    }
  }

  /** A text without such a pair stands for itself. */
  lemma {:induction false} UnescapePlain(raw: string)
    requires forall k :: 0 <= k < |raw| ==> !PairAt(raw, k)
    ensures Unescape(raw) == raw
  {
    if raw != "" {
      var rest := raw[1..];
      assert !PairAt(raw, 0);
      forall k | 0 <= k < |rest| ensures !PairAt(rest, k) {
        assert !PairAt(raw, k + 1);
      }
      UnescapePlain(rest);
      assert raw == [raw[0]] + rest;
    }
  }

  // ---------- operators ----------

  /** The text compiles without an error and answers this. */
  ghost predicate Answers(text: string, engine: RegexEngine, answer: bool) {
    && Parse(text, []).Tree? && VariablesBelow(Parse(text, []).tree, 0)
    && Program(Parse(text, []).tree, [], engine).err == []
    && Run(MachineOf(Parse(text, []).tree, [], [], engine), 0, []) == Halted([Word(if answer then 1 else 0)])
  }

  predicate Int64(n: int) {
    -9223372036854775808 <= n <= 9223372036854775807
  }

  /** The text of a number. */
  function Numeral(n: int): string {
    if n < 0 then "-" + Digits(-n) else Digits(n)
  }

  /** Any text without quotes and backslashes, in quotes. */
  function Quoted(x: string): string {
    "\"" + x + "\""
  }

  predicate Plain(x: string) {
    '\"' !in x && '\'' !in x && '\\' !in x
  }

  function Sentence(a: string, word: string, b: string): string {
    a + " " + word + " " + b + " "
  }

  lemma {:induction false} PrintedAnswers(e: Expr, engine: RegexEngine, answer: bool)
    requires Printable(e, []) && WellTyped(e, [], false, engine) && Scalar(TypeOf(e, [], false))
    requires Truth(Eval(e, [], false, engine)) == answer
    ensures Answers(Print(e, []), engine, answer)
  {
    hide Parse, Print, Printable, WellTyped, TypeOf, Eval, Program, Run, Link, Whole;
    PrintedMeaning(e, [], [], engine, [], []);
    ParseVariables(Print(e, []), []);
  }

  /** The lexeme of a number or a string. */
  function Literal(e: Expr): Lexeme
    requires e.Integer? || e.Text?
  {
    if e.Integer? then LNum(e.value) else LStr(e.raw)
  }

  lemma SentencePrinted(l: Expr, op: BinOp, r: Expr)
    requires (l.Integer? || l.Text?) && (r.Integer? || r.Text?)
    ensures Print(Binary(0, op, l, r), []) == Sentence(Spell(Literal(l), []), OpText(op), Spell(Literal(r), []))
  {
    hide Spell;
    var e := Binary(0, op, l, r);
    assert Words(l) == [Literal(l)] && Words(r) == [Literal(r)];
    assert Side(l, false) == Words(l) && Side(r, false) == Words(r);
    assert Words(e) == [Literal(l)] + [LOp(op)] + [Literal(r)] == [Literal(l), LOp(op), Literal(r)];
    LineOf(Literal(l), op, Literal(r));
  }

  lemma {:induction false} LineStep(x: Lexeme, rest: seq<Lexeme>)
    ensures Line([x] + rest, []) == Spell(x, []) + " " + Line(rest, []) && Line([], []) == ""
  {
    hide Spell;
    assert ([x] + rest)[1..] == rest;
  }

  lemma Joined(a: string, word: string, b: string)
    ensures a + " " + (word + " " + (b + " " + "")) == Sentence(a, word, b)
  {
  }

  lemma OperatorSpelled(op: BinOp)
    ensures Spell(LOp(op), []) == OpText(op)
  {
  }

  lemma LineOf(x: Lexeme, op: BinOp, y: Lexeme)
    ensures Line([x, LOp(op), y], []) == Sentence(Spell(x, []), OpText(op), Spell(y, []))
  {
    hide *;
    LineStep(x, [LOp(op), y]);
    LineStep(LOp(op), [y]);
    LineStep(y, []);
    OperatorSpelled(op);
    assert [x, LOp(op), y] == [x] + [LOp(op), y] && [LOp(op), y] == [LOp(op)] + [y] && [y] == [y] + [];
    Joined(Spell(x, []), OpText(op), Spell(y, []));
  }

  lemma NumbersMean(a: int, op: BinOp, b: int, engine: RegexEngine)
    requires Int64(a) && Int64(b) && op != Like
    ensures Answers(Sentence(Numeral(a), OpText(op), Numeral(b)), engine, Apply(op, IntV(a), IntV(b), engine))
  {
    hide Print, Answers, Apply, OpText, Digits;
    var e := Binary(0, op, Integer(0, a), Integer(0, b));
    SentencePrinted(e.l, op, e.r);
    assert Eval(e, [], false, engine) == BoolV(Apply(op, IntV(a), IntV(b), engine));
    PrintedAnswers(e, engine, Apply(op, IntV(a), IntV(b), engine));
  }

  /** Every operator between two numbers, from the text to the answer. */
  lemma Sentences(a: int, b: int, engine: RegexEngine)
    requires Int64(a) && Int64(b)
    ensures var l, r := Numeral(a), Numeral(b);
            && Answers(Sentence(l, "==", r), engine, a == b) && Answers(Sentence(l, "!=", r), engine, a != b)
            && Answers(Sentence(l, "<", r), engine, a < b) && Answers(Sentence(l, "<=", r), engine, a <= b)
            && Answers(Sentence(l, ">", r), engine, a > b) && Answers(Sentence(l, ">=", r), engine, a >= b)
            && Answers(Sentence(l, "&&", r), engine, a != 0 && b != 0)
            && Answers(Sentence(l, "||", r), engine, a != 0 || b != 0)
  {
    hide Answers, Sentence, Numeral;
    NumbersMean(a, Eq, b, engine);
    NumbersMean(a, Ne, b, engine);
    NumbersMean(a, Ls, b, engine);
    NumbersMean(a, Le, b, engine);
    NumbersMean(a, Gt, b, engine);
    NumbersMean(a, Ge, b, engine);
    NumbersMean(a, And, b, engine);
    NumbersMean(a, Or, b, engine);
  }

  /** A negation is true of 0 only. */
  lemma Negation(a: int, engine: RegexEngine)
    requires Int64(a)
    ensures Answers("! " + Numeral(a) + " ", engine, a == 0)
  {
    hide Answers, Digits, Line, Spell;
    var e := Not(0, Integer(0, a));
    assert Words(e.t) == [LNum(a)];
    assert Words(e) == [LNot] + [LNum(a)] == [LNot, LNum(a)];
    hide Words, Print, Numeral;
    assert Eval(e, [], false, engine) == BoolV(!Truth(IntV(a)));
    NegationPrinted(e, a);
    PrintedAnswers(e, engine, a == 0);
  }

  lemma {:induction false} NegationPrinted(e: Expr, a: int)
    requires Words(e) == [LNot, LNum(a)]
    ensures Print(e, []) == "! " + Numeral(a) + " "
  {
    hide Words, Line;
    LineStep(LNot, [LNum(a)]);
    LineStep(LNum(a), []);
    assert Spell(LNum(a), []) == Numeral(a) && Spell(LNot, []) == "!";
    hide Spell, Numeral;
    assert [LNot, LNum(a)] == [LNot] + [LNum(a)] && [LNum(a)] == [LNum(a)] + [];
  }

  lemma {:induction false} PlainWritable(x: string)
    requires Plain(x)
    ensures Writable(LStr(x), []) && Unescape(x) == x
  {
    UnescapePlain(x);
  }

  lemma {:induction false} TypedTexts(x: string, op: BinOp, y: string, engine: RegexEngine)
    requires Plain(x) && Plain(y) && (op == Eq || op == Ne || (op == Like && engine.valid(y)))
    ensures var e := Binary(0, op, Text(0, x), Text(0, y));
            && Printable(e, []) && WellTyped(e, [], false, engine) && Scalar(TypeOf(e, [], false))
            && Eval(e, [], false, engine) ==
                 BoolV(Apply(op, StrV(x), if op == Like then RegexV(y) else StrV(y), engine))
  {
    PlainWritable(x);
    PlainWritable(y);
    hide Unescape, Apply, Plain, Writable;
  }

  lemma TextSpelled(x: string)
    ensures Spell(LStr(x), []) == Quoted(x)
  {
  }

  lemma TextsMean(x: string, op: BinOp, y: string, engine: RegexEngine)
    requires Plain(x) && Plain(y) && (op == Eq || op == Ne || (op == Like && engine.valid(y)))
    ensures var right := if op == Like then RegexV(y) else StrV(y);
            Answers(Sentence(Quoted(x), OpText(op), Quoted(y)), engine, Apply(op, StrV(x), right, engine))
  {
    var e := Binary(0, op, Text(0, x), Text(0, y));
    var right := if op == Like then RegexV(y) else StrV(y);
    TypedTexts(x, op, y, engine);
    SentencePrinted(e.l, op, e.r);
    TextSpelled(x);
    TextSpelled(y);
    assert Truth(BoolV(Apply(op, StrV(x), right, engine))) == Apply(op, StrV(x), right, engine);
    hide Answers, Print, Printable, WellTyped, TypeOf, Eval, Truth, Sentence, Apply, OpText, Plain, Spell, Quoted,
      Scalar;
    PrintedAnswers(e, engine, Apply(op, StrV(x), right, engine));
  }

  /** The operators between two strings; a pattern is what the regex engine takes it for. */
  lemma StringSentences(x: string, y: string, engine: RegexEngine)
    requires Plain(x) && Plain(y)
    ensures var l, r := Quoted(x), Quoted(y);
            && Answers(Sentence(l, "==", r), engine, x == y) && Answers(Sentence(l, "!=", r), engine, x != y)
            && (engine.valid(y) ==> Answers(Sentence(l, "~=", r), engine, engine.matches(x, y)))
  {
    hide Answers, Sentence, Quoted;
    TextsMean(x, Eq, y, engine);
    TextsMean(x, Ne, y, engine);
    if engine.valid(y) {
      TextsMean(x, Like, y, engine);
    }
  }
}
