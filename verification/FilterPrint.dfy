/** Printing a tree as text, and what scanning and parsing the text gives back. */
module FilterPrint {
  import opened FilterAst
  import opened FilterTokens
  import opened FilterParser
  import opened FilterParens

  // ---------- printing ----------

  datatype Lexeme = LVar(id: nat) | LNum(value: int) | LStr(raw: string) | LOpen | LClose | LNot | LOp(op: BinOp)

  /** How tightly a tree binds at its root; leaves and negations are tighter than every operator. */
  function Looseness(e: Expr): int {
    if e.Binary? then Priority(e.op) else -1
  }

  predicate IsLeaf(e: Expr) {
    e.Variable? || e.Integer? || e.Text?
  }

  /** Parentheses stand only around the operand of a NOT that is not a leaf, around a left operand that
      is looser than its operator and around a right operand that is not tighter. */
  function Words(e: Expr): seq<Lexeme>
    decreases e, 0
  {
    match e
    case Variable(_, id) => [LVar(id)]
    case Integer(_, n) => [LNum(n)]
    case Text(_, raw) => [LStr(raw)]
    case Error => []
    case Not(_, t) => [LNot] + Side(t, !IsLeaf(t))
    case Binary(_, op, l, r) =>
      Side(l, Looseness(l) > Priority(op)) + [LOp(op)] + Side(r, Looseness(r) >= Priority(op))
  }

  function Side(e: Expr, parenthesized: bool): seq<Lexeme>
    decreases e, 1
  {
    if parenthesized then [LOpen] + Words(e) + [LClose] else Words(e)
  }

  function Digits(n: nat): (digits: string)
    ensures digits != "" && forall k :: 0 <= k < |digits| ==> IsDigit(digits[k])
  {
    (if n < 10 then "" else Digits(n / 10)) + [('0' as int + n % 10) as char]
  }

  function OpText(op: BinOp): string {
    match op
    case And => "&&" case Or => "||" case Eq => "==" case Ne => "!=" case Gt => ">"
    case Ge => ">=" case Ls => "<" case Le => "<=" case Like => "~="
  }

  function Spell(x: Lexeme, names: seq<string>): string {
    match x
    case LVar(id) => if id < |names| then names[id] else ""
    case LNum(n) => if n < 0 then "-" + Digits(-n) else Digits(n)
    case LStr(raw) => "\"" + raw + "\""
    case LOpen => "("
    case LClose => ")"
    case LNot => "!"
    case LOp(op) => OpText(op)
  }

  function Line(xs: seq<Lexeme>, names: seq<string>): string {
    if xs == [] then "" else Spell(xs[0], names) + " " + Line(xs[1..], names)
  }

  function Print(e: Expr, names: seq<string>): string {
    Line(Words(e), names)
  }

  predicate IsName(name: string) {
    name != "" && IsNameStart(name[0]) && forall k :: 0 <= k < |name| ==> IsNamePart(name[k])
  }

  /** No quote inside closes the string early, and a backslash does not hide the closing one. */
  predicate Enclosed(quote: char, raw: string) {
    NoneInside(quote, raw) && (raw != "" ==> raw[|raw| - 1] != '\\')
  }

  predicate NoneInside(quote: char, raw: string) {
    forall k :: 0 <= k < |raw| && raw[k] == quote ==> k > 0 && raw[k - 1] == '\\'
  }

  predicate Writable(x: Lexeme, names: seq<string>) {
    match x
    case LVar(id) => id < |names| && IsName(names[id]) && Declared(names, names[id]) == id
    case LNum(n) => INT64_MIN <= n <= INT64_MAX
    case LStr(raw) => Enclosed('\"', raw)
    case _ => true
  }

  /** Every leaf has a text: declared names, 64-bit numbers and strings that a pair of quotes can hold. */
  predicate Printable(e: Expr, names: seq<string>) {
    match e
    case Variable(_, id) => Writable(LVar(id), names)
    case Integer(_, n) => Writable(LNum(n), names)
    case Text(_, raw) => Writable(LStr(raw), names)
    case Error => false
    case Not(_, t) => Printable(t, names)
    case Binary(_, _, l, r) => Printable(l, names) && Printable(r, names)
  }

  /** A tree without its text positions. */
  function Strip(e: Expr): Expr {
    match e
    case Variable(_, id) => Variable(0, id)
    case Integer(_, n) => Integer(0, n)
    case Text(_, raw) => Text(0, raw)
    case Error => Error
    case Not(_, t) => Not(0, Strip(t))
    case Binary(_, op, l, r) => Binary(0, op, Strip(l), Strip(r))
  }

  lemma {:induction false} WordsWritable(e: Expr, names: seq<string>)
    requires Printable(e, names)
    ensures forall x :: x in Words(e) ==> Writable(x, names)
    ensures Words(e) != []
  {
    hide Writable, Looseness;
    match e {
      case Not(_, t) => WordsWritable(t, names);
      case Binary(_, op, l, r) =>
        WordsWritable(l, names);
        WordsWritable(r, names);
      case _ =>
    }
    MarksWritable(names);
  }

  lemma MarksWritable(names: seq<string>)
    ensures Writable(LOpen, names) && Writable(LClose, names) && Writable(LNot, names)
    ensures forall op :: Writable(LOp(op), names)
  {
  }

  // ---------- scanning what was printed ----------

  function KindOf(x: Lexeme): Kind {
    match x
    case LVar(_) => KVariable
    case LNum(_) => KNumber
    case LStr(_) => KString
    case LOpen => KOpen
    case LClose => KClose
    case LNot => KNot
    case LOp(op) => KOp(op)
  }

  /** A token as the tokenizer makes it from a lexeme. */
  predicate Scanned(s: string, t: Token, x: Lexeme, names: seq<string>) {
    && t.kind == KindOf(x) && t.l <= t.r <= |s|
    && (x.LVar? ==> x.id < |names| && s[t.l..t.r] == names[x.id])
    && (x.LNum? ==> t.data == x.value)
    && (x.LStr? ==> s[t.l..t.r] == x.raw)
  }

  lemma {:induction false} DecimalDigits(n: nat)
    ensures Decimal(Digits(n)) == n
  {
    var d := Digits(n);
    assert d[|d| - 1] == ('0' as int + n % 10) as char;
    if n >= 10 {
      DecimalDigits(n / 10);
      assert d[..|d| - 1] == Digits(n / 10);
    } else {
      assert d[..|d| - 1] == "";
    }
  }

  lemma {:induction false} DigitsEndIs(s: string, j: nat, end: nat)
    requires j <= end < |s| && !IsDigit(s[end]) && forall k :: j <= k < end ==> IsDigit(s[k])
    ensures DigitsEnd(s, j) == end
    decreases end - j
  {
    if j < end {
      DigitsEndIs(s, j + 1, end);
    }
  }

  lemma {:induction false} NameEndIs(s: string, j: nat, end: nat)
    requires j <= end < |s| && !IsNamePart(s[end]) && forall k :: j <= k < end ==> IsNamePart(s[k])
    ensures NameEnd(s, j) == end
    decreases end - j
  {
    if j < end {
      NameEndIs(s, j + 1, end);
    }
  }

  lemma {:induction false} StringEndIs(s: string, open: nat, j: nat, end: nat)
    requires open < j <= end < |s| && s[end] == s[open] && s[end - 1] != '\\'
    requires forall k :: j <= k < end && s[k] == s[open] ==> s[k - 1] == '\\'
    ensures StringEnd(s, open, j) == end
    decreases end - j
  {
    if j < end {
      StringEndIs(s, open, j + 1, end);
    }
  }

  lemma {:induction false} FindOpIs(s: string, i: nat, k: nat)
    requires k <= |OPS| && (k < |OPS| ==> StandsAt(s, i, OPS[k].0))
    requires forall j :: 0 <= j < k ==> !StandsAt(s, i, OPS[j].0)
    ensures FindOp(s, i, 0) == k
  {
  }

  predicate OpStart(c: char) {
    c in ['!', '&', '<', '=', '>', '|', '~']
  }

  lemma {:induction false} NoOp(s: string, i: nat)
    requires i < |s| && !OpStart(s[i])
    ensures FindOp(s, i, 0) == |OPS|
  {
    FindOpIs(s, i, |OPS|);
  }

  /** The place of an operator in the table. */
  function OpIndex(x: Lexeme): (k: nat)
    requires x.LNot? || x.LOp?
    ensures k < |OPS|
  {
    if x.LNot? then 1
    else match x.op
      case Ne => 0 case And => 2 case Le => 3 case Ls => 4 case Eq => 5
      case Ge => 6 case Gt => 7 case Or => 8 case Like => 9
  }

  lemma OpIndexed(x: Lexeme, names: seq<string>)
    requires x.LNot? || x.LOp?
    ensures OPS[OpIndex(x)] == (Spell(x, names), KindOf(x))
  {
  }

  /** An operator followed by a space is read as itself. */
  lemma {:induction false} FindOpText(s: string, i: nat, x: Lexeme, names: seq<string>)
    requires x.LNot? || x.LOp?
    requires StandsAt(s, i, Spell(x, names) + " ")
    ensures FindOp(s, i, 0) == OpIndex(x)
  {
    var w := Spell(x, names);
    StandsIndex(s, i, w + " ");
    assert StandsAt(s, i, w);
    forall j | 0 <= j < OpIndex(x) ensures !StandsAt(s, i, OPS[j].0) {
      OtherOperator(s, i, x, j, names);
    }
    FindOpIs(s, i, OpIndex(x));
  }

  lemma StandsIndex(s: string, i: nat, w: string)
    requires StandsAt(s, i, w)
    ensures forall k :: i <= k < i + |w| ==> s[k] == w[k - i]
  {
    forall k | i <= k < i + |w| ensures s[k] == w[k - i] {
      assert s[i..i + |w|][k - i] == s[k];
    }
  }

  lemma OtherOperator(s: string, i: nat, x: Lexeme, j: nat, names: seq<string>)
    requires x.LNot? || x.LOp?
    requires StandsAt(s, i, Spell(x, names) + " ") && j < OpIndex(x)
    ensures !StandsAt(s, i, OPS[j].0)
  {
    StandsIndex(s, i, Spell(x, names) + " ");
    var o := OPS[j].0;
    if i + |o| <= |s| {
      assert s[i..i + |o|][0] == s[i] && s[i..i + |o|][|o| - 1] == s[i + |o| - 1];
    }
  }

  lemma {:induction false} LexVariable(s: string, i: nat, x: Lexeme, names: seq<string>)
    requires x.LVar? && Writable(x, names) && StandsAt(s, i, Spell(x, names) + " ")
    ensures LexAt(s, i) == Lexed(i + |names[x.id]|, [Token(KVariable, i, i + |names[x.id]|, 0)], [])
  {
    var w := names[x.id];
    StandsIndex(s, i, w + " ");
    NoOp(s, i);
    forall k | i + 1 <= k < i + |w| ensures IsNamePart(s[k]) {
      assert s[k] == w[k - i];
    }
    NameEndIs(s, i + 1, i + |w|);
  }

  lemma ReadNumber(s: string, i: nat, x: Lexeme, names: seq<string>)
    requires x.LNum? && Writable(x, names) && StandsAt(s, i, Spell(x, names) + " ")
    ensures i < |s| && (s[i] == '-' || IsDigit(s[i]))
    ensures FromChars(s, i) == Number(x.value, i + |Spell(x, names)|)
  {
    hide Digits, Decimal, DigitsEnd;
    var w := Spell(x, names);
    var magnitude := if x.value < 0 then -x.value else x.value;
    var digits, start := Digits(magnitude), if x.value < 0 then i + 1 else i;
    StandsIndex(s, i, w + " ");
    assert s[i + |w|] == ' ' && s[i] == w[0];
    forall k | start <= k < i + |w| ensures IsDigit(s[k]) {
      assert s[k] == digits[k - start];
    }
    DigitsEndIs(s, start, i + |w|);
    assert s[start..i + |w|] == digits;
    DecimalDigits(magnitude);
  }

  lemma LexNumber(s: string, i: nat, x: Lexeme, names: seq<string>)
    requires x.LNum? && Writable(x, names) && StandsAt(s, i, Spell(x, names) + " ")
    ensures LexAt(s, i) == Lexed(i + |Spell(x, names)|, [Token(KNumber, i, i + |Spell(x, names)|, x.value)], [])
  {
    hide FromChars, Spell, StandsAt;
    ReadNumber(s, i, x, names);
    NoOp(s, i);
  }

  lemma {:induction false} LexString(s: string, i: nat, x: Lexeme, names: seq<string>)
    requires x.LStr? && Writable(x, names) && StandsAt(s, i, Spell(x, names) + " ")
    ensures LexAt(s, i) == Lexed(i + |x.raw| + 2, [Token(KString, i + 1, i + 1 + |x.raw|, 0)], [])
    ensures s[i + 1..i + 1 + |x.raw|] == x.raw
  {
    var w, n := Spell(x, names), |x.raw|;
    StandsIndex(s, i, w + " ");
    assert s[i] == '\"' && s[i + 1 + n] == '\"';
    NoOp(s, i);
    forall k | i + 1 <= k < i + 1 + n ensures s[k] == x.raw[k - i - 1] {
      assert s[k] == w[k - i];
    }
    StringEndIs(s, i, i + 1, i + 1 + n);
  }

  /** Scanning the text of one lexeme followed by a space reads one token of that lexeme. */
  lemma LexLexeme(s: string, i: nat, x: Lexeme, names: seq<string>)
    requires Writable(x, names) && StandsAt(s, i, Spell(x, names) + " ")
    ensures
      var r := LexAt(s, i);
      && r.next == i + |Spell(x, names)| && r.err == [] && |r.tokens| == 1
      && Scanned(s, r.tokens[0], x, names)
  {
    hide LexAt, Writable, Digits, FindOp;
    match x {
      case LVar(id) =>
        LexVariable(s, i, x, names);
        WritableName(x, names);
        assert s[i..i + |names[id]|] == s[i..i + |names[id]| + 1][..|names[id]|];
      case LNum(_) => LexNumber(s, i, x, names);
      case LStr(_) => LexString(s, i, x, names);
      case LNot => LexMark(s, i, x, names);
      case LOp(_) => LexMark(s, i, x, names);
      case _ => LexParen(s, i, x, names);
    }
  }

  lemma WritableName(x: Lexeme, names: seq<string>)
    requires x.LVar? && Writable(x, names)
    ensures x.id < |names|
  {
  }

  lemma LexMark(s: string, i: nat, x: Lexeme, names: seq<string>)
    requires x.LNot? || x.LOp?
    requires StandsAt(s, i, Spell(x, names) + " ")
    ensures i < |s| && LexAt(s, i) == Lexed(i + |Spell(x, names)|, [Token(KindOf(x), i, i + |Spell(x, names)|, 0)], [])
  {
    hide FindOp;
    FindOpText(s, i, x, names);
    OpIndexed(x, names);
    var w := Spell(x, names) + " ";
    assert s[i..i + |w|][0] == s[i];
  }

  lemma LexParen(s: string, i: nat, x: Lexeme, names: seq<string>)
    requires x.LOpen? || x.LClose?
    requires StandsAt(s, i, Spell(x, names) + " ")
    ensures i < |s| && LexAt(s, i) == Lexed(i + 1, [Token(KindOf(x), i, i + 1, 0)], [])
  {
    hide FindOp;
    var w := Spell(x, names) + " ";
    assert s[i..i + |w|][0] == s[i];
  }

  ghost predicate AllScanned(s: string, tokens: seq<Token>, xs: seq<Lexeme>, names: seq<string>) {
    |tokens| == |xs| && forall k :: 0 <= k < |xs| ==> Scanned(s, tokens[k], xs[k], names)
  }

  /** Scanning a printed line reads exactly its lexemes, without errors. */
  lemma {:induction false} LexLine(s: string, i: nat, xs: seq<Lexeme>, names: seq<string>)
    requires i <= |s| && s[i..] == Line(xs, names) && forall x :: x in xs ==> Writable(x, names)
    ensures Lex(s, i).1 == [] && AllScanned(s, Lex(s, i).0, xs, names)
    decreases |xs|
  {
    hide *;
    if xs == [] {
      NothingToScan(s, i, names);
    } else {
      LineHead(s, i, xs, names);
      LexLexeme(s, i, xs[0], names);
      var next := i + |Spell(xs[0], names)|;
      LexSpace(s, next);
      LexLine(s, next + 1, xs[1..], names);
      ScannedFirst(s, i, next, xs, names);
    }
  }

  lemma {:induction false} NothingToScan(s: string, i: nat, names: seq<string>)
    requires i <= |s| && s[i..] == Line([], names)
    ensures Lex(s, i).1 == [] && AllScanned(s, Lex(s, i).0, [], names)
  {
    assert i == |s|;
  }

  lemma {:induction false} LineHead(s: string, i: nat, xs: seq<Lexeme>, names: seq<string>)
    requires i <= |s| && s[i..] == Line(xs, names) && xs != [] && forall x :: x in xs ==> Writable(x, names)
    ensures var w := Spell(xs[0], names);
            && i + |w| < |s| && s[i + |w|] == ' ' && s[i + |w| + 1..] == Line(xs[1..], names)
            && StandsAt(s, i, w + " ") && Writable(xs[0], names) && forall x :: x in xs[1..] ==> Writable(x, names)
  {
    hide Spell, Writable;
    var w := Spell(xs[0], names);
    var line := Line(xs, names);
    assert line[..|w| + 1] == w + " " && line[|w| + 1..] == Line(xs[1..], names);
    assert s[i..i + |w| + 1] == s[i..][..|w| + 1];
    assert s[i + |w| + 1..] == s[i..][|w| + 1..];
    assert s[i + |w|] == s[i..][|w|] == ' ';
    var x := xs[0];
    assert x in xs;
  }

  lemma {:induction false} ScannedFirst(s: string, i: nat, next: nat, xs: seq<Lexeme>, names: seq<string>)
    requires i < next <= |s| && xs != [] && LexAt(s, i).next == next && LexAt(s, i).err == []
    requires |LexAt(s, i).tokens| == 1 && Scanned(s, LexAt(s, i).tokens[0], xs[0], names)
    requires Lex(s, next).1 == [] && AllScanned(s, Lex(s, next).0, xs[1..], names)
    ensures Lex(s, i).1 == [] && AllScanned(s, Lex(s, i).0, xs, names)
  {
    hide LexAt, Scanned;
    assert Lex(s, i).0 == LexAt(s, i).tokens + Lex(s, next).0;
  }

  lemma LexSpace(s: string, i: nat)
    requires i < |s| && s[i] == ' '
    ensures Lex(s, i) == Lex(s, i + 1)
  {
    assert [] + Lex(s, i + 1).0 == Lex(s, i + 1).0 && [] + Lex(s, i + 1).1 == Lex(s, i + 1).1;
  }

  // ---------- parsing what was scanned ----------

  /** A token whose variable and whose parenthesis are resolved. */
  predicate Fits(s: string, t: Token, x: Lexeme) {
    && t.kind == KindOf(x) && t.l <= t.r <= |s|
    && (x.LVar? ==> t.data == x.id)
    && (x.LNum? ==> t.data == x.value)
    && (x.LStr? ==> s[t.l..t.r] == x.raw)
  }

  /** The lexemes `xs` stand at token `i`. */
  ghost predicate Spelled(s: string, tokens: seq<Token>, i: nat, xs: seq<Lexeme>) {
    i + |xs| <= |tokens| && forall k :: i <= k < i + |xs| ==> Fits(s, tokens[k], xs[k - i])
  }

  lemma SpelledSplit(s: string, tokens: seq<Token>, i: nat, xs: seq<Lexeme>, ys: seq<Lexeme>)
    requires Spelled(s, tokens, i, xs + ys)
    ensures Spelled(s, tokens, i, xs) && Spelled(s, tokens, i + |xs|, ys)
  {
    hide Fits;
    forall k | i <= k < i + |xs| ensures Fits(s, tokens[k], xs[k - i]) {
      assert (xs + ys)[k - i] == xs[k - i];
    }
    forall k | i + |xs| <= k < i + |xs| + |ys| ensures Fits(s, tokens[k], ys[k - i - |xs|]) {
      assert (xs + ys)[k - i] == ys[k - i - |xs|];
    }
  }

  lemma SpelledParens(s: string, tokens: seq<Token>, i: nat, xs: seq<Lexeme>)
    requires Spelled(s, tokens, i, [LOpen] + xs + [LClose])
    ensures i + |xs| + 1 < |tokens| && tokens[i].kind == KOpen && tokens[i + 1 + |xs|].kind == KClose
    ensures Spelled(s, tokens, i + 1, xs)
  {
    SpelledSplit(s, tokens, i, [LOpen] + xs, [LClose]);
    SpelledSplit(s, tokens, i, [LOpen], xs);
  }

  lemma SpelledBinary(s: string, tokens: seq<Token>, i: nat, xs: seq<Lexeme>, op: BinOp, ys: seq<Lexeme>)
    requires Spelled(s, tokens, i, xs + [LOp(op)] + ys)
    ensures Spelled(s, tokens, i, xs) && Spelled(s, tokens, i + |xs| + 1, ys)
    ensures i + |xs| < |tokens| && tokens[i + |xs|].kind == KOp(op)
  {
    SpelledSplit(s, tokens, i, xs + [LOp(op)], ys);
    SpelledSplit(s, tokens, i, xs, [LOp(op)]);
  }

  /** What the parenthesis pass finds in the words of a tree: every parenthesis closes inside, so a scan
      leaves at the depth at which it came. */
  ghost predicate Balanced(tokens: seq<Token>, i: nat, n: nat)
    requires i + n <= |tokens|
  {
    && (forall d: nat :: CloseOf(tokens, i, d) == CloseOf(tokens, i + n, d))
    && (forall d: nat :: StrayCloses(tokens, i, d) == StrayCloses(tokens, i + n, d))
    && (forall k :: i <= k < i + n && tokens[k].kind == KOpen ==> CloseOf(tokens, k + 1, 0) < i + n)
  }

  lemma BalancedJoin(tokens: seq<Token>, i: nat, n: nat, m: nat)
    requires i + n + m <= |tokens| && Balanced(tokens, i, n) && Balanced(tokens, i + n, m)
    ensures Balanced(tokens, i, n + m)
  {
    hide CloseOf, StrayCloses;
  }

  lemma BalancedOne(tokens: seq<Token>, i: nat)
    requires i < |tokens| && tokens[i].kind != KOpen && tokens[i].kind != KClose
    ensures Balanced(tokens, i, 1)
  {
    hide CloseOf, StrayCloses;
    forall d: nat ensures CloseOf(tokens, i, d) == CloseOf(tokens, i + 1, d)
      && StrayCloses(tokens, i, d) == StrayCloses(tokens, i + 1, d) {
      CloseStep(tokens, i, d);
      StrayStep(tokens, i, d);
    }
  }

  lemma BalancedParens(tokens: seq<Token>, i: nat, n: nat)
    requires i + n + 1 < |tokens| && tokens[i].kind == KOpen && tokens[i + 1 + n].kind == KClose
    requires Balanced(tokens, i + 1, n)
    ensures Balanced(tokens, i, n + 2) && CloseOf(tokens, i + 1, 0) == i + 1 + n
  {
    hide CloseOf, StrayCloses;
    forall d: nat
      ensures CloseOf(tokens, i, d) == CloseOf(tokens, i + n + 2, d)
        && StrayCloses(tokens, i, d) == StrayCloses(tokens, i + n + 2, d)
    {
      CloseStep(tokens, i, d);
      StrayStep(tokens, i, d);
      CloseStep(tokens, i + 1 + n, d + 1);
      StrayStep(tokens, i + 1 + n, d + 1);
    }
    CloseStep(tokens, i + 1 + n, 0);
  }

  lemma {:induction false} WordsBalanced(s: string, tokens: seq<Token>, i: nat, e: Expr)
    requires Spelled(s, tokens, i, Words(e)) && !HasError(e)
    ensures i + |Words(e)| <= |tokens| && Balanced(tokens, i, |Words(e)|)
    decreases e, 0
  {
    hide Balanced, Spelled, Looseness;
    match e {
      case Not(_, t) =>
        SpelledSplit(s, tokens, i, [LNot], Side(t, !IsLeaf(t)));
        SideBalanced(s, tokens, i + 1, t, !IsLeaf(t));
        LeafBalanced(s, tokens, i, LNot);
        BalancedJoin(tokens, i, 1, |Side(t, !IsLeaf(t))|);
      case Binary(_, op, l, r) =>
        var left, right := Side(l, Looseness(l) > Priority(op)), Side(r, Looseness(r) >= Priority(op));
        SpelledBinary(s, tokens, i, left, op, right);
        SideBalanced(s, tokens, i, l, Looseness(l) > Priority(op));
        SideBalanced(s, tokens, i + |left| + 1, r, Looseness(r) >= Priority(op));
        BalancedOne(tokens, i + |left|);
        BalancedJoin(tokens, i, |left|, 1);
        BalancedJoin(tokens, i, |left| + 1, |right|);
      case Variable(_, id) => LeafBalanced(s, tokens, i, LVar(id));
      case Integer(_, n) => LeafBalanced(s, tokens, i, LNum(n));
      case Text(_, raw) => LeafBalanced(s, tokens, i, LStr(raw));
    }
  }

  lemma LeafBalanced(s: string, tokens: seq<Token>, i: nat, x: Lexeme)
    requires Spelled(s, tokens, i, [x]) && !x.LOpen? && !x.LClose?
    ensures i < |tokens| && Balanced(tokens, i, 1)
  {
    BalancedOne(tokens, i);
  }

  lemma {:induction false} SideBalanced(s: string, tokens: seq<Token>, i: nat, e: Expr, parenthesized: bool)
    requires Spelled(s, tokens, i, Side(e, parenthesized)) && !HasError(e)
    ensures i + |Side(e, parenthesized)| <= |tokens| && Balanced(tokens, i, |Side(e, parenthesized)|)
    decreases e, 1
  {
    hide Balanced, Spelled, Words;
    if parenthesized {
      SpelledParens(s, tokens, i, Words(e));
      WordsBalanced(s, tokens, i + 1, e);
      BalancedParens(tokens, i, |Words(e)|);
    } else {
      WordsBalanced(s, tokens, i, e);
    }
  }

  ghost predicate Parsable(s: string, tokens: seq<Token>, i: nat, r: nat) {
    Nested(tokens, i, r) && forall k :: i <= k < r ==> WellFormed(tokens[k], s)
  }

  /** Scanning tokens `i..j` adds operands and operators to the chain, uses up the pending NOTs and
      reports nothing. */
  ghost predicate Gathers(s: string, tokens: seq<Token>, i: nat, j: nat, r: nat, c: Chain,
                          operands: seq<Expr>, ops: seq<OpAt>, lastNot: int)
    requires Parsable(s, tokens, i, r) && Alternates(c) && i <= j <= r
  {
    var d := Chain(c.operands + operands, c.ops + ops, false, lastNot, c.err);
    && Parsable(s, tokens, j, r) && Alternates(d)
    && Collect(s, tokens, i, r, c) == Collect(s, tokens, j, r, d)
  }

  /** A leaf. */
  lemma GatherLeaf(s: string, tokens: seq<Token>, i: nat, r: nat, e: Expr, c: Chain) returns (tree: Expr)
    requires Parsable(s, tokens, i, r) && i < r && IsLeaf(e) && Fits(s, tokens[i], Words(e)[0])
    requires |c.operands| == |c.ops|
    ensures Strip(tree) == Strip(e)
    ensures Gathers(s, tokens, i, i + 1, r, c, [Negated(c.odd, c.lastNot, tree)], [], c.lastNot)
  {
    hide Assoc, Build, Nested, WellFormed;
    NestedRest(tokens, i, r);
    LeafFits(s, tokens[i], e);
    tree := Leaf(s, tokens[i]);
    assert c.ops + [] == c.ops;
  }

  lemma {:induction false} LeafFits(s: string, t: Token, e: Expr)
    requires WellFormed(t, s) && IsLeaf(e) && Fits(s, t, Words(e)[0])
    ensures t.kind in {KVariable, KNumber, KString} && Strip(Leaf(s, t)) == Strip(e)
  {
  }

  /** A tree in parentheses. */
  lemma {:induction false} GatherParens(s: string, scanned: seq<Token>, i: nat, r: nat, e: Expr, c: Chain)
    returns (tree: Expr)
    requires Parsable(s, LinkAll(scanned), i, r) && !HasError(e)
    requires Spelled(s, scanned, i, [LOpen] + Words(e) + [LClose]) && i + |Words(e)| + 2 <= r
    requires |c.operands| == |c.ops|
    ensures Strip(tree) == Strip(e)
    ensures Gathers(s, LinkAll(scanned), i, i + |Words(e)| + 2, r, c, [Negated(c.odd, c.lastNot, tree)], [], c.lastNot)
    decreases e, 3
  {
    hide Assoc, Build, WellFormed, Words, LinkAll, Spelled, Balanced, CloseOf, Strip, Nested, Negated;
    var tokens := LinkAll(scanned);
    var n := |Words(e)|;
    SpelledParens(s, scanned, i, Words(e));
    WordsBalanced(s, scanned, i + 1, e);
    BalancedParens(scanned, i, n);
    ParenLinked(scanned, i, i + 1 + n);
    NestedRest(tokens, i, r);
    NestedInside(tokens, i, r, i);
    tree := BuildWords(s, scanned, i + 1, e);
    assert c.err + [] == c.err && c.ops + [] == c.ops;
    WithFreeOperand(c, tree);
  }

  lemma WithFreeOperand(c: Chain, tree: Expr)
    requires |c.operands| == |c.ops|
    ensures WithOperand(c, tree) == Chain(c.operands + [Negated(c.odd, c.lastNot, tree)], c.ops, false, c.lastNot,
      c.err)
  {
  }

  lemma {:induction false} ParenLinked(scanned: seq<Token>, i: nat, j: nat)
    requires i < j < |scanned| && scanned[i].kind == KOpen && CloseOf(scanned, i + 1, 0) == j
    ensures LinkAll(scanned)[i].kind == KOpen && LinkAll(scanned)[i].data == j
  {
  }

  /** The whole of a token range. */
  lemma {:induction false} BuildWords(s: string, scanned: seq<Token>, l: nat, e: Expr) returns (tree: Expr)
    requires Parsable(s, LinkAll(scanned), l, l + |Words(e)|) && !HasError(e)
    requires Spelled(s, scanned, l, Words(e))
    ensures tree == Build(s, LinkAll(scanned), l, l + |Words(e)|).0 && Strip(tree) == Strip(e)
    ensures Build(s, LinkAll(scanned), l, l + |Words(e)|).1 == []
    decreases e, 2
  {
    hide Assoc, Words, LinkAll, Spelled, Strip, Nested, WellFormed;
    var c := Chain([], [], false, 0, []);
    var r := l + |Words(e)|;
    WordsNonempty(e);
    var operands, ops, lastNot := GatherWords(s, scanned, l, r, e, c);
    assert [] + operands == operands && [] + ops == ops;
    tree := Assoc(operands, ops);
  }

  lemma {:induction false} WordsNonempty(e: Expr)
    requires !HasError(e)
    ensures Words(e) != []
  {
  }

  /** An operand, with or without parentheses, where only a leaf or parentheses may follow a NOT. */
  lemma {:induction false} GatherSide(s: string, scanned: seq<Token>, i: nat, r: nat, e: Expr, parenthesized: bool,
                                      c: Chain)
    returns (operands: seq<Expr>, ops: seq<OpAt>, lastNot: int)
    requires Parsable(s, LinkAll(scanned), i, r) && !HasError(e)
    requires Spelled(s, scanned, i, Side(e, parenthesized)) && i + |Side(e, parenthesized)| <= r
    requires |c.operands| == |c.ops| && !c.odd
    ensures |operands| == |ops| + 1 && Strip(Assoc(operands, ops)) == Strip(e)
    ensures forall o :: o in ops ==> !parenthesized && Pr(o) <= Looseness(e)
    ensures Gathers(s, LinkAll(scanned), i, i + |Side(e, parenthesized)|, r, c, operands, ops, lastNot)
    decreases e, 4
  {
    hide Assoc, Words, LinkAll, Spelled, Strip, Nested, WellFormed, Gathers, Looseness, Pr, Parsable;
    if parenthesized {
      var tree := GatherParens(s, scanned, i, r, e, c);
      AssocSingle(tree);
      operands, ops, lastNot := [tree], [], c.lastNot;
    } else {
      operands, ops, lastNot := GatherWords(s, scanned, i, r, e, c);
    }
  }

  lemma {:induction false} GatherWords(s: string, scanned: seq<Token>, i: nat, r: nat, e: Expr, c: Chain)
    returns (operands: seq<Expr>, ops: seq<OpAt>, lastNot: int)
    requires Parsable(s, LinkAll(scanned), i, r) && !HasError(e)
    requires Spelled(s, scanned, i, Words(e)) && i + |Words(e)| <= r
    requires |c.operands| == |c.ops| && !c.odd
    ensures |operands| == |ops| + 1 && Strip(Assoc(operands, ops)) == Strip(e)
    ensures forall o :: o in ops ==> Pr(o) <= Looseness(e)
    ensures Gathers(s, LinkAll(scanned), i, i + |Words(e)|, r, c, operands, ops, lastNot)
    decreases e, 1
  {
    hide *;
    if e.Binary? {
      operands, ops, lastNot := GatherBinary(s, scanned, i, r, e, c);
    } else if e.Not? {
      var tree;
      tree, lastNot := GatherNot(s, scanned, i, r, e, c);
      AssocSingle(tree);
      operands, ops := [tree], [];
    } else {
      OtherwiseLeaf(e);
      LeafWords(s, scanned, i, e);
      var tree := GatherLeaf(s, LinkAll(scanned), i, r, e, c);
      AssocSingle(tree);
      NotNegated(c.lastNot, tree);
      operands, ops, lastNot := [tree], [], c.lastNot;
    }
  }

  lemma NotNegated(lastNot: int, tree: Expr)
    ensures Negated(false, lastNot, tree) == tree
  {
  }

  lemma {:induction false} OtherwiseLeaf(e: Expr)
    requires !e.Binary? && !e.Not? && !HasError(e)
    ensures IsLeaf(e)
  {
  }

  lemma {:induction false} LeafWords(s: string, scanned: seq<Token>, i: nat, e: Expr)
    requires IsLeaf(e) && Spelled(s, scanned, i, Words(e))
    ensures |Words(e)| == 1 && i < |scanned| && Fits(s, LinkAll(scanned)[i], Words(e)[0])
  {
    hide CloseOf;
  }

  /** A negation: its NOT waits for the leaf or the parentheses that follow. */
  lemma {:induction false} GatherNot(s: string, scanned: seq<Token>, i: nat, r: nat, e: Expr, c: Chain)
    returns (tree: Expr, lastNot: int)
    requires Parsable(s, LinkAll(scanned), i, r) && !HasError(e) && e.Not?
    requires Spelled(s, scanned, i, Words(e)) && i + |Words(e)| <= r
    requires |c.operands| == |c.ops| && !c.odd
    ensures Strip(tree) == Strip(e)
    ensures Gathers(s, LinkAll(scanned), i, i + |Words(e)|, r, c, [tree], [], lastNot)
    decreases e, 0
  {
    hide *;
    NotWords(s, scanned, i, e);
    var tokens := LinkAll(scanned);
    lastNot := tokens[i].l;
    var c' := c.(odd := true, lastNot := lastNot);
    GatherNotToken(s, tokens, i, r, c);
    var inner;
    if IsLeaf(e.t) {
      LeafWords(s, scanned, i + 1, e.t);
      inner := GatherLeaf(s, tokens, i + 1, r, e.t, c');
    } else {
      inner := GatherParens(s, scanned, i + 1, r, e.t, c');
    }
    tree := Not(lastNot, inner);
    NegatedNot(lastNot, inner, e);
    GatherAfterNot(s, tokens, i, i + |Words(e)|, r, c, tree);
  }

  lemma {:induction false} NegatedNot(lastNot: int, inner: Expr, e: Expr)
    requires e.Not? && Strip(inner) == Strip(e.t)
    ensures Negated(true, lastNot, inner) == Not(lastNot, inner) && Strip(Not(lastNot, inner)) == Strip(e)
  {
  }

  lemma {:induction false} NotWords(s: string, scanned: seq<Token>, i: nat, e: Expr)
    requires e.Not? && !HasError(e) && Spelled(s, scanned, i, Words(e))
    ensures !HasError(e.t) && i < |scanned| && LinkAll(scanned)[i].kind == KNot
    ensures if IsLeaf(e.t) then |Words(e)| == 2 && Spelled(s, scanned, i + 1, Words(e.t))
            else |Words(e)| == |Words(e.t)| + 3 && Spelled(s, scanned, i + 1, [LOpen] + Words(e.t) + [LClose])
  {
    hide CloseOf, Fits;
    SpelledSplit(s, scanned, i, [LNot], Side(e.t, !IsLeaf(e.t)));
    assert Fits(s, scanned[i], LNot);
    assert IsLeaf(e.t) ==> |Words(e.t)| == 1 && Side(e.t, false) == Words(e.t);
    FitsKind(s, scanned[i], LNot);
  }

  lemma FitsKind(s: string, t: Token, x: Lexeme)
    requires Fits(s, t, x)
    ensures t.kind == KindOf(x)
  {
  }

  lemma GatherNotToken(s: string, tokens: seq<Token>, i: nat, r: nat, c: Chain)
    requires Parsable(s, tokens, i, r) && i < r && |c.operands| == |c.ops| && !c.odd && i < |tokens|
      && tokens[i].kind == KNot
    ensures Parsable(s, tokens, i + 1, r)
    ensures Collect(s, tokens, i, r, c) == Collect(s, tokens, i + 1, r, c.(odd := true, lastNot := tokens[i].l))
  {
    hide Assoc, Build, WellFormed;
  }

  lemma GatherAfterNot(s: string, tokens: seq<Token>, i: nat, j: nat, r: nat, c: Chain, tree: Expr)
    requires Parsable(s, tokens, i, r) && i < j <= r && i < |tokens| && tokens[i].kind == KNot && !c.odd
    requires |c.operands| == |c.ops|
    requires Parsable(s, tokens, i + 1, r)
    requires Gathers(s, tokens, i + 1, j, r, c.(odd := true, lastNot := tokens[i].l), [tree], [], tokens[i].l)
    ensures Gathers(s, tokens, i, j, r, c, [tree], [], tokens[i].l)
  {
    hide Collect, Parsable;
    GatherNotToken(s, tokens, i, r, c);
  }

  /** A binary expression: the operands of its sides are joined around its operator, which is the last
      of the loosest ones. */
  lemma {:induction false} GatherBinary(s: string, scanned: seq<Token>, i: nat, r: nat, e: Expr, c: Chain)
    returns (operands: seq<Expr>, ops: seq<OpAt>, lastNot: int)
    requires Parsable(s, LinkAll(scanned), i, r) && !HasError(e) && e.Binary?
    requires Spelled(s, scanned, i, Words(e)) && i + |Words(e)| <= r
    requires |c.operands| == |c.ops| && !c.odd
    ensures |operands| == |ops| + 1 && Strip(Assoc(operands, ops)) == Strip(e)
    ensures forall o :: o in ops ==> Pr(o) <= Looseness(e)
    ensures Gathers(s, LinkAll(scanned), i, i + |Words(e)|, r, c, operands, ops, lastNot)
    decreases e, 0
  {
    hide *;
    BinaryWords(s, scanned, i, e);
    var pl, pr := Looseness(e.l) > Priority(e.op), Looseness(e.r) >= Priority(e.op);
    var n := |Side(e.l, pl)|;
    var tokens := LinkAll(scanned);
    var a, o, last := GatherSide(s, scanned, i, r, e.l, pl, c);
    var c1 := Chain(c.operands + a, c.ops + o, false, last, c.err);
    GathersEnd(s, tokens, i, i + n, r, c, a, o, last);
    var op := OpAt(tokens[i + n].l, e.op);
    GatherOpToken(s, tokens, i + n, r, c1, op);
    var c2 := c1.(ops := c1.ops + [op]);
    var b, q, last' := GatherSide(s, scanned, i + n + 1, r, e.r, pr, c2);
    operands, ops, lastNot := a + b, o + [op] + q, last';
    JoinSides(e, a, o, op, b, q);
    GathersEnd(s, tokens, i + n + 1, i + |Words(e)|, r, c2, b, q, last');
    assert c2.operands + b == c.operands + operands && c2.ops + q == c.ops + ops;
    GathersMade(s, tokens, i, i + |Words(e)|, r, c, operands, ops, lastNot);
  }

  lemma {:induction false} BinaryWords(s: string, scanned: seq<Token>, i: nat, e: Expr)
    requires e.Binary? && !HasError(e) && Spelled(s, scanned, i, Words(e))
    ensures
      var left, right := Side(e.l, Looseness(e.l) > Priority(e.op)), Side(e.r, Looseness(e.r) >= Priority(e.op));
      && !HasError(e.l) && !HasError(e.r) && |Words(e)| == |left| + 1 + |right|
      && Spelled(s, scanned, i, left) && Spelled(s, scanned, i + |left| + 1, right)
      && i + |left| < |scanned| == |LinkAll(scanned)| && LinkAll(scanned)[i + |left|].kind == KOp(e.op)
  {
    hide CloseOf, Spelled, Side;
    SpelledBinary(s, scanned, i, Side(e.l, Looseness(e.l) > Priority(e.op)), e.op,
      Side(e.r, Looseness(e.r) >= Priority(e.op)));
  }

  lemma {:induction false} GathersEnd(s: string, tokens: seq<Token>, i: nat, j: nat, r: nat, c: Chain,
                                      operands: seq<Expr>, ops: seq<OpAt>, lastNot: int)
    requires Parsable(s, tokens, i, r) && Alternates(c) && i <= j <= r
      && Gathers(s, tokens, i, j, r, c, operands, ops, lastNot)
    ensures Parsable(s, tokens, j, r) && Alternates(Chain(c.operands + operands, c.ops + ops, false, lastNot, c.err))
    ensures Collect(s, tokens, i, r, c) == Collect(s, tokens, j, r,
      Chain(c.operands + operands, c.ops + ops, false, lastNot, c.err))
  {
  }

  lemma {:induction false} GathersMade(s: string, tokens: seq<Token>, i: nat, j: nat, r: nat, c: Chain,
                                       operands: seq<Expr>, ops: seq<OpAt>, lastNot: int)
    requires Parsable(s, tokens, i, r) && Alternates(c) && i <= j <= r && Parsable(s, tokens, j, r)
    requires Alternates(Chain(c.operands + operands, c.ops + ops, false, lastNot, c.err))
    requires Collect(s, tokens, i, r, c) == Collect(s, tokens, j, r,
      Chain(c.operands + operands, c.ops + ops, false, lastNot, c.err))
    ensures Gathers(s, tokens, i, j, r, c, operands, ops, lastNot)
  {
  }

  lemma GatherOpToken(s: string, tokens: seq<Token>, i: nat, r: nat, c: Chain, op: OpAt)
    requires Parsable(s, tokens, i, r) && i < r && |c.operands| == |c.ops| + 1 && i < |tokens|
    requires tokens[i].kind == KOp(op.op) && op.at == tokens[i].l
    ensures Parsable(s, tokens, i + 1, r)
    ensures Collect(s, tokens, i, r, c) == Collect(s, tokens, i + 1, r, c.(ops := c.ops + [op]))
  {
    hide Assoc, Build, WellFormed;
  }

  lemma {:induction false} JoinSides(e: Expr, a: seq<Expr>, o: seq<OpAt>, op: OpAt, b: seq<Expr>, q: seq<OpAt>)
    requires e.Binary? && |a| == |o| + 1 && |b| == |q| + 1 && op.op == e.op
    requires Strip(Assoc(a, o)) == Strip(e.l) && Strip(Assoc(b, q)) == Strip(e.r)
    requires forall x :: x in o ==> !(Looseness(e.l) > Priority(e.op)) && Pr(x) <= Looseness(e.l)
    requires forall x :: x in q ==> !(Looseness(e.r) >= Priority(e.op)) && Pr(x) <= Looseness(e.r)
    ensures Strip(Assoc(a + b, o + [op] + q)) == Strip(e)
    ensures forall x :: x in o + [op] + q ==> Pr(x) <= Looseness(e)
  {
    hide Assoc, Looseness, Pr, Priority, Strip;
    LoosenessIs(e, op);
    JoinedLooseness(o, op, q);
    JoinedSlices(a, o, op, b, q);
    AssocSplit(a + b, o + [op] + q, |o|);
    StripBinary(e, op.at, Assoc(a, o), Assoc(b, q));
  }

  lemma JoinedLooseness(o: seq<OpAt>, op: OpAt, q: seq<OpAt>)
    requires forall x :: x in o ==> Pr(x) <= Pr(op)
    requires forall x :: x in q ==> Pr(x) < Pr(op)
    ensures var ops := o + [op] + q;
      && ops[|o|] == op
      && (forall k :: 0 <= k < |ops| ==> Pr(ops[k]) <= Pr(op))
      && (forall k :: |o| < k < |ops| ==> Pr(ops[k]) < Pr(op))
      && (forall x :: x in ops ==> Pr(x) <= Pr(op))
  {
    hide Pr;
    var ops := o + [op] + q;
    forall k | 0 <= k < |ops| ensures Pr(ops[k]) <= Pr(op) && (k > |o| ==> Pr(ops[k]) < Pr(op)) {
      if k < |o| {
        assert ops[k] == o[k];
      } else if k > |o| {
        assert ops[k] == q[k - |o| - 1];
      }
    }
  }

  lemma LoosenessIs(e: Expr, op: OpAt)
    requires e.Binary? && op.op == e.op
    ensures Pr(op) == Priority(e.op) == Looseness(e)
  {
  }

  lemma JoinedSlices(a: seq<Expr>, o: seq<OpAt>, op: OpAt, b: seq<Expr>, q: seq<OpAt>)
    requires |a| == |o| + 1
    ensures
      var ops, m := o + [op] + q, |o|;
      (a + b)[..m + 1] == a && (a + b)[m + 1..] == b && ops[..m] == o && ops[m + 1..] == q && ops[m] == op
  {
  }

  lemma {:induction false} StripBinary(e: Expr, at: int, l: Expr, r: Expr)
    requires e.Binary? && Strip(l) == Strip(e.l) && Strip(r) == Strip(e.r)
    ensures Strip(Binary(at, e.op, l, r)) == Strip(e)
  {
  }
}
