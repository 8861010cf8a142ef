/** The tokenizer of the task filter. */
module FilterTokens {
  import opened FilterAst

  datatype Kind = KVariable | KNumber | KString | KOpen | KClose | KNot | KOp(op: BinOp)

  /** A token spans text `l..r`. `data` is the value of a number, the index of a variable or the
      matching token of an opening parenthesis. */
  datatype Token = Token(kind: Kind, l: nat, r: nat, data: int)

  const INT64_MIN := -0x8000_0000_0000_0000
  const INT64_MAX := 0x7fff_ffff_ffff_ffff

  /** An operator that is a prefix of another comes later. */
  const OPS: seq<(string, Kind)> := [
    ("!=", KOp(Ne)), ("!", KNot), ("&&", KOp(And)), ("<=", KOp(Le)), ("<", KOp(Ls)),
    ("==", KOp(Eq)), (">=", KOp(Ge)), (">", KOp(Gt)), ("||", KOp(Or)), ("~=", KOp(Like))]

  predicate IsSpace(c: char) {
    c == ' ' || ('\t' <= c <= '\r')
  }

  predicate IsDigit(c: char) {
    '0' <= c <= '9'
  }

  predicate IsNameStart(c: char) {
    'a' <= c <= 'z' || 'A' <= c <= 'Z' || c == '_'
  }

  predicate IsNamePart(c: char) {
    IsNameStart(c) || IsDigit(c)
  }

  predicate IsQuote(c: char) {
    c == '\"' || c == '\''
  }

  /** `word` stands at text index `i`. */
  predicate StandsAt(s: string, i: nat, word: string) {
    i + |word| <= |s| && s[i..i + |word|] == word
  }

  /** The first operator of the table, from entry `k` on, that stands at `i`. */
  function FindOp(s: string, i: nat, k: nat): (found: nat)
    requires k <= |OPS|
    ensures k <= found <= |OPS|
    ensures found < |OPS| ==> StandsAt(s, i, OPS[found].0)
    ensures forall j :: k <= j < found ==> !StandsAt(s, i, OPS[j].0)
    decreases |OPS| - k
  {
    if k == |OPS| || StandsAt(s, i, OPS[k].0) then k else FindOp(s, i, k + 1)
  }

  /** The index of the quote that closes the string opened at `open`, or the length of the text. */
  function StringEnd(s: string, open: nat, j: nat): (end: nat)
    requires open < j <= |s|
    ensures j <= end <= |s|
    decreases |s| - j
  {
    if j == |s| || (s[j] == s[open] && s[j - 1] != '\\') then j else StringEnd(s, open, j + 1)
  }

  function NameEnd(s: string, j: nat): (end: nat)
    requires j <= |s|
    ensures j <= end <= |s|
    decreases |s| - j
  {
    if j == |s| || !IsNamePart(s[j]) then j else NameEnd(s, j + 1)
  }

  function DigitsEnd(s: string, j: nat): (end: nat)
    requires j <= |s|
    ensures j <= end <= |s| && forall k :: j <= k < end ==> IsDigit(s[k])
    decreases |s| - j
  {
    if j == |s| || !IsDigit(s[j]) then j else DigitsEnd(s, j + 1)
  }

  function Decimal(digits: string): int {
    if digits == "" then 0 else Decimal(digits[..|digits| - 1]) * 10 + (digits[|digits| - 1] as int - '0' as int)
  }

  datatype Parsed = NotANumber | Number(value: int, end: nat)

  /** The library's integer reader: an optional minus, then digits, within 64 bits. */
  function FromChars(s: string, i: nat): (p: Parsed)
    requires i < |s|
    ensures p.Number? ==> i < p.end <= |s|
  {
    var start := if s[i] == '-' then i + 1 else i;
    var end := DigitsEnd(s, start);
    var magnitude := Decimal(s[start..end]);
    var value := if s[i] == '-' then -magnitude else magnitude;
    if start < end && INT64_MIN <= value <= INT64_MAX then Number(value, end) else NotANumber
  }

  /** What one iteration reads: where the next one starts, and at most one token and one error. */
  datatype Lexed = Lexed(next: nat, tokens: seq<Token>, err: seq<Diagnostic>)

  function LexAt(s: string, i: nat): (x: Lexed)
    requires i < |s|
    ensures i < x.next
  {
    if IsSpace(s[i]) then Lexed(i + 1, [], [])
    else if s[i] == '(' || s[i] == ')' then
      Lexed(i + 1, [Token(if s[i] == '(' then KOpen else KClose, i, i + 1, 0)], [])
    else
      var k := FindOp(s, i, 0);
      if k < |OPS| then LexOp(i, k)
      else if IsQuote(s[i]) then
        var j := StringEnd(s, i, i + 1);
        Lexed(j + 1, [Token(KString, i + 1, j, 0)], if j == |s| then [UnclosedString(i)] else [])
      else if s[i] == '-' || IsDigit(s[i]) then
        match FromChars(s, i)
        case Number(value, end) => Lexed(end, [Token(KNumber, i, end, value)], [])
        case NotANumber => Lexed(i + 1, [], [BadNumber(i)])
      else if IsNameStart(s[i]) then
        var j := NameEnd(s, i + 1);
        Lexed(j, [Token(KVariable, i, j, 0)], [])
      else Lexed(i + 1, [], [NoToken(i)])
  }

  function LexOp(i: nat, k: nat): (x: Lexed)
    requires k < |OPS|
    ensures i < x.next
  {
    assert forall j :: 0 <= j < |OPS| ==> |OPS[j].0| > 0;
    Lexed(i + |OPS[k].0|, [Token(OPS[k].1, i, i + |OPS[k].0|, 0)], [])
  }

  /** The whole scan from index `i`. */
  function Lex(s: string, i: nat): (seq<Token>, seq<Diagnostic>)
    decreases |s| - i
  {
    if i >= |s| then ([], [])
    else
      var x := LexAt(s, i);
      var rest := Lex(s, x.next);
      (x.tokens + rest.0, x.err + rest.1)
  }

  method ScanOp(s: string, i: nat) returns (k: nat)
    ensures k == FindOp(s, i, 0)
  {
    k := 0;
    while k < |OPS| && !StandsAt(s, i, OPS[k].0)
      invariant k <= |OPS| && FindOp(s, i, 0) == FindOp(s, i, k)
    {
      k := k + 1;
    }
  }

  method ScanString(s: string, i: nat) returns (j: nat)
    requires i < |s|
    ensures j == StringEnd(s, i, i + 1)
  {
    j := i + 1;
    while j < |s| && !(s[j] == s[i] && s[j - 1] != '\\')
      invariant i < j <= |s| && StringEnd(s, i, i + 1) == StringEnd(s, i, j)
    {
      j := j + 1;
    }
  }

  method ScanName(s: string, i: nat) returns (j: nat)
    requires i < |s|
    ensures j == NameEnd(s, i + 1)
  {
    j := i + 1;
    while j < |s| && IsNamePart(s[j])
      invariant i < j <= |s| && NameEnd(s, i + 1) == NameEnd(s, j)
    {
      j := j + 1;
    }
  }

  /** The body of the scanning loop. */
  method ScanToken(s: string, i: nat, tokens: seq<Token>, err: seq<Diagnostic>)
    returns (next: nat, tokens': seq<Token>, err': seq<Diagnostic>)
    requires i < |s|
    ensures next == LexAt(s, i).next && tokens' == tokens + LexAt(s, i).tokens && err' == err + LexAt(s, i).err
  {
    hide FindOp, StringEnd, NameEnd, FromChars, IsSpace, IsDigit, IsQuote, IsNameStart;
    next, tokens', err' := i + 1, tokens, err;
    if IsSpace(s[i]) {
      return;
    }
    if s[i] == '(' || s[i] == ')' {
      tokens' := tokens + [Token(if s[i] == '(' then KOpen else KClose, i, i + 1, 0)];
      return;
    }
    var k := ScanOp(s, i);
    if k < |OPS| {
      tokens' := tokens + [Token(OPS[k].1, i, i + |OPS[k].0|, 0)];
      next := i + |OPS[k].0|;
    } else if IsQuote(s[i]) {
      var j := ScanString(s, i);
      if j == |s| {
        err' := err + [UnclosedString(i)];
      }
      tokens' := tokens + [Token(KString, i + 1, j, 0)];
      next := j + 1;
    } else if s[i] == '-' || IsDigit(s[i]) {
      match FromChars(s, i) {
        case Number(value, end) =>
          tokens' := tokens + [Token(KNumber, i, end, value)];
          next := end;
        case NotANumber =>
          err' := err + [BadNumber(i)];
      }
    } else if IsNameStart(s[i]) {
      var j := ScanName(s, i);
      tokens' := tokens + [Token(KVariable, i, j, 0)];
      next := j;
    } else {
      err' := err + [NoToken(i)];
    }
  }

  method Tokenize(s: string) returns (tokens: seq<Token>, err: seq<Diagnostic>)
    ensures tokens == Lex(s, 0).0 && err == Lex(s, 0).1
  {
    hide LexAt;
    tokens, err := [], [];
    var i := 0;
    while i < |s|
      invariant Lex(s, 0).0 == tokens + Lex(s, i).0
      invariant Lex(s, 0).1 == err + Lex(s, i).1
      decreases |s| - i
    {
      i, tokens, err := ScanToken(s, i, tokens, err);
    }
  }
}
