/** The scan that escapes every bracket which does not belong to an allowed tag. */
module TagScanner {

  const ALLOWED_TAGS: seq<string> :=
    ["a", "b", "i", "s", "u", "div", "img", "font", "sub", "sup", "br", "formula", "pre"]

  predicate IsBracket(c: char) {
    c == '<' || c == '>'
  }

  predicate NoBrackets(data: string, i: nat, j: nat)
    requires j <= |data|
  {
    forall k :: i <= k < j ==> !IsBracket(data[k])
  }

  predicate IsCloseTag(tag: string) {
    tag != "/img" && exists k :: 0 <= k < |ALLOWED_TAGS| && tag == "/" + ALLOWED_TAGS[k]
  }

  predicate IsOpenTag(tag: string) {
    exists k :: 0 <= k < |ALLOWED_TAGS| && (ALLOWED_TAGS[k] + " " <= tag || tag == ALLOWED_TAGS[k])
  }

  predicate Allowed(tag: string) {
    IsCloseTag(tag) || IsOpenTag(tag)
  }

  // ---------- which brackets stay ----------

  /** The brackets at `i` and `j` are neighbours and enclose an allowed tag. */
  predicate IsTag(data: string, i: nat, j: nat) {
    && i < j < |data| && data[i] == '<' && data[j] == '>'
    && NoBrackets(data, i + 1, j) && Allowed(data[i + 1..j])
  }

  /** A bracket stays iff its neighbour closes or opens an allowed tag with it. */
  predicate Stays(data: string, k: nat)
    requires k < |data|
  {
    || (exists j :: k < j < |data| && IsTag(data, k, j))
    || (exists i :: 0 <= i < k && IsTag(data, i, k))
  }

  function Escape(c: char): string
    requires IsBracket(c)
  {
    if c == '<' then "&lt;" else "&gt;"
  }

  function Shown(data: string, k: nat): string
    requires k < |data|
  {
    if IsBracket(data[k]) && !Stays(data, k) then Escape(data[k]) else [data[k]]
  }

  /** What becomes of the characters from `i` to `j`, each judged on its own. */
  function Range(data: string, i: nat, j: nat): string
    requires i <= j <= |data|
    decreases j
  {
    if i == j then "" else Range(data, i, j - 1) + Shown(data, j - 1)
  }

  function Sanitized(data: string): string {
    Range(data, 0, |data|)
  }

  lemma {:induction false} RangeSplit(data: string, i: nat, k: nat, j: nat)
    requires i <= k <= j <= |data|
    ensures Range(data, i, j) == Range(data, i, k) + Range(data, k, j)
    decreases j
  {
    if k < j {
      RangeSplit(data, i, k, j - 1);
    }
  }

  lemma {:induction false} RangePlain(data: string, i: nat, j: nat)
    requires i <= j <= |data| && NoBrackets(data, i, j)
    ensures Range(data, i, j) == data[i..j]
    decreases j
  {
    if i < j {
      RangePlain(data, i, j - 1);
      assert data[i..j] == data[i..j - 1] + [data[j - 1]];
    }
  }

  // ---------- the loop ----------

  method IsAllowed(tag: string) returns (allowed: bool)
    ensures allowed == Allowed(tag)
  {
    if IsCloseTag(tag) {
      return true;
    }
    allowed := false;
    for k := 0 to |ALLOWED_TAGS|
      invariant allowed == exists m :: 0 <= m < k && (ALLOWED_TAGS[m] + " " <= tag || tag == ALLOWED_TAGS[m])
    {
      if ALLOWED_TAGS[k] + " " <= tag || tag == ALLOWED_TAGS[k] {
        return true;
      }
    }
  }

  /** The nearest bracket before `i`, if any, is a `>`, so a `>` at `i` opens nothing. */
  predicate Closed(data: string, i: nat)
    requires i <= |data|
  {
    forall k :: 0 <= k < i && data[k] == '<' ==> exists j :: k < j < i && data[j] == '>'
  }

  method Scan(data: string) returns (sanitized: string)
    ensures sanitized == Sanitized(data)
  {
    hide Allowed, Stays, Shown, Range, NoBrackets, Closed;
    var lastOpen := -1;
    var tagBuffer := "";
    sanitized := "";
    Start(data);
    for i := 0 to |data| + 1
      invariant lastOpen == -1 ==> i <= |data| && tagBuffer == "" && Closed(data, i) && sanitized == Range(data, 0, i)
      invariant lastOpen != -1 ==> 0 <= lastOpen < i
      invariant lastOpen != -1 && i <= |data| ==>
        && data[lastOpen] == '<' && tagBuffer == data[lastOpen + 1..i] && NoBrackets(data, lastOpen + 1, i)
        && sanitized == Range(data, 0, lastOpen)
      invariant i == |data| + 1 ==> sanitized == Sanitized(data)
    {
      var c := if i == |data| then '<' else data[i];
      if c == '<' {
        var tag := tagBuffer;
        if lastOpen != -1 {
          OpenAlone(data, lastOpen, i);
          sanitized := sanitized + "&lt;";
          sanitized := sanitized + tag;
          tagBuffer := "";
        }
        NothingYet(data, i);
        lastOpen := i;
      } else if c == '>' {
        var tag := tagBuffer;
        if lastOpen != -1 {
          TagOrNot(data, lastOpen, i);
          var allowed := IsAllowed(tag);
          if allowed {
            sanitized := sanitized + ("<" + tag + ">");
          } else {
            sanitized := sanitized + ("&lt;" + tag + "&gt;");
          }
          tagBuffer := "";
        } else {
          CloseAlone(data, i);
          sanitized := sanitized + "&gt;";
        }
        lastOpen := -1;
      } else {
        Plain(data, i);
        if lastOpen == -1 {
          sanitized := sanitized + [c];
        } else {
          tagBuffer := tagBuffer + [c];
          assert tagBuffer == data[lastOpen + 1..i + 1];
        }
      }
    }
  }

  lemma {:induction false} Start(data: string)
    ensures Closed(data, 0) && Range(data, 0, 0) == ""
  {
  }

  lemma NothingYet(data: string, i: nat)
    requires i <= |data|
    ensures i < |data| ==> NoBrackets(data, i + 1, i + 1)
  {
  }

  lemma Plain(data: string, i: nat)
    requires i < |data| && !IsBracket(data[i])
    ensures Range(data, 0, i + 1) == Range(data, 0, i) + [data[i]]
    ensures Closed(data, i) ==> Closed(data, i + 1)
    ensures forall open: nat :: NoBrackets(data, open, i) ==> NoBrackets(data, open, i + 1)
  {
    hide Stays;
    if Closed(data, i) {
      forall k | 0 <= k < i + 1 && data[k] == '<' ensures exists j :: k < j < i + 1 && data[j] == '>' {
        var j :| k < j < i && data[j] == '>';
      }
    }
  }

  /** Only the next bracket can close what a `<` opens. */
  lemma StaysOpen(data: string, open: nat, i: nat)
    requires open < i <= |data| && data[open] == '<' && NoBrackets(data, open + 1, i)
      && (i < |data| ==> IsBracket(data[i]))
    ensures Stays(data, open) <==> i < |data| && IsTag(data, open, i)
  {
    hide Allowed;
  }

  /** Only the nearest bracket before can open what a `>` closes. */
  lemma StaysClose(data: string, open: nat, i: nat)
    requires open < i < |data| && data[open] == '<' && NoBrackets(data, open + 1, i) && data[i] == '>'
    ensures Stays(data, i) <==> IsTag(data, open, i)
  {
    hide Allowed;
  }

  /** A `<` whose next bracket is another `<`, or that has none, is escaped. */
  lemma {:induction false} OpenAlone(data: string, open: nat, i: nat)
    requires open < i <= |data| && data[open] == '<' && NoBrackets(data, open + 1, i) && (i < |data| ==> data[i] == '<')
    ensures Range(data, 0, i) == Range(data, 0, open) + "&lt;" + data[open + 1..i]
  {
    hide Allowed, Stays, NoBrackets, Range;
    StaysOpen(data, open, i);
    assert Shown(data, open) == "&lt;";
    hide Shown, IsTag;
    RangeSplit(data, 0, open, i);
    RangeSplit(data, open, open + 1, i);
    RangePlain(data, open + 1, i);
    RangeOne(data, open);
  }

  lemma {:induction false} RangeOne(data: string, k: nat)
    requires k < |data|
    ensures Range(data, k, k + 1) == Shown(data, k)
  {
    hide Stays;
    assert Range(data, k, k) == "";
  }

  /** Neighbouring `<` and `>` share their fate. */
  lemma TagOrNot(data: string, open: nat, i: nat)
    requires open < i < |data| && data[open] == '<' && NoBrackets(data, open + 1, i) && data[i] == '>'
    ensures var tag := data[open + 1..i];
            Range(data, 0, i + 1) == Range(data, 0, open) + if Allowed(tag) then "<" + tag + ">"
              else "&lt;" + tag + "&gt;"
    ensures Closed(data, i + 1)
  {
    hide Allowed, Stays, NoBrackets, Range;
    StaysOpen(data, open, i);
    StaysClose(data, open, i);
    RangeSplit(data, 0, open, i + 1);
    RangeSplit(data, open, open + 1, i + 1);
    RangeSplit(data, open + 1, i, i + 1);
    RangePlain(data, open + 1, i);
    RangeOne(data, open);
    RangeOne(data, i);
  }

  /** A `>` with no open `<` before it is escaped. */
  lemma CloseAlone(data: string, i: nat)
    requires i < |data| && data[i] == '>' && Closed(data, i)
    ensures Range(data, 0, i + 1) == Range(data, 0, i) + "&gt;" && Closed(data, i + 1)
  {
    hide Allowed;
    assert !Stays(data, i) by {
      forall k | 0 <= k < i ensures !IsTag(data, k, i) {
        if data[k] == '<' {
          var j :| k < j < i && data[j] == '>';
          assert IsBracket(data[j]);
        }
      }
    }
  }

  // ---------- what the output is ----------

  /** A tag that stays appears in the output as it is. */
  lemma {:induction false} TagShown(data: string, i: nat, j: nat)
    requires IsTag(data, i, j)
    ensures Range(data, i, j + 1) == data[i..j + 1]
  {
    hide Allowed, NoBrackets, Range;
    assert Stays(data, i) && Stays(data, j);
    hide Stays;
    assert data[i..j + 1] == [data[i]] + data[i + 1..j] + [data[j]];
    RangeSplit(data, i, i + 1, j + 1);
    RangeSplit(data, i + 1, j, j + 1);
    RangeOne(data, i);
    RangeOne(data, j);
    RangePlain(data, i + 1, j);
  }

  /** So it is a tag of the output as well. */
  lemma {:induction false} TagInOutput(data: string, i: nat, j: nat)
    requires IsTag(data, i, j)
    ensures var p := |Range(data, 0, i)|; IsTag(Sanitized(data), p, p + j - i)
  {
    hide Allowed, Range;
    var out, p := Sanitized(data), |Range(data, 0, i)|;
    TagShown(data, i, j);
    RangeSplit(data, 0, i, |data|);
    RangeSplit(data, i, j + 1, |data|);
    assert out[p..p + j + 1 - i] == data[i..j + 1];
    forall k | i <= k <= j ensures out[p + k - i] == data[k] {
      assert out[p..p + j + 1 - i][k - i] == data[i..j + 1][k - i];
    }
    assert NoBrackets(out, p + 1, p + j - i) by {
      forall q | p + 1 <= q < p + j - i ensures !IsBracket(out[q]) {
        assert out[q] == data[q - p + i];
      }
    }
    assert out[p + 1..p + j - i] == data[i + 1..j] by {
      assert out[p + 1..p + j - i] == out[p..p + j + 1 - i][1..j - i];
      assert data[i + 1..j] == data[i..j + 1][1..j - i];
    }
  }

  /** Every bracket of the output is a bracket of the input that stays. */
  lemma {:induction false} BracketFrom(data: string, n: nat, p: nat) returns (k: nat)
    requires n <= |data| && p < |Range(data, 0, n)| && IsBracket(Range(data, 0, n)[p])
    ensures k < n && IsBracket(data[k]) && Stays(data, k) && |Range(data, 0, k)| == p
  {
    hide Stays;
    if p < |Range(data, 0, n - 1)| {
      k := BracketFrom(data, n - 1, p);
    } else {
      k := n - 1;
      assert IsBracket(Shown(data, k)[p - |Range(data, 0, k)|]);
    }
  }

  /** In the output, every `<` opens and every `>` closes an allowed tag without brackets inside. */
  lemma OutputTagged(data: string)
    ensures var out := Sanitized(data);
            forall p :: 0 <= p < |out| && IsBracket(out[p]) ==> Stays(out, p)
  {
    var out := Sanitized(data);
    forall p | 0 <= p < |out| && IsBracket(out[p]) ensures Stays(out, p) {
      var k := BracketFrom(data, |data|, p);
      BracketStays(data, k);
    }
  }

  lemma {:induction false} BracketStays(data: string, k: nat)
    requires k < |data| && Stays(data, k)
    ensures |Range(data, 0, k)| < |Sanitized(data)| && Stays(Sanitized(data), |Range(data, 0, k)|)
  {
    hide Allowed, Range;
    if j :| k < j < |data| && IsTag(data, k, j) {
      TagInOutput(data, k, j);
    } else {
      var i :| 0 <= i < k && IsTag(data, i, k);
      TagInOutput(data, i, k);
      TagShown(data, i, k);
      RangeSplit(data, 0, i, k);
      RangeSplit(data, i, k, k + 1);
      RangeOne(data, k);
      hide IsTag, Stays;
      assert |Range(data, i, k)| == k - i;
    }
  }

  lemma {:induction false} NothingEscaped(data: string, n: nat)
    requires n <= |data| && forall k :: 0 <= k < n && IsBracket(data[k]) ==> Stays(data, k)
    ensures Range(data, 0, n) == data[..n]
  {
    if n > 0 {
      NothingEscaped(data, n - 1);
      assert data[..n] == data[..n - 1] + [data[n - 1]];
    }
  }

  /** A second scan changes nothing. */
  lemma ScanTwice(data: string)
    ensures Sanitized(Sanitized(data)) == Sanitized(data)
  {
    var out := Sanitized(data);
    OutputTagged(data);
    NothingEscaped(out, |out|);
    assert out[..|out|] == out;
  }

  /** Takes back the escapes at the marked characters. */
  function Undo(out: string, marks: seq<bool>): string {
    if marks == [] || out == [] then ""
    else if !marks[0] then [out[0]] + Undo(out[1..], marks[1..])
    else if |out| < 4 then ""
    else (if out[..4] == "&lt;" then "<" else if out[..4] == "&gt;" then ">" else "") + Undo(out[4..], marks[1..])
  }

  function Marks(data: string, i: nat): (marks: seq<bool>)
    requires i <= |data|
    ensures |marks| == |data| - i
    decreases |data| - i
  {
    if i == |data| then [] else [IsBracket(data[i]) && !Stays(data, i)] + Marks(data, i + 1)
  }

  /** Only brackets are escaped, and taking the escapes back gives the input. */
  lemma {:induction false} UndoScan(data: string, i: nat)
    requires i <= |data|
    ensures Undo(Range(data, i, |data|), Marks(data, i)) == data[i..]
    decreases |data| - i
  {
    hide Stays, Range, Undo;
    if i == |data| {
      UndoNone(Range(data, i, i));
    } else {
      var rest := Range(data, i + 1, |data|);
      RangeSplit(data, i, i + 1, |data|);
      RangeOne(data, i);
      UndoScan(data, i + 1);
      UndoStep(data[i], IsBracket(data[i]) && !Stays(data, i), rest, Marks(data, i + 1));
      assert data[i..] == [data[i]] + data[i + 1..];
    }
  }

  lemma {:induction false} UndoNone(out: string)
    ensures Undo(out, []) == ""
  {
  }

  lemma {:induction false} UndoStep(c: char, escaped: bool, rest: string, marks: seq<bool>)
    requires escaped ==> IsBracket(c)
    ensures Undo((if escaped then Escape(c) else [c]) + rest, [escaped] + marks) == [c] + Undo(rest, marks)
  {
    var shown := if escaped then Escape(c) else [c];
    var out := shown + rest;
    assert out[|shown|..] == rest && ([escaped] + marks)[1..] == marks;
    assert out[0] == shown[0] && (escaped ==> out[1] == shown[1]);
  }

  // ---------- which tags are allowed ----------

  /** The length of the part before the first space. */
  function NameLength(tag: string): (n: nat)
    ensures n <= |tag| && (n < |tag| ==> tag[n] == ' ') && forall k :: 0 <= k < n ==> tag[k] != ' '
  {
    if tag == "" || tag[0] == ' ' then 0 else 1 + NameLength(tag[1..])
  }

  predicate Listed(name: string) {
    name in {"a", "b", "i", "s", "u", "div", "img", "font", "sub", "sup", "br", "formula", "pre"}
  }

  /** An opening tag is judged by what stands before its first space, a closing one as a whole. */
  predicate Permitted(tag: string) {
    if tag != "" && tag[0] == '/' then tag != "/img" && Listed(tag[1..]) else Listed(tag[..NameLength(tag)])
  }

  lemma ListedIff(name: string)
    ensures Listed(name) <==> exists k :: 0 <= k < |ALLOWED_TAGS| && ALLOWED_TAGS[k] == name
    ensures Listed(name) ==> name != "" && name[0] != '/' && forall k :: 0 <= k < |name| ==> name[k] != ' '
  {
    var tags := ALLOWED_TAGS;
    assert tags[0] == "a" && tags[1] == "b" && tags[2] == "i" && tags[3] == "s" && tags[4] == "u" && tags[5] == "div";
    assert tags[6] == "img" && tags[7] == "font" && tags[8] == "sub" && tags[9] == "sup" && tags[10] == "br";
    assert tags[11] == "formula" && tags[12] == "pre";
  }

  lemma {:induction false} NameBefore(tag: string, name: string)
    requires forall k :: 0 <= k < |name| ==> name[k] != ' '
    ensures name + " " <= tag || tag == name <==> tag[..NameLength(tag)] == name
  {
    var n := NameLength(tag);
    if name + " " <= tag {
      assert tag[|name|] == (name + " ")[|name|] == ' ';
      assert forall k :: 0 <= k < |name| ==> tag[k] == (name + " ")[k] == name[k];
      assert n == |name|;
    }
    if tag[..n] == name && n < |tag| {
      assert tag[..n + 1] == name + " ";
    }
  }

  /** The thirteen names decide which tags are allowed. */
  lemma AllowedIff(tag: string)
    ensures Allowed(tag) <==> Permitted(tag)
  {
    if tag != "" && tag[0] == '/' {
      ListedIff(tag[1..]);
      SlashOpensNothing(tag);
      assert tag == "/" + tag[1..];
      if IsCloseTag(tag) {
        var k :| 0 <= k < |ALLOWED_TAGS| && tag == "/" + ALLOWED_TAGS[k];
        assert tag[1..] == ALLOWED_TAGS[k];
      }
    } else {
      assert !IsCloseTag(tag);
      var name := tag[..NameLength(tag)];
      ListedIff(name);
      forall k | 0 <= k < |ALLOWED_TAGS|
        ensures ALLOWED_TAGS[k] + " " <= tag || tag == ALLOWED_TAGS[k] <==> ALLOWED_TAGS[k] == name
      {
        ListedIff(ALLOWED_TAGS[k]);
        NameBefore(tag, ALLOWED_TAGS[k]);
      }
    }
  }

  lemma SlashOpensNothing(tag: string)
    requires tag != "" && tag[0] == '/'
    ensures !IsOpenTag(tag)
  {
    forall k | 0 <= k < |ALLOWED_TAGS| ensures !(ALLOWED_TAGS[k] + " " <= tag || tag == ALLOWED_TAGS[k]) {
      ListedIff(ALLOWED_TAGS[k]);
      assert (ALLOWED_TAGS[k] + " ")[0] == ALLOWED_TAGS[k][0];
    }
  }

  /** A listed name at `p`, followed by a space or a `>`, or a slash, a listed name other than img and a `>`. */
  predicate NameAt(out: string, p: nat, name: string) {
    && Listed(name)
    && ((p + |name| < |out| && out[p..p + |name|] == name && out[p + |name|] in {' ', '>'})
        || (name != "img" && p + 1 + |name| < |out| && out[p] == '/' && out[p + 1..p + 1 + |name|] == name
            && out[p + 1 + |name|] == '>'))
  }

  ghost predicate Named(out: string, p: nat) {
    exists name :: NameAt(out, p, name)
  }

  /** Every `<` of the output is followed by one of the names. */
  lemma OutputNames(data: string)
    ensures var out := Sanitized(data);
            forall p :: 0 <= p < |out| && out[p] == '<' ==> Named(out, p + 1)
  {
    var out := Sanitized(data);
    OutputTagged(data);
    hide Sanitized;
    forall p | 0 <= p < |out| && out[p] == '<' ensures Named(out, p + 1) {
      assert Stays(out, p);
      if j :| p < j < |out| && IsTag(out, p, j) {
        TagName(out, p, j);
      }
    }
  }

  lemma TagName(out: string, p: nat, j: nat)
    requires IsTag(out, p, j)
    ensures Named(out, p + 1)
  {
    hide Allowed, Listed, Named, NoBrackets;
    var tag := out[p + 1..j];
    AllowedIff(tag);
    if tag != "" && tag[0] == '/' {
      SlashName(out, p + 1, tag);
    } else {
      PlainName(out, p + 1, tag);
    }
  }

  lemma SlashName(out: string, p: nat, tag: string)
    requires p + |tag| < |out| && out[p..p + |tag|] == tag && out[p + |tag|] == '>'
    requires Permitted(tag) && tag != "" && tag[0] == '/'
    ensures Named(out, p)
  {
    hide Listed;
    var name := tag[1..];
    assert tag == "/" + name && out[p] == tag[0];
    assert out[p + 1..p + 1 + |name|] == name;
    assert NameAt(out, p, name);
  }

  lemma PlainName(out: string, p: nat, tag: string)
    requires p + |tag| < |out| && out[p..p + |tag|] == tag && out[p + |tag|] == '>'
    requires Permitted(tag) && !(tag != "" && tag[0] == '/')
    ensures Named(out, p)
  {
    hide Listed;
    var name := tag[..NameLength(tag)];
    assert out[p..p + |name|] == name;
    assert |name| < |tag| ==> out[p + |name|] == tag[|name|];
    assert NameAt(out, p, name);
  }

  // ---------- the output, piece by piece ----------

  /** A text up to a pair of neighbouring brackets, the pair, and the text behind it are judged apart. */
  lemma ScanParts(before: string, tag: string, behind: string)
    requires NoBrackets(tag, 0, |tag|)
    ensures Sanitized(before + "<" + tag + ">" + behind) ==
      Sanitized(before) + (if Permitted(tag) then "<" + tag + ">" else "&lt;" + tag + "&gt;") + Sanitized(behind)
  {
    hide *;
    var data, n := before + "<" + tag + ">" + behind, |before|;
    var i := n + 1 + |tag|;
    PairAt(before, tag, behind);
    AllowedIff(tag);
    TagOrNot(data, n, i);
    SameBeforeOpen(data, n);
    SameBehindClose(data, i + 1);
    SanitizedIs(data);
    RangeSplit(data, 0, i + 1, |data|);
  }

  lemma PairAt(before: string, tag: string, behind: string)
    requires NoBrackets(tag, 0, |tag|)
    ensures var data, n, i := before + "<" + tag + ">" + behind, |before|, |before| + 1 + |tag|;
            && |data| == i + 1 + |behind| && data[n] == '<' && data[i] == '>' && data[n + 1..i] == tag
            && NoBrackets(data, n + 1, i) && data[..n] == before && data[i + 1..] == behind
  {
    hide IsBracket;
    var data, n := before + "<" + tag + ">" + behind, |before|;
    var i := n + 1 + |tag|;
    assert data[n + 1..i] == tag;
    forall k | n + 1 <= k < i ensures !IsBracket(data[k]) {
      assert data[k] == tag[k - n - 1];
    }
  }

  lemma {:induction false} SanitizedIs(data: string)
    ensures Sanitized(data) == Range(data, 0, |data|)
  {
  }

  /** What stands before a `<` does not depend on it. */
  lemma {:induction false} SameBeforeOpen(data: string, n: nat)
    requires n < |data| && data[n] == '<'
    ensures Range(data, 0, n) == Sanitized(data[..n])
  {
    hide *;
    var front := data[..n];
    forall k | 0 <= k < n ensures data[k] == front[k] && (Stays(data, k) <==> Stays(front, k)) {
      StaysBefore(data, n, k);
    }
    RangeSame(data, front, 0, n, 0);
    SanitizedIs(front);
  }

  lemma StaysBefore(data: string, n: nat, k: nat)
    requires k < n < |data| && data[n] == '<'
    ensures Stays(data, k) <==> Stays(data[..n], k)
  {
    hide Allowed;
    var front := data[..n];
    forall i, j | 0 <= i < j < |data| && i < n ensures IsTag(data, i, j) <==> j < n && IsTag(front, i, j) {
      if j < n {
        assert data[i + 1..j] == front[i + 1..j];
      } else if j > n {
        assert IsBracket(data[n]);
      }
    }
  }

  /** Nor does what stands behind a `>`. */
  lemma {:induction false} SameBehindClose(data: string, n: nat)
    requires 0 < n <= |data| && data[n - 1] == '>'
    ensures Range(data, n, |data|) == Sanitized(data[n..])
  {
    hide *;
    var rest := data[n..];
    forall m | n <= m < |data| ensures data[m] == rest[m - n] && (Stays(data, m) <==> Stays(rest, m - n)) {
      StaysBehind(data, n, m - n);
    }
    RangeSame(data, rest, n, |data|, n);
    SanitizedIs(rest);
  }

  lemma StaysBehind(data: string, n: nat, k: nat)
    requires 0 < n <= |data| && data[n - 1] == '>' && n + k < |data|
    ensures Stays(data, n + k) <==> Stays(data[n..], k)
  {
    hide Allowed;
    var rest := data[n..];
    forall i, j | 0 <= i < j < |rest| ensures IsTag(data, n + i, n + j) <==> IsTag(rest, i, j) {
      assert data[n + i + 1..n + j] == rest[i + 1..j];
      assert NoBrackets(data, n + i + 1, n + j) <==> NoBrackets(rest, i + 1, j) by {
        SameBrackets(data, n, i + 1, j);
      }
    }
    hide IsTag;
    var m := n + k;
    if j :| m < j < |data| && IsTag(data, m, j) {
      assert IsTag(rest, k, j - n);
    } else if i :| 0 <= i < m && IsTag(data, i, m) {
      NotAcross(data, n, i, m);
      assert IsTag(rest, i - n, k);
    }
  }

  lemma SameBrackets(data: string, n: nat, i: nat, j: nat)
    requires n + j <= |data|
    ensures NoBrackets(data, n + i, n + j) <==> NoBrackets(data[n..], i, j)
  {
    if NoBrackets(data[n..], i, j) {
      forall k | n + i <= k < n + j ensures !IsBracket(data[k]) {
        assert data[k] == data[n..][k - n];
      }
    }
    if NoBrackets(data, n + i, n + j) {
      forall k | i <= k < j ensures !IsBracket(data[n..][k]) {
        assert data[n + k] == data[n..][k];
      }
    }
  }

  lemma NotAcross(data: string, n: nat, i: nat, j: nat)
    requires 0 < n <= |data| && data[n - 1] == '>' && n <= j && IsTag(data, i, j)
    ensures n <= i
  {
    hide Allowed;
    assert IsBracket(data[n - 1]);
  }

  lemma {:induction false} RangeSame(a: string, b: string, i: nat, j: nat, shift: nat)
    requires shift <= i <= j <= |a| && j - shift <= |b|
    requires forall k :: i <= k < j ==> a[k] == b[k - shift] && (Stays(a, k) <==> Stays(b, k - shift))
    ensures Range(a, i, j) == Range(b, i - shift, j - shift)
    decreases j
  {
    hide Stays;
    if i < j {
      RangeSame(a, b, i, j - 1, shift);
    }
  }

  /** No `<` stands before a `>`. */
  predicate Apart(data: string) {
    forall i, j :: 0 <= i < j < |data| && data[i] == '<' ==> data[j] != '>'
  }

  function EscapeAll(data: string): string {
    if data == "" then ""
    else (if data[0] == '<' then "&lt;" else if data[0] == '>' then "&gt;" else [data[0]]) + EscapeAll(data[1..])
  }

  /** Without a pair of brackets every bracket is escaped. */
  lemma {:induction false} ScanApart(data: string)
    requires Apart(data)
    ensures Sanitized(data) == EscapeAll(data)
  {
    AllEscaped(data, 0);
    assert data[0..] == data;
  }

  lemma {:induction false} AllEscaped(data: string, i: nat)
    requires i <= |data| && Apart(data)
    ensures Range(data, i, |data|) == EscapeAll(data[i..])
    decreases |data| - i
  {
    if i < |data| {
      assert !Stays(data, i) by {
        hide Allowed;
      }
      hide Stays;
      assert data[i..][1..] == data[i + 1..] && data[i..][0] == data[i];
      RangeSplit(data, i, i + 1, |data|);
      RangeOne(data, i);
      AllEscaped(data, i + 1);
    }
  }

  /** A `<` before a `>` has a pair of neighbouring brackets between them, so the text can be cut there. */
  lemma CutAtPair(data: string) returns (before: string, tag: string, behind: string)
    requires !Apart(data)
    ensures data == before + "<" + tag + ">" + behind && NoBrackets(tag, 0, |tag|)
  {
    var i, j :| 0 <= i < j < |data| && data[i] == '<' && data[j] == '>';
    while !NoBrackets(data, i + 1, j)
      invariant 0 <= i < j < |data| && data[i] == '<' && data[j] == '>'
      decreases j - i
    {
      var k :| i + 1 <= k < j && IsBracket(data[k]);
      if data[k] == '<' {
        i := k;
      } else {
        j := k;
      }
    }
    before, tag, behind := data[..i], data[i + 1..j], data[j + 1..];
  }
}
