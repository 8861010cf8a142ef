/** Resolution of variable names and matching of parentheses. */
module FilterParens {
  import opened FilterAst
  import opened FilterTokens
  import opened FilterParser

  // ---------- parentheses ----------

  /** The first closing parenthesis from `j` on that `d` opening ones do not use up, or the end. */
  function CloseOf(tokens: seq<Token>, j: nat, d: nat): (c: nat)
    requires j <= |tokens|
    ensures j <= c <= |tokens| && (c < |tokens| ==> tokens[c].kind == KClose)
    decreases |tokens| - j
  {
    if j == |tokens| then j
    else if tokens[j].kind == KOpen then CloseOf(tokens, j + 1, d + 1)
    else if tokens[j].kind != KClose then CloseOf(tokens, j + 1, d)
    else if d == 0 then j
    else CloseOf(tokens, j + 1, d - 1)
  }

  function LinkToken(tokens: seq<Token>, k: nat): (t: Token)
    requires k < |tokens|
  {
    if tokens[k].kind == KOpen && CloseOf(tokens, k + 1, 0) < |tokens| then
      tokens[k].(data := CloseOf(tokens, k + 1, 0))
    else tokens[k]
  }

  /** Every matched opening parenthesis is linked to its closing one. */
  function LinkAll(tokens: seq<Token>): (linked: seq<Token>)
    ensures |linked| == |tokens| && forall k :: 0 <= k < |tokens| ==> linked[k] == LinkToken(tokens, k)
  {
    seq(|tokens|, k requires 0 <= k < |tokens| => LinkToken(tokens, k))
  }

  /** The closing parentheses from `i` on that find no open one, when `d` are open before `i`. */
  function StrayCloses(tokens: seq<Token>, i: nat, d: nat): seq<Diagnostic>
    requires i <= |tokens|
    decreases |tokens| - i
  {
    if i == |tokens| then []
    else if tokens[i].kind == KOpen then StrayCloses(tokens, i + 1, d + 1)
    else if tokens[i].kind != KClose then StrayCloses(tokens, i + 1, d)
    else if d == 0 then [UnmatchedClose(tokens[i].l)] + StrayCloses(tokens, i + 1, 0)
    else StrayCloses(tokens, i + 1, d - 1)
  }

  predicate Unclosed(tokens: seq<Token>, k: nat)
    requires k < |tokens|
  {
    tokens[k].kind == KOpen && CloseOf(tokens, k + 1, 0) == |tokens|
  }

  function StrayOpens(tokens: seq<Token>, k: nat): seq<Diagnostic>
    requires k <= |tokens|
    decreases |tokens| - k
  {
    if k == |tokens| then []
    else (if Unclosed(tokens, k) then [UnmatchedOpen(tokens[k].l)] else []) + StrayOpens(tokens, k + 1)
  }

  lemma {:induction false} StrayOpensSkip(tokens: seq<Token>, a: nat, b: nat)
    requires a <= b <= |tokens| && forall k :: a <= k < b ==> !Unclosed(tokens, k)
    ensures StrayOpens(tokens, a) == StrayOpens(tokens, b)
    decreases b - a
  {
    if a < b {
      StrayOpensSkip(tokens, a + 1, b);
    }
  }

  /** The stack at token `i` holds the parentheses that are still open, innermost last. */
  ghost predicate OpenStack(tokens: seq<Token>, unclosed: seq<nat>, i: nat) {
    && i <= |tokens|
    && (forall p, q :: 0 <= p < q < |unclosed| ==> unclosed[p] < unclosed[q])
    && (forall p :: 0 <= p < |unclosed| ==> unclosed[p] < i && tokens[unclosed[p]].kind == KOpen)
    && (forall p :: 0 <= p < |unclosed| ==>
          CloseOf(tokens, unclosed[p] + 1, 0) == CloseOf(tokens, i, |unclosed| - 1 - p))
  }

  /** No parenthesis that is still open at token `i` is missing from the stack. */
  ghost predicate Covers(tokens: seq<Token>, unclosed: seq<nat>, i: nat)
    requires i <= |tokens|
  {
    forall k :: 0 <= k < i && tokens[k].kind == KOpen && CloseOf(tokens, k + 1, 0) >= i ==> k in unclosed
  }

  /** The parentheses closed before token `i` are linked, and nothing else has changed. */
  ghost predicate LinkedBefore(tokens: seq<Token>, linked: seq<Token>, i: nat) {
    && |tokens| == |linked|
    && forall k :: 0 <= k < |tokens| ==>
         linked[k] == if tokens[k].kind == KOpen && CloseOf(tokens, k + 1, 0) < i then LinkToken(tokens, k)
           else tokens[k]
  }

  ghost predicate Matching(tokens: seq<Token>, linked: seq<Token>, unclosed: seq<nat>, i: nat) {
    OpenStack(tokens, unclosed, i) && Covers(tokens, unclosed, i) && LinkedBefore(tokens, linked, i)
  }

  lemma CloseStep(tokens: seq<Token>, i: nat, d: nat)
    requires i < |tokens|
    ensures tokens[i].kind == KOpen ==> CloseOf(tokens, i, d) == CloseOf(tokens, i + 1, d + 1)
    ensures tokens[i].kind == KClose ==> CloseOf(tokens, i, d) == if d == 0 then i else CloseOf(tokens, i + 1, d - 1)
    ensures tokens[i].kind != KOpen && tokens[i].kind != KClose ==> CloseOf(tokens, i, d) == CloseOf(tokens, i + 1, d)
  {
  }

  /** No other parenthesis is closed at `i`. */
  lemma {:induction false} ClosedAt(tokens: seq<Token>, unclosed: seq<nat>, i: nat, k: nat)
    requires OpenStack(tokens, unclosed, i) && Covers(tokens, unclosed, i) && k < i < |tokens|
      && tokens[k].kind == KOpen
    ensures CloseOf(tokens, k + 1, 0) == i <==>
      tokens[i].kind == KClose && unclosed != [] && k == unclosed[|unclosed| - 1]
  {
    hide CloseOf;
    if CloseOf(tokens, k + 1, 0) >= i {
      var p :| 0 <= p < |unclosed| && unclosed[p] == k;
      CloseStep(tokens, i, |unclosed| - 1 - p);
    } else if unclosed != [] {
      CloseStep(tokens, i, 0);
      assert unclosed[|unclosed| - 1] < i;
    }
  }

  lemma LinkedStep(tokens: seq<Token>, linked: seq<Token>, unclosed: seq<nat>, i: nat)
    requires Matching(tokens, linked, unclosed, i) && i < |tokens|
    requires tokens[i].kind == KClose ==> unclosed == []
    ensures LinkedBefore(tokens, linked, i + 1)
  {
    hide OpenStack, CloseOf;
    forall k | 0 <= k < i && tokens[k].kind == KOpen ensures CloseOf(tokens, k + 1, 0) != i {
      ClosedAt(tokens, unclosed, i, k);
    }
  }

  lemma LinkedPop(tokens: seq<Token>, linked: seq<Token>, unclosed: seq<nat>, i: nat)
    requires Matching(tokens, linked, unclosed, i) && i < |tokens| && tokens[i].kind == KClose && unclosed != []
    requires unclosed[|unclosed| - 1] < i && tokens[unclosed[|unclosed| - 1]].kind == KOpen
    ensures var last := unclosed[|unclosed| - 1]; LinkedBefore(tokens, linked[last := tokens[last].(data := i)], i + 1)
  {
    hide OpenStack, CloseOf;
    var last := unclosed[|unclosed| - 1];
    forall k | 0 <= k < i && tokens[k].kind == KOpen ensures CloseOf(tokens, k + 1, 0) == i <==> k == last {
      ClosedAt(tokens, unclosed, i, k);
    }
  }

  /** The open parentheses after token `i`, for each way the token changes the stack. */
  lemma {:induction false} StackCloser(tokens: seq<Token>, unclosed: seq<nat>, i: nat, p: nat)
    requires OpenStack(tokens, unclosed, i) && p < |unclosed|
    ensures unclosed[p] < |tokens| && CloseOf(tokens, unclosed[p] + 1, 0) == CloseOf(tokens, i, |unclosed| - 1 - p)
  {
    hide CloseOf;
  }

  lemma {:induction false} OpenStackClosers(tokens: seq<Token>, unclosed: seq<nat>, i: nat, p: nat)
    requires OpenStack(tokens, unclosed, i) && i < |tokens| && p < |unclosed|
    ensures
      var c, d := CloseOf(tokens, unclosed[p] + 1, 0), |unclosed| - 1 - p;
      && (tokens[i].kind == KOpen ==> c == CloseOf(tokens, i + 1, d + 1))
      && (tokens[i].kind == KClose && d > 0 ==> c == CloseOf(tokens, i + 1, d - 1))
      && (tokens[i].kind != KOpen && tokens[i].kind != KClose ==> c == CloseOf(tokens, i + 1, d))
  {
    hide CloseOf, OpenStack;
    StackCloser(tokens, unclosed, i, p);
    CloseStep(tokens, i, |unclosed| - 1 - p);
  }

  lemma OpenStackPush(tokens: seq<Token>, unclosed: seq<nat>, i: nat)
    requires OpenStack(tokens, unclosed, i) && i < |tokens| && tokens[i].kind == KOpen
    ensures OpenStack(tokens, unclosed + [i], i + 1)
  {
    hide CloseOf;
    var u := unclosed + [i];
    forall p | 0 <= p < |u| ensures CloseOf(tokens, u[p] + 1, 0) == CloseOf(tokens, i + 1, |u| - 1 - p) {
      if p < |unclosed| {
        OpenStackClosers(tokens, unclosed, i, p);
      }
    }
  }

  lemma OpenStackPop(tokens: seq<Token>, unclosed: seq<nat>, i: nat)
    requires OpenStack(tokens, unclosed, i) && i < |tokens| && tokens[i].kind == KClose && unclosed != []
    ensures OpenStack(tokens, unclosed[..|unclosed| - 1], i + 1)
  {
    hide CloseOf;
    var u := unclosed[..|unclosed| - 1];
    forall p | 0 <= p < |u| ensures CloseOf(tokens, u[p] + 1, 0) == CloseOf(tokens, i + 1, |u| - 1 - p) {
      OpenStackClosers(tokens, unclosed, i, p);
    }
  }

  lemma CoversPop(tokens: seq<Token>, unclosed: seq<nat>, i: nat)
    requires OpenStack(tokens, unclosed, i) && Covers(tokens, unclosed, i)
    requires i < |tokens| && tokens[i].kind == KClose && unclosed != []
    ensures Covers(tokens, unclosed[..|unclosed| - 1], i + 1)
  {
    hide CloseOf, OpenStack;
    forall k | 0 <= k < i && tokens[k].kind == KOpen && CloseOf(tokens, k + 1, 0) >= i + 1
      ensures k in unclosed[..|unclosed| - 1]
    {
      ClosedAt(tokens, unclosed, i, k);
      var p :| 0 <= p < |unclosed| && unclosed[p] == k;
      assert unclosed[..|unclosed| - 1][p] == k;
    }
  }

  lemma CoversStep(tokens: seq<Token>, unclosed: seq<nat>, i: nat)
    requires i < |tokens| && Covers(tokens, unclosed, i)
    ensures Covers(tokens, if tokens[i].kind == KOpen then unclosed + [i] else unclosed, i + 1)
  {
    hide CloseOf;
  }

  lemma OpenStackSkip(tokens: seq<Token>, unclosed: seq<nat>, i: nat)
    requires OpenStack(tokens, unclosed, i) && i < |tokens| && tokens[i].kind != KOpen
    requires tokens[i].kind == KClose ==> unclosed == []
    ensures OpenStack(tokens, unclosed, i + 1)
  {
    hide CloseOf;
    forall p | 0 <= p < |unclosed| ensures CloseOf(tokens, unclosed[p] + 1, 0)
      == CloseOf(tokens, i + 1, |unclosed| - 1 - p) {
      OpenStackClosers(tokens, unclosed, i, p);
    }
  }

  lemma MatchingShape(tokens: seq<Token>, linked: seq<Token>, unclosed: seq<nat>, i: nat)
    requires Matching(tokens, linked, unclosed, i)
    ensures i <= |tokens| == |linked|
    ensures i < |tokens| ==> linked[i] == tokens[i]
    ensures
      forall p :: 0 <= p < |unclosed| ==>
        unclosed[p] < i && linked[unclosed[p]] == tokens[unclosed[p]] && tokens[unclosed[p]].kind == KOpen
  {
  }

  /** What is left on the stack is exactly the unclosed parentheses. */
  lemma MatchingEnd(tokens: seq<Token>, linked: seq<Token>, unclosed: seq<nat>)
    requires Matching(tokens, linked, unclosed, |tokens|)
    ensures linked == LinkAll(tokens)
    ensures forall k :: 0 <= k < |tokens| ==> (Unclosed(tokens, k) <==> k in unclosed)
    ensures forall p, q :: 0 <= p < q < |unclosed| ==> unclosed[p] < unclosed[q] < |tokens|
    ensures forall p :: 0 <= p < |unclosed| ==> unclosed[p] < |tokens|
  {
    forall k | 0 <= k < |tokens| ensures Unclosed(tokens, k) <==> k in unclosed {
    }
  }

  /** Reports the parentheses left on the stack, bottom to top. */
  method ReportUnclosed(ghost tokens0: seq<Token>, tokens: seq<Token>, unclosed: seq<nat>, err0: seq<Diagnostic>)
    returns (err: seq<Diagnostic>)
    requires Matching(tokens0, tokens, unclosed, |tokens0|)
    ensures err == err0 + StrayOpens(tokens0, 0)
  {
    hide CloseOf, Unclosed, LinkToken, Matching;
    MatchingShape(tokens0, tokens, unclosed, |tokens0|);
    MatchingEnd(tokens0, tokens, unclosed);
    err := err0;
    ghost var next: nat := 0;
    for p := 0 to |unclosed|
      invariant next == if p == 0 then 0 else unclosed[p - 1] + 1
      invariant next <= |tokens0|
      invariant err0 + StrayOpens(tokens0, 0) == err + StrayOpens(tokens0, next)
    {
      StrayOpensSkip(tokens0, next, unclosed[p]);
      assert Unclosed(tokens0, unclosed[p]);
      err := err + [UnmatchedOpen(tokens[unclosed[p]].l)];
      next := unclosed[p] + 1;
    }
    StrayOpensSkip(tokens0, next, |tokens0|);
  }

  lemma StrayStep(tokens: seq<Token>, i: nat, d: nat)
    requires i < |tokens|
    ensures tokens[i].kind == KOpen ==> StrayCloses(tokens, i, d) == StrayCloses(tokens, i + 1, d + 1)
    ensures tokens[i].kind == KClose && d == 0 ==>
      StrayCloses(tokens, i, d) == [UnmatchedClose(tokens[i].l)] + StrayCloses(tokens, i + 1, 0)
    ensures tokens[i].kind == KClose && d > 0 ==> StrayCloses(tokens, i, d) == StrayCloses(tokens, i + 1, d - 1)
    ensures tokens[i].kind != KOpen && tokens[i].kind != KClose ==>
      StrayCloses(tokens, i, d) == StrayCloses(tokens, i + 1, d)
  {
  }

  lemma MatchingStart(tokens: seq<Token>)
    ensures Matching(tokens, tokens, [], 0)
  {
  }

  lemma {:induction false} StrayEnd(tokens: seq<Token>, d: nat)
    ensures StrayCloses(tokens, |tokens|, d) == []
  {
  }

  /** The stack pass over the tokens links exactly the matched parentheses and reports the others. */
  method MatchParens(tokens0: seq<Token>, err0: seq<Diagnostic>) returns (tokens: seq<Token>, err: seq<Diagnostic>)
    ensures tokens == LinkAll(tokens0)
    ensures err == err0 + StrayCloses(tokens0, 0, 0) + StrayOpens(tokens0, 0)
  {
    hide CloseOf, LinkToken, LinkAll, StrayCloses, StrayOpens, OpenStack, Covers, LinkedBefore;
    tokens, err := tokens0, err0;
    var unclosed: seq<nat> := [];
    var i := 0;
    MatchingStart(tokens0);
    while i < |tokens|
      invariant i <= |tokens| == |tokens0|
      invariant Matching(tokens0, tokens, unclosed, i)
      invariant err0 + StrayCloses(tokens0, 0, 0) == err + StrayCloses(tokens0, i, |unclosed|)
    {
      MatchingShape(tokens0, tokens, unclosed, i);
      StrayStep(tokens0, i, |unclosed|);
      if tokens[i].kind == KOpen {
        OpenStackPush(tokens0, unclosed, i);
        CoversStep(tokens0, unclosed, i);
        LinkedStep(tokens0, tokens, unclosed, i);
        unclosed := unclosed + [i];
      } else if tokens[i].kind == KClose && unclosed != [] {
        OpenStackPop(tokens0, unclosed, i);
        CoversPop(tokens0, unclosed, i);
        LinkedPop(tokens0, tokens, unclosed, i);
        var last := unclosed[|unclosed| - 1];
        tokens := tokens[last := tokens[last].(data := i)];
        unclosed := unclosed[..|unclosed| - 1];
      } else {
        OpenStackSkip(tokens0, unclosed, i);
        CoversStep(tokens0, unclosed, i);
        LinkedStep(tokens0, tokens, unclosed, i);
        if tokens[i].kind == KClose {
          err := err + [UnmatchedClose(tokens[i].l)];
        }
      }
      i := i + 1;
    }
    MatchingEnd(tokens0, tokens, unclosed);
    StrayEnd(tokens0, |unclosed|);
    err := ReportUnclosed(tokens0, tokens, unclosed, err);
  }

  /** Scanning for a close passes token `k` at some depth. */
  lemma {:induction false} ClosePasses(tokens: seq<Token>, j: nat, d: nat, k: nat) returns (e: nat)
    requires j <= k <= |tokens| && k <= CloseOf(tokens, j, d)
    ensures CloseOf(tokens, j, d) == CloseOf(tokens, k, e)
    decreases k - j
  {
    e := d;
    if j < k {
      CloseStep(tokens, j, d);
      var depth := if tokens[j].kind == KOpen then d + 1 else if tokens[j].kind == KClose then d - 1 else d;
      e := ClosePasses(tokens, j + 1, depth, k);
    }
  }

  /** Fewer open parentheses close earlier. */
  lemma {:induction false} CloseMonotone(tokens: seq<Token>, j: nat, d: nat, e: nat)
    requires j <= |tokens| && d < e && CloseOf(tokens, j, e) < |tokens|
    ensures CloseOf(tokens, j, d) < CloseOf(tokens, j, e)
    decreases |tokens| - j
  {
    CloseStep(tokens, j, d);
    CloseStep(tokens, j, e);
    if tokens[j].kind == KOpen {
      CloseMonotone(tokens, j + 1, d + 1, e + 1);
    } else if tokens[j].kind != KClose {
      CloseMonotone(tokens, j + 1, d, e);
    } else if d > 0 {
      CloseMonotone(tokens, j + 1, d - 1, e - 1);
    }
  }

  lemma {:induction false} NoStrayOpens(tokens: seq<Token>, a: nat, k: nat)
    requires a <= k < |tokens| && StrayOpens(tokens, a) == []
    ensures !Unclosed(tokens, k)
    decreases k - a
  {
    if a < k {
      NoStrayOpens(tokens, a + 1, k);
    }
  }

  /** A pass without errors leaves links that nest, which is what the parser relies on. */
  lemma {:induction false} LinksNest(tokens: seq<Token>)
    requires StrayOpens(tokens, 0) == []
    ensures Nested(LinkAll(tokens), 0, |tokens|)
  {
    hide CloseOf;
    var linked := LinkAll(tokens);
    forall i | 0 <= i < |tokens| && linked[i].kind == KOpen
      ensures linked[i].data == CloseOf(tokens, i + 1, 0) < |tokens| {
      NoStrayOpens(tokens, 0, i);
    }
    forall i, k | 0 <= i < k < |tokens| && linked[i].kind == KOpen && linked[k].kind == KOpen && k < linked[i].data
      ensures linked[k].data < linked[i].data
    {
      var e := ClosePasses(tokens, i + 1, 0, k);
      CloseStep(tokens, k, e);
      CloseMonotone(tokens, k + 1, 0, e + 1);
    }
  }

  // ---------- variables ----------

  /** A repeated declaration overrides the earlier ones. */
  function Declared(names: seq<string>, name: string): (id: int)
    ensures -1 <= id < |names|
    ensures id >= 0 <==> name in names
    ensures id >= 0 ==> names[id] == name
    ensures forall k :: 0 <= k < |names| && id < k ==> names[k] != name
  {
    if names == [] then -1
    else if names[|names| - 1] == name then |names| - 1
    else Declared(names[..|names| - 1], name)
  }

  method VariableIds(names: seq<string>) returns (ids: map<string, nat>)
    ensures forall name :: name in ids <==> name in names
    ensures forall name :: name in ids ==> ids[name] == Declared(names, name)
  {
    ids := map[];
    for i := 0 to |names|
      invariant forall name :: name in ids <==> name in names[..i]
      invariant forall name :: name in ids ==> ids[name] == Declared(names[..i], name)
    {
      ids := ids[names[i] := i];
      assert names[..i + 1] == names[..i] + [names[i]];
    }
    assert names[..|names|] == names;
  }

  /** The name a variable token spells. */
  function Spelling(s: string, t: Token): string {
    if t.l <= t.r <= |s| then s[t.l..t.r] else ""
  }

  function ResolveOne(s: string, t: Token, names: seq<string>): Token {
    if t.kind == KVariable && Declared(names, Spelling(s, t)) >= 0 then t.(data := Declared(names, Spelling(s, t)))
      else t
  }

  function Resolved(s: string, tokens: seq<Token>, names: seq<string>): (r: seq<Token>)
    ensures |r| == |tokens| && forall k :: 0 <= k < |tokens| ==> r[k] == ResolveOne(s, tokens[k], names)
  {
    seq(|tokens|, k requires 0 <= k < |tokens| => ResolveOne(s, tokens[k], names))
  }

  function UnknownNames(s: string, tokens: seq<Token>, names: seq<string>): seq<Diagnostic> {
    if tokens == [] then []
    else
      var t := tokens[|tokens| - 1];
      UnknownNames(s, tokens[..|tokens| - 1], names) +
      if t.kind == KVariable && Spelling(s, t) !in names then [UnknownVariable(t.l)] else []
  }

  lemma {:induction false} NoneUnknown(s: string, names: seq<string>)
    ensures UnknownNames(s, [], names) == []
  {
  }

  lemma {:induction false} UnknownStep(s: string, tokens: seq<Token>, names: seq<string>, i: nat)
    requires i < |tokens|
    ensures UnknownNames(s, tokens[..i + 1], names) == UnknownNames(s, tokens[..i], names) +
      if tokens[i].kind == KVariable && Spelling(s, tokens[i]) !in names then [UnknownVariable(tokens[i].l)] else []
  {
    hide Spelling;
    assert tokens[..i + 1][..i] == tokens[..i];
  }

  lemma AllResolved(s: string, tokens0: seq<Token>, names: seq<string>, tokens: seq<Token>)
    requires |tokens| == |tokens0| && forall k :: 0 <= k < |tokens| ==> tokens[k] == ResolveOne(s, tokens0[k], names)
    ensures tokens == Resolved(s, tokens0, names)
  {
    hide ResolveOne;
  }

  method ResolveVariables(s: string, tokens0: seq<Token>, names: seq<string>, err0: seq<Diagnostic>)
    returns (tokens: seq<Token>, err: seq<Diagnostic>)
    ensures tokens == Resolved(s, tokens0, names)
    ensures err == err0 + UnknownNames(s, tokens0, names)
  {
    var ids := VariableIds(names);
    tokens, err := tokens0, err0;
    hide UnknownNames, Spelling, Resolved;
    NoneUnknown(s, names);
    for i := 0 to |tokens|
      invariant |tokens| == |tokens0|
      invariant forall k :: 0 <= k < |tokens| ==> tokens[k] == if k < i then ResolveOne(s, tokens0[k], names)
        else tokens0[k]
      invariant err == err0 + UnknownNames(s, tokens0[..i], names)
    {
      UnknownStep(s, tokens0, names, i);
      if tokens[i].kind == KVariable {
        var name := Spelling(s, tokens[i]);
        if name !in ids {
          err := err + [UnknownVariable(tokens[i].l)];
        } else {
          tokens := tokens[i := tokens[i].(data := ids[name])];
        }
      }
    }
    assert tokens0[..|tokens0|] == tokens0;
    AllResolved(s, tokens0, names, tokens);
  }
}
