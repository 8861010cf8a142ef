/** The operator-precedence parser of the task filter. */
module FilterParser {
  import opened FilterAst
  import opened FilterTokens

  // ---------- chains of operands and operators ----------

  /** A binary operator with the text index of its token. */
  datatype OpAt = OpAt(at: int, op: BinOp)

  function Priority(op: BinOp): nat {
    match op
    case And => 1
    case Or => 2
    case _ => 0
  }

  function Pr(o: OpAt): nat {
    Priority(o.op)
  }

  /** The last of the loosest operators. */
  function LastLoosest(ops: seq<OpAt>): (m: nat)
    requires ops != []
    ensures m < |ops|
    ensures forall k :: 0 <= k < |ops| ==> Pr(ops[k]) <= Pr(ops[m])
    ensures forall k :: m < k < |ops| ==> Pr(ops[k]) < Pr(ops[m])
  {
    if |ops| == 1 then 0
    else
      var m := LastLoosest(ops[..|ops| - 1]);
      if Pr(ops[|ops| - 1]) >= Pr(ops[m]) then |ops| - 1 else m
  }

  lemma {:induction false} LastLoosestUnique(ops: seq<OpAt>, m: nat)
    requires m < |ops|
    requires forall k :: 0 <= k < |ops| ==> Pr(ops[k]) <= Pr(ops[m])
    requires forall k :: m < k < |ops| ==> Pr(ops[k]) < Pr(ops[m])
    ensures LastLoosest(ops) == m
  {
  }

  /** The reference meaning of a chain: split it at the last of the loosest operators. Tighter
      operators bind first, and operators of one priority associate to the left. */
  function Assoc(operands: seq<Expr>, ops: seq<OpAt>): Expr
    requires |operands| == |ops| + 1
    decreases |ops|
  {
    if ops == [] then operands[0]
    else
      var m := LastLoosest(ops);
      Binary(ops[m].at, ops[m].op, Assoc(operands[..m + 1], ops[..m]), Assoc(operands[m + 1..], ops[m + 1..]))
  }

  function Reduced(operands: seq<Expr>, ops: seq<OpAt>, k: nat): (r: (seq<Expr>, seq<OpAt>))
    requires |operands| == |ops| + 1 && k < |ops|
    ensures |r.0| == |r.1| + 1
  {
    (operands[..k] + [Binary(ops[k].at, ops[k].op, operands[k], operands[k + 1])] + operands[k + 2..],
     ops[..k] + ops[k + 1..])
  }

  lemma {:induction false} AssocSplit(operands: seq<Expr>, ops: seq<OpAt>, m: nat)
    requires |operands| == |ops| + 1 && m < |ops|
    requires forall k :: 0 <= k < |ops| ==> Pr(ops[k]) <= Pr(ops[m])
    requires forall k :: m < k < |ops| ==> Pr(ops[k]) < Pr(ops[m])
    ensures Assoc(operands, ops) ==
            Binary(ops[m].at, ops[m].op, Assoc(operands[..m + 1], ops[..m]), Assoc(operands[m + 1..], ops[m + 1..]))
  {
    LastLoosestUnique(ops, m);
  }

  /** A reduction to the right of `m` is a reduction of the right part. */
  lemma ReducedRight(operands: seq<Expr>, ops: seq<OpAt>, k: nat, m: nat)
    requires |operands| == |ops| + 1 && m < k < |ops|
    ensures
      var r, s := Reduced(operands, ops, k), Reduced(operands[m + 1..], ops[m + 1..], k - m - 1);
      && r.0[..m + 1] == operands[..m + 1] && r.1[..m] == ops[..m] && r.1[m] == ops[m]
      && r.0[m + 1..] == s.0 && r.1[m + 1..] == s.1
  {
    hide Pr;
    var right, opr := operands[m + 1..], ops[m + 1..];
    assert right[k - m - 1] == operands[k] && right[k - m] == operands[k + 1] && opr[k - m - 1] == ops[k];
    assert right[..k - m - 1] == operands[m + 1..k] && right[k - m + 1..] == operands[k + 2..];
    assert opr[..k - m - 1] == ops[m + 1..k] && opr[k - m..] == ops[k + 1..];
  }

  /** A reduction to the left of `m` is a reduction of the left part. */
  lemma ReducedLeft(operands: seq<Expr>, ops: seq<OpAt>, k: nat, m: nat)
    requires |operands| == |ops| + 1 && k < m < |ops|
    ensures
      var r, s := Reduced(operands, ops, k), Reduced(operands[..m + 1], ops[..m], k);
      && r.0[..m] == s.0 && r.1[..m - 1] == s.1 && r.1[m - 1] == ops[m]
      && r.0[m..] == operands[m + 1..] && r.1[m..] == ops[m + 1..]
  {
    hide Pr;
    var left, opl := operands[..m + 1], ops[..m];
    assert left[..k] == operands[..k] && left[k + 2..] == operands[k + 2..m + 1];
    assert opl[..k] == ops[..k] && opl[k + 1..] == ops[k + 1..m];
  }

  lemma ReducedIndex(operands: seq<Expr>, ops: seq<OpAt>, k: nat)
    requires |operands| == |ops| + 1 && k < |ops|
    ensures var r := Reduced(operands, ops, k).1;
      && |r| == |ops| - 1
      && (forall i :: 0 <= i < k ==> r[i] == ops[i])
      && (forall i :: k <= i < |r| ==> r[i] == ops[i + 1])
  {
  }

  /** Joining two neighbours early is harmless when the operator on the left is looser and the one on
      the right is not tighter. */
  lemma {:induction false} Contract(operands: seq<Expr>, ops: seq<OpAt>, k: nat)
    requires |operands| == |ops| + 1 && k < |ops|
    requires k > 0 ==> Pr(ops[k - 1]) > Pr(ops[k])
    requires k + 1 < |ops| ==> Pr(ops[k + 1]) >= Pr(ops[k])
    ensures var r := Reduced(operands, ops, k); Assoc(operands, ops) == Assoc(r.0, r.1)
    decreases |ops|
  {
    hide Assoc, Pr, Reduced;
    var m := LastLoosest(ops);
    var r := Reduced(operands, ops, k);
    AssocSplit(operands, ops, m);
    ReducedIndex(operands, ops, k);
    if m == k {
      AssocPair(operands, ops);
    } else if m < k {
      ReducedRight(operands, ops, k, m);
      Contract(operands[m + 1..], ops[m + 1..], k - m - 1);
      AssocSplit(r.0, r.1, m);
    } else {
      ReducedLeft(operands, ops, k, m);
      Contract(operands[..m + 1], ops[..m], k);
      AssocSplit(r.0, r.1, m - 1);
    }
  }

  lemma {:induction false} AssocPair(operands: seq<Expr>, ops: seq<OpAt>)
    requires |operands| == 2 && |ops| == 1
    ensures var r := Reduced(operands, ops, 0); Assoc(operands, ops) == Assoc(r.0, r.1)
  {
  }

  // ---------- the two stacks ----------

  /** Two chains that stay equal when they are continued. */
  ghost predicate SameChain(a: seq<Expr>, o: seq<OpAt>, b: seq<Expr>, p: seq<OpAt>) {
    forall more: seq<Expr>, ops: seq<OpAt> | |a| + |more| == |o| + |ops| + 1 && |b| + |more| == |p| + |ops| + 1 ::
      Assoc(a + more, o + ops) == Assoc(b + more, p + ops)
  }

  /** Two chains that stay equal when they end or are continued by an operator of at least a priority. */
  ghost predicate SameBefore(a: seq<Expr>, o: seq<OpAt>, b: seq<Expr>, p: seq<OpAt>, priority: nat)
    requires |a| == |o| + 1 && |b| == |p| + 1
  {
    forall more: seq<Expr>, ops: seq<OpAt> | |more| == |ops| && (ops == [] || Pr(ops[0]) >= priority) ::
      Assoc(a + more, o + ops) == Assoc(b + more, p + ops)
  }

  predicate NonIncreasing(ops: seq<OpAt>) {
    forall i, j :: 0 <= i < j < |ops| ==> Pr(ops[i]) >= Pr(ops[j])
  }

  /** The operand stack and the operator stack when operators `s` to `i - 1` are folded into `result`. */
  function FoldedOperands(operands: seq<Expr>, s: nat, i: nat, result: Expr): (folded: seq<Expr>)
    requires s <= i < |operands|
    ensures |folded| == |operands| - (i - s)
  {
    operands[..s] + [result] + operands[i + 1..]
  }

  function FoldedOps(ops: seq<OpAt>, s: nat, i: nat): (folded: seq<OpAt>)
    requires s <= i <= |ops|
    ensures |folded| == |ops| - (i - s)
  {
    ops[..s] + ops[i..]
  }

  lemma FoldReduced(operands: seq<Expr>, ops: seq<OpAt>, s: nat, i: nat, result: Expr, more: seq<Expr>, rest: seq<OpAt>)
    requires |operands| == |ops| + 1 && s <= i < |ops| && |more| == |rest|
    ensures
      var a, o := FoldedOperands(operands, s, i, result) + more, FoldedOps(ops, s, i) + rest;
      && |a| == |o| + 1 && s < |o| && o[s] == ops[i] && a[s] == result && a[s + 1] == operands[i + 1]
      && Reduced(a, o, s).0 == FoldedOperands(operands, s, i + 1,
           Binary(ops[i].at, ops[i].op, result, operands[i + 1])) + more
      && Reduced(a, o, s).1 == FoldedOps(ops, s, i + 1) + rest
  {
    var a, o := FoldedOperands(operands, s, i, result) + more, FoldedOps(ops, s, i) + rest;
    assert a[..s] == operands[..s] && a[s + 2..] == operands[i + 2..] + more;
    assert o[..s] == ops[..s] && o[s + 1..] == ops[i + 1..] + rest;
  }

  lemma FoldedNeighbours(ops: seq<OpAt>, s: nat, i: nat, rest: seq<OpAt>)
    requires s <= i < |ops|
    ensures
      var o := FoldedOps(ops, s, i) + rest;
      && s < |o| && o[s] == ops[i] && (s > 0 ==> o[s - 1] == ops[s - 1])
      && (s + 1 < |o| ==> if i + 1 < |ops| then o[s + 1] == ops[i + 1] else rest != [] && o[s + 1] == rest[0])
  {
  }

  /** Folding one more operator of a group of equal operators that begins at `s`. */
  lemma FoldStep(operands: seq<Expr>, ops: seq<OpAt>, s: nat, i: nat, result: Expr, priority: nat)
    requires |operands| == |ops| + 1 && s <= i < |ops|
    requires Pr(ops[i]) < priority
    requires s > 0 ==> Pr(ops[s - 1]) > Pr(ops[i])
    requires i + 1 < |ops| ==> Pr(ops[i + 1]) == Pr(ops[i])
    requires SameBefore(operands, ops, FoldedOperands(operands, s, i, result), FoldedOps(ops, s, i), priority)
    ensures SameBefore(operands, ops, FoldedOperands(operands, s, i + 1,
      Binary(ops[i].at, ops[i].op, result, operands[i + 1])),
                       FoldedOps(ops, s, i + 1), priority)
  {
    hide Assoc, Pr, Reduced;
    var b := FoldedOperands(operands, s, i + 1, Binary(ops[i].at, ops[i].op, result, operands[i + 1]));
    var a, o, p := FoldedOperands(operands, s, i, result), FoldedOps(ops, s, i), FoldedOps(ops, s, i + 1);
    forall more: seq<Expr>, rest: seq<OpAt> | |more| == |rest| && (rest == [] || Pr(rest[0]) >= priority)
      ensures Assoc(operands + more, ops + rest) == Assoc(b + more, p + rest)
    {
      hide FoldedOperands, FoldedOps;
      FoldReduced(operands, ops, s, i, result, more, rest);
      FoldedNeighbours(ops, s, i, rest);
      Contract(a + more, o + rest, s);
    }
  }

  /** The number of operators at the top of the stack that have the priority of the top one. */
  method TopGroup(os: seq<OpAt>) returns (j: nat)
    requires os != [] && NonIncreasing(os)
    ensures 1 <= j <= |os|
    ensures forall k :: |os| - j <= k < |os| ==> Pr(os[k]) == Pr(os[|os| - 1])
    ensures j < |os| ==> Pr(os[|os| - j - 1]) > Pr(os[|os| - 1])
  {
    hide Pr;
    var current := Pr(os[|os| - 1]);
    j := 1;
    while j < |os| && Pr(os[|os| - j - 1]) == current
      invariant 1 <= j <= |os|
      invariant forall k :: |os| - j <= k < |os| ==> Pr(os[k]) == current
    {
      j := j + 1;
    }
  }

  /** Folds the top `j` operators and their operands from left to right. */
  method FoldGroup(es: seq<Expr>, os: seq<OpAt>, j: nat, ghost priority: nat) returns (result: Expr)
    requires |es| == |os| + 1 && 1 <= j <= |os|
    requires Pr(os[|os| - 1]) < priority
    requires forall k :: |os| - j <= k < |os| ==> Pr(os[k]) == Pr(os[|os| - 1])
    requires j < |os| ==> Pr(os[|os| - j - 1]) > Pr(os[|os| - 1])
    ensures SameBefore(es, os, es[..|es| - j][|es| - j - 1 := result], os[..|os| - j], priority)
  {
    hide Assoc, Pr, SameBefore, FoldedOperands, FoldedOps;
    ghost var s := |os| - j;
    result := es[|es| - j - 1];
    SameBeforeStart(es, os, s, priority);
    for i := |os| - j to |os|
      invariant SameBefore(es, os, FoldedOperands(es, s, i, result), FoldedOps(os, s, i), priority)
    {
      FoldStep(es, os, s, i, result, priority);
      result := Binary(os[i].at, os[i].op, result, es[i + 1]);
    }
    SameBeforeEnd(es, os, s, result, priority);
  }

  /** `merge_stacks`: folds every operator tighter than `priority`, one group of equals at a time. */
  method MergeStacks(operands: seq<Expr>, ops: seq<OpAt>, priority: nat) returns (es: seq<Expr>, os: seq<OpAt>)
    requires |operands| == |ops| + 1 && NonIncreasing(ops)
    ensures |es| == |os| + 1 && os <= ops
    ensures os != [] ==> Pr(os[|os| - 1]) >= priority
    ensures SameBefore(operands, ops, es, os, priority)
  {
    hide Assoc, Pr, SameBefore;
    es, os := operands, ops;
    SameBeforeReflexive(es, os, priority);
    while os != [] && Pr(os[|os| - 1]) < priority
      invariant |es| == |os| + 1 && os <= ops
      invariant SameBefore(operands, ops, es, os, priority)
      decreases |os|
    {
      var j := TopGroup(os);
      var result := FoldGroup(es, os, j, priority);
      SameBeforeTransitive(operands, ops, es, os, es[..|es| - j][|es| - j - 1 := result], os[..|os| - j], priority);
      os, es := os[..|os| - j], es[..|es| - j];
      es := es[|es| - 1 := result];
    }
  }

  lemma SameBeforeReflexive(es: seq<Expr>, os: seq<OpAt>, priority: nat)
    requires |es| == |os| + 1
    ensures SameBefore(es, os, es, os, priority)
  {
  }

  lemma SameBeforeStart(es: seq<Expr>, os: seq<OpAt>, s: nat, priority: nat)
    requires |es| == |os| + 1 && s < |os|
    ensures SameBefore(es, os, FoldedOperands(es, s, s, es[s]), FoldedOps(os, s, s), priority)
  {
    assert FoldedOperands(es, s, s, es[s]) == es;
    assert FoldedOps(os, s, s) == os;
  }

  lemma SameBeforeEnd(es: seq<Expr>, os: seq<OpAt>, s: nat, result: Expr, priority: nat)
    requires |es| == |os| + 1 && s < |os|
    requires SameBefore(es, os, FoldedOperands(es, s, |os|, result), FoldedOps(os, s, |os|), priority)
    ensures SameBefore(es, os, es[..s + 1][s := result], os[..s], priority)
  {
    assert FoldedOperands(es, s, |os|, result) == es[..s + 1][s := result];
    assert FoldedOps(os, s, |os|) == os[..s];
  }

  lemma SameBeforeTransitive(a: seq<Expr>, o: seq<OpAt>, b: seq<Expr>, p: seq<OpAt>, c: seq<Expr>, q: seq<OpAt>,
                             priority: nat)
    requires |a| == |o| + 1 && |b| == |p| + 1 && |c| == |q| + 1
    requires SameBefore(a, o, b, p, priority) && SameBefore(b, p, c, q, priority)
    ensures SameBefore(a, o, c, q, priority)
  {
    hide Assoc;
  }

  lemma SameChainTransitive(a: seq<Expr>, o: seq<OpAt>, b: seq<Expr>, p: seq<OpAt>, c: seq<Expr>, q: seq<OpAt>)
    requires |a| - |o| == |b| - |p| == |c| - |q|
    requires SameChain(a, o, b, p) && SameChain(b, p, c, q)
    ensures SameChain(a, o, c, q)
  {
    hide Assoc;
    forall more: seq<Expr>, ops: seq<OpAt> | |a| + |more| == |o| + |ops| + 1 && |c| + |more| == |q| + |ops| + 1
      ensures Assoc(a + more, o + ops) == Assoc(c + more, q + ops)
    {
      assert Assoc(a + more, o + ops) == Assoc(b + more, p + ops);
    }
  }

  lemma {:induction false} UseSameBefore(a: seq<Expr>, o: seq<OpAt>, b: seq<Expr>, p: seq<OpAt>, priority: nat,
                                         more: seq<Expr>, ops: seq<OpAt>)
    requires |a| == |o| + 1 && |b| == |p| + 1 && SameBefore(a, o, b, p, priority)
    requires |more| == |ops| && (ops == [] || Pr(ops[0]) >= priority)
    ensures Assoc(a + more, o + ops) == Assoc(b + more, p + ops)
  {
  }

  /** Pushing the operator that the stacks were merged for. */
  lemma SameChainPush(a: seq<Expr>, o: seq<OpAt>, b: seq<Expr>, p: seq<OpAt>, op: OpAt)
    requires |a| == |o| + 1 && |b| == |p| + 1 && SameBefore(a, o, b, p, Pr(op))
    ensures SameChain(a, o + [op], b, p + [op])
  {
    hide Assoc, Pr, SameBefore;
    forall more: seq<Expr>, ops: seq<OpAt> | |a| + |more| == |o| + 1 + |ops| + 1
      ensures Assoc(a + more, o + [op] + ops) == Assoc(b + more, p + [op] + ops)
    {
      Regroup(o, [op], ops);
      Regroup(p, [op], ops);
      UseSameBefore(a, o, b, p, Pr(op), more, [op] + ops);
    }
  }

  lemma Regroup<T>(a: seq<T>, b: seq<T>, c: seq<T>)
    ensures a + b + c == a + (b + c)
  {
  }

  lemma SameChainOperand(a: seq<Expr>, o: seq<OpAt>, b: seq<Expr>, p: seq<OpAt>, e: Expr)
    requires |a| == |o| && |b| == |p| && SameChain(a, o, b, p)
    ensures SameChain(a + [e], o, b + [e], p)
  {
    hide Assoc;
    forall more: seq<Expr>, ops: seq<OpAt> | |a| + 1 + |more| == |o| + |ops| + 1
      ensures Assoc(a + [e] + more, o + ops) == Assoc(b + [e] + more, p + ops)
    {
      Regroup(a, [e], more);
      Regroup(b, [e], more);
      assert |a| + |[e] + more| == |o| + |ops| + 1;
    }
  }

  lemma {:induction false} SameChainEnd(a: seq<Expr>, o: seq<OpAt>, b: seq<Expr>, p: seq<OpAt>)
    requires |a| == |o| + 1 && |b| == |p| + 1 && SameChain(a, o, b, p)
    ensures Assoc(a, o) == Assoc(b, p)
  {
    hide Assoc;
    assert a + [] == a && o + [] == o && b + [] == b && p + [] == p;
  }

  // ---------- building trees ----------

  predicate WellFormed(t: Token, s: string) {
    t.l <= t.r <= |s| && (t.kind == KVariable ==> t.data >= 0)
  }

  /** Every opening parenthesis of the range is linked to a later token of it, and links nest. */
  ghost predicate Nested(tokens: seq<Token>, l: nat, r: nat) {
    && l <= r <= |tokens|
    && (forall i :: l <= i < r && tokens[i].kind == KOpen ==> i < tokens[i].data < r)
    && (forall i, k :: l <= i < k < r && tokens[i].kind == KOpen && tokens[k].kind == KOpen && k < tokens[i].data ==>
          tokens[k].data < tokens[i].data)
  }

  lemma NestedInside(tokens: seq<Token>, l: nat, r: nat, i: nat)
    requires Nested(tokens, l, r) && l <= i < r && tokens[i].kind == KOpen
    ensures Nested(tokens, i + 1, tokens[i].data)
  {
  }

  /** What a scan of a token range has gathered: the operands and operators in the order of the text,
      the parity of the pending NOTs and the position of the last one, and the errors. */
  datatype Chain = Chain(operands: seq<Expr>, ops: seq<OpAt>, odd: bool, lastNot: int, err: seq<Diagnostic>)

  predicate Alternates(c: Chain) {
    |c.ops| <= |c.operands| <= |c.ops| + 1
  }

  /** The operand that results from the pending NOTs. */
  function Negated(odd: bool, lastNot: int, tree: Expr): Expr {
    if odd then Not(lastNot, tree) else tree
  }

  function WithOperand(c: Chain, tree: Expr): Chain {
    var t := Negated(c.odd, c.lastNot, tree);
    if |c.operands| > |c.ops| then c.(odd := false, err := c.err + [UnexpectedExpression(At(t))])
    else c.(odd := false, operands := c.operands + [t])
  }

  function WithOp(c: Chain, op: OpAt): Chain {
    if |c.operands| == |c.ops| then c.(err := c.err + [UnexpectedOperator(op.at)])
    else c.(ops := c.ops + [op])
  }

  function Leaf(s: string, t: Token): Expr
    requires WellFormed(t, s) && t.kind in {KVariable, KNumber, KString}
  {
    if t.kind == KVariable then Variable(t.l, t.data)
    else if t.kind == KNumber then Integer(t.l, t.data)
    else Text(t.l, s[t.l..t.r])
  }

  /** Gathers tokens `i..r` without merging anything. */
  ghost function Collect(s: string, tokens: seq<Token>, i: nat, r: nat, c: Chain): (d: Chain)
    requires Nested(tokens, i, r) && forall k :: i <= k < r ==> WellFormed(tokens[k], s)
    requires Alternates(c)
    ensures Alternates(d)
    decreases r - i, 0
  {
    if i == r then c
    else
      var t := tokens[i];
      if t.kind in {KVariable, KNumber, KString} then Collect(s, tokens, i + 1, r, WithOperand(c, Leaf(s, t)))
      else if t.kind == KOpen then
        NestedInside(tokens, i, r, i);
        var (tree, err) := Build(s, tokens, i + 1, t.data);
        Collect(s, tokens, t.data + 1, r, WithOperand(c.(err := c.err + err), tree))
      else if t.kind == KNot then Collect(s, tokens, i + 1, r, c.(odd := !c.odd, lastNot := t.l))
      else if t.kind.KOp? then Collect(s, tokens, i + 1, r, WithOp(c, OpAt(t.l, t.kind.op)))
      else Collect(s, tokens, i + 1, r, c)
  }

  /** The reference parser of a token range: gather the whole chain, then associate it. */
  ghost function Build(s: string, tokens: seq<Token>, l: nat, r: nat): (Expr, seq<Diagnostic>)
    requires Nested(tokens, l, r) && forall k :: l <= k < r ==> WellFormed(tokens[k], s)
    decreases r - l, 1
  {
    if l == r then (Error, [EmptyExpression(if l == 0 then 0 else tokens[l - 1].l)])
    else
      var c := Collect(s, tokens, l, r, Chain([], [], false, 0, []));
      if |c.operands| == |c.ops| then
        (Error, c.err + if c.ops == [] then [] else [UnexpectedOperator(c.ops[|c.ops| - 1].at)])
      else (Assoc(c.operands, c.ops), c.err)
  }

  /** Errors written before a scan only precede the ones it writes. */
  lemma {:induction false} CollectErr(s: string, tokens: seq<Token>, i: nat, r: nat, c: Chain, before: seq<Diagnostic>)
    requires Nested(tokens, i, r) && forall k :: i <= k < r ==> WellFormed(tokens[k], s)
    requires Alternates(c)
    ensures
      var d := Collect(s, tokens, i, r, c);
      Collect(s, tokens, i, r, c.(err := before + c.err)) == d.(err := before + d.err)
    decreases r - i
  {
    hide Nested, WellFormed, Build, Leaf, Assoc, Negated;
    NestedRest(tokens, i, r);
    if i < r {
      var t := tokens[i];
      if t.kind in {KVariable, KNumber, KString} {
        OperandErr(c, Leaf(s, t), before);
        CollectErr(s, tokens, i + 1, r, WithOperand(c, Leaf(s, t)), before);
      } else if t.kind == KOpen {
        NestedInside(tokens, i, r, i);
        var (tree, err) := Build(s, tokens, i + 1, t.data);
        OperandErr(c.(err := c.err + err), tree, before);
        assert before + (c.err + err) == before + c.err + err;
        CollectErr(s, tokens, t.data + 1, r, WithOperand(c.(err := c.err + err), tree), before);
      } else if t.kind == KNot {
        CollectErr(s, tokens, i + 1, r, c.(odd := !c.odd, lastNot := t.l), before);
      } else if t.kind.KOp? {
        OpErr(c, OpAt(t.l, t.kind.op), before);
        CollectErr(s, tokens, i + 1, r, WithOp(c, OpAt(t.l, t.kind.op)), before);
      } else {
        CollectErr(s, tokens, i + 1, r, c, before);
      }
    }
  }

  lemma NestedRest(tokens: seq<Token>, i: nat, r: nat)
    requires Nested(tokens, i, r)
    ensures i <= r <= |tokens|
    ensures i < r ==> Nested(tokens, i + 1, r)
    ensures i < r && tokens[i].kind == KOpen ==> i < tokens[i].data < r && Nested(tokens, tokens[i].data + 1, r)
  {
  }

  lemma OperandErr(c: Chain, tree: Expr, before: seq<Diagnostic>)
    ensures
      var d := WithOperand(c, tree);
      WithOperand(c.(err := before + c.err), tree) == d.(err := before + d.err)
  {
    var t := Negated(c.odd, c.lastNot, tree);
    assert before + c.err + [UnexpectedExpression(At(t))] == before + (c.err + [UnexpectedExpression(At(t))]);
  }

  lemma OpErr(c: Chain, op: OpAt, before: seq<Diagnostic>)
    ensures
      var d := WithOp(c, op);
      WithOp(c.(err := before + c.err), op) == d.(err := before + d.err)
  {
    assert before + c.err + [UnexpectedOperator(op.at)] == before + (c.err + [UnexpectedOperator(op.at)]);
  }

  /** The two stacks stand for the gathered chain. */
  ghost predicate Tracks(operands: seq<Expr>, ops: seq<OpAt>, es: seq<Expr>, os: seq<OpAt>) {
    && |ops| <= |operands| <= |ops| + 1 && |es| - |os| == |operands| - |ops|
    && SameChain(operands, ops, es, os)
    && NonIncreasing(os)
    && (|es| == |os| ==> (os == [] <==> ops == []) && (os != [] ==> os[|os| - 1] == ops[|ops| - 1]))
  }

  lemma TracksNothing()
    ensures Tracks([], [], [], [])
  {
    hide Assoc;
  }

  /** `push_to_expr_stack`. */
  method PushOperand(ghost c: Chain, es: seq<Expr>, os: seq<OpAt>, odd: bool, lastNot: int, tree: Expr,
                     err: seq<Diagnostic>)
    returns (es': seq<Expr>, err': seq<Diagnostic>)
    requires Tracks(c.operands, c.ops, es, os) && odd == c.odd && lastNot == c.lastNot && err == c.err
    ensures Tracks(WithOperand(c, tree).operands, c.ops, es', os) && err' == WithOperand(c, tree).err
  {
    hide SameChain, NonIncreasing;
    var t := tree;
    if odd {
      t := Not(lastNot, tree);
    }
    es', err' := es, err;
    if |es| > |os| {
      err' := err + [UnexpectedExpression(At(t))];
    } else {
      es' := es + [t];
      SameChainOperand(c.operands, c.ops, es, os, t);
    }
  }

  method PushOp(ghost c: Chain, es: seq<Expr>, os: seq<OpAt>, op: OpAt, err: seq<Diagnostic>)
    returns (es': seq<Expr>, os': seq<OpAt>, err': seq<Diagnostic>)
    requires Tracks(c.operands, c.ops, es, os) && err == c.err
    ensures Tracks(WithOp(c, op).operands, WithOp(c, op).ops, es', os') && err' == WithOp(c, op).err
  {
    hide SameChain, SameBefore, Assoc, Pr;
    es', os', err' := es, os, err;
    if |es| == |os| {
      err' := err + [UnexpectedOperator(op.at)];
    } else {
      es', os' := MergeStacks(es, os, Pr(op));
      SameChainPush(es, os, es', os', op);
      SameChainMore(c.operands, c.ops, es, os, op);
      SameChainTransitive(c.operands, c.ops + [op], es, os + [op], es', os' + [op]);
      os' := os' + [op];
    }
  }

  lemma SameChainMore(a: seq<Expr>, o: seq<OpAt>, b: seq<Expr>, p: seq<OpAt>, op: OpAt)
    requires |a| == |o| + 1 && |b| == |p| + 1 && SameChain(a, o, b, p)
    ensures SameChain(a, o + [op], b, p + [op])
  {
    hide Assoc;
    forall more: seq<Expr>, ops: seq<OpAt> | |a| + |more| == |o| + 1 + |ops| + 1
      ensures Assoc(a + more, o + [op] + ops) == Assoc(b + more, p + [op] + ops)
    {
      Regroup(o, [op], ops);
      Regroup(p, [op], ops);
      assert |a| + |more| == |o| + |[op] + ops| + 1;
    }
  }

  const PRIORITY_MAX: nat := 0x7fff_ffff

  /** The end of `build_tree`: a missing last operand, or the final merge. */
  method FinishTree(ghost c: Chain, es: seq<Expr>, os: seq<OpAt>, err: seq<Diagnostic>)
    returns (tree: Expr, err': seq<Diagnostic>)
    requires Alternates(c) && Tracks(c.operands, c.ops, es, os) && err == c.err
    ensures
      if |c.operands| == |c.ops| then
        tree == Error && err' == c.err + if c.ops == [] then [] else [UnexpectedOperator(c.ops[|c.ops| - 1].at)]
      else tree == Assoc(c.operands, c.ops) && err' == c.err
  {
    hide Assoc, SameChain, SameBefore;
    if |es| == |os| {
      return Error, err + if os != [] then [UnexpectedOperator(os[|os| - 1].at)] else [];
    }
    var es', os' := MergeStacks(es, os, PRIORITY_MAX);
    SameChainEnd(c.operands, c.ops, es, os);
    SameBeforeEndOfChain(es, os, es', os', PRIORITY_MAX);
    AssocSingle(es'[0]);
    assert es' == [es'[0]];
    return es'[0], err;
  }

  lemma {:induction false} SameBeforeEndOfChain(a: seq<Expr>, o: seq<OpAt>, b: seq<Expr>, p: seq<OpAt>, priority: nat)
    requires |a| == |o| + 1 && |b| == |p| + 1 && SameBefore(a, o, b, p, priority)
    ensures Assoc(a, o) == Assoc(b, p)
  {
    hide Assoc;
    assert a + [] == a && o + [] == o && b + [] == b && p + [] == p;
  }

  lemma AssocSingle(e: Expr)
    ensures Assoc([e], []) == e
  {
  }

  /** `build_tree`: on every token range, well formed or not, the two stacks give the tree and the
      errors of the reference parser. */
  method BuildTree(s: string, tokens: seq<Token>, l: nat, r: nat, err0: seq<Diagnostic>)
    returns (tree: Expr, err: seq<Diagnostic>)
    requires Nested(tokens, l, r) && forall k :: l <= k < r ==> WellFormed(tokens[k], s)
    ensures tree == Build(s, tokens, l, r).0 && err == err0 + Build(s, tokens, l, r).1
    decreases r - l
  {
    if l == r {
      return Error, err0 + [EmptyExpression(if l == 0 then 0 else tokens[l - 1].l)];
    }
    tree, err := ScanTree(s, tokens, l, r, err0);
    CollectErr(s, tokens, l, r, Chain([], [], false, 0, []), err0);
    assert err0 + [] == err0;
  }

  method ScanTree(s: string, tokens: seq<Token>, l: nat, r: nat, err0: seq<Diagnostic>)
    returns (tree: Expr, err: seq<Diagnostic>)
    requires Nested(tokens, l, r) && l < r && forall k :: l <= k < r ==> WellFormed(tokens[k], s)
    ensures
      var c := Collect(s, tokens, l, r, Chain([], [], false, 0, err0));
      if |c.operands| == |c.ops| then
        tree == Error && err == c.err + if c.ops == [] then [] else [UnexpectedOperator(c.ops[|c.ops| - 1].at)]
      else tree == Assoc(c.operands, c.ops) && err == c.err
    decreases r - l, 0
  {
    hide Tracks, Assoc, Build, Nested, WellFormed;
    var es: seq<Expr>, os: seq<OpAt>, odd, lastNot := [], [], false, 0;
    err := err0;
    ghost var c := Chain([], [], false, 0, err0);
    TracksNothing();
    var i := l;
    while i < r
      invariant l <= i <= r && Nested(tokens, i, r)
      invariant Alternates(c) && Tracks(c.operands, c.ops, es, os) && odd == c.odd && lastNot == c.lastNot
        && err == c.err
      invariant Collect(s, tokens, l, r, Chain([], [], false, 0, err0)) == Collect(s, tokens, i, r, c)
      decreases r - i
    {
      NestedRest(tokens, i, r);
      var t := tokens[i];
      if t.kind in {KVariable, KNumber, KString} {
        es, err := PushOperand(c, es, os, odd, lastNot, Leaf(s, t), err);
        c, odd := WithOperand(c, Leaf(s, t)), false;
      } else if t.kind == KOpen {
        NestedInside(tokens, i, r, i);
        var sub;
        sub, err := BuildTree(s, tokens, i + 1, t.data, err);
        c := c.(err := err);
        es, err := PushOperand(c, es, os, odd, lastNot, sub, err);
        c, odd := WithOperand(c, sub), false;
        i := t.data;
      } else if t.kind == KNot {
        odd, lastNot := !odd, t.l;
        c := c.(odd := odd, lastNot := lastNot);
      } else if t.kind.KOp? {
        es, os, err := PushOp(c, es, os, OpAt(t.l, t.kind.op), err);
        c := WithOp(c, OpAt(t.l, t.kind.op));
      }
      i := i + 1;
    }
    tree, err := FinishTree(c, es, os, err);
  }
}
