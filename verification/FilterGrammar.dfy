/** What the parser does with a token range, without its priorities and stacks: how operators bind, what
    pending NOTs do and which ranges are accepted. */
module FilterGrammar {
  import opened FilterAst
  import opened FilterTokens
  import opened FilterParser

  // ---------- how operators bind ----------

  /** Operator `m` is where a chain is split: at its last `||`; without one, at its last `&&`; and without
      either at its last operator. */
  predicate SplitsAt(ops: seq<BinOp>, m: nat) {
    && m < |ops|
    && if Or in ops then ops[m] == Or && Or !in ops[m + 1..]
       else if And in ops then ops[m] == And && And !in ops[m + 1..]
       else m == |ops| - 1
  }

  function Ops(ops: seq<OpAt>): (r: seq<BinOp>)
    ensures |r| == |ops| && forall k :: 0 <= k < |ops| ==> r[k] == ops[k].op
  {
    seq(|ops|, k requires 0 <= k < |ops| => ops[k].op)
  }

  /** The tree of a chain has the splitting operator at its root. */
  lemma {:induction false} AssocSplitsAt(operands: seq<Expr>, ops: seq<OpAt>, m: nat)
    requires |operands| == |ops| + 1 && SplitsAt(Ops(ops), m)
    ensures Assoc(operands, ops) ==
      Binary(ops[m].at, ops[m].op, Assoc(operands[..m + 1], ops[..m]), Assoc(operands[m + 1..], ops[m + 1..]))
  {
    hide Assoc;
    var names := Ops(ops);
    forall k | 0 <= k < |ops| ensures Pr(ops[k]) <= Pr(ops[m]) && (m < k ==> Pr(ops[k]) < Pr(ops[m])) {
      assert names[k] in names;
      assert m < k ==> names[m + 1..][k - m - 1] == names[k];
    }
    AssocSplit(operands, ops, m);
  }

  // ---------- token ranges ----------

  /** No parenthesis that opens in `l..p` is still open at `p`. */
  predicate Outside(tokens: seq<Token>, l: nat, p: nat)
    requires p <= |tokens|
  {
    forall i :: l <= i < p && tokens[i].kind == KOpen ==> tokens[i].data < p
  }

  /** What the passes before the parser leave: linked parentheses that nest, and tokens that fit the text. */
  ghost predicate Readable(s: string, tokens: seq<Token>, l: nat, r: nat) {
    && Nested(tokens, l, r) && (forall k :: l <= k < r ==> WellFormed(tokens[k], s))
    && forall i :: l <= i < r && tokens[i].kind == KOpen ==> tokens[tokens[i].data].kind == KClose
  }

  lemma ReadableParts(s: string, tokens: seq<Token>, l: nat, r: nat, p: nat)
    requires Readable(s, tokens, l, r) && l <= p <= r && Outside(tokens, l, p)
    ensures Readable(s, tokens, l, p) && Readable(s, tokens, p, r)
  {
  }

  /** The first step of a scan: where it goes on, and what it has gathered. */
  ghost function Step(s: string, tokens: seq<Token>, i: nat, r: nat, c: Chain): (next: (nat, Chain))
    requires Readable(s, tokens, i, r) && i < r && Alternates(c)
    ensures i < next.0 <= r && Readable(s, tokens, next.0, r) && Alternates(next.1)
  {
    NestedRest(tokens, i, r);
    var t := tokens[i];
    if t.kind in {KVariable, KNumber, KString} then (i + 1, WithOperand(c, Leaf(s, t)))
    else if t.kind == KOpen then
      NestedInside(tokens, i, r, i);
      var (tree, err) := Build(s, tokens, i + 1, t.data);
      (t.data + 1, WithOperand(c.(err := c.err + err), tree))
    else if t.kind == KNot then (i + 1, c.(odd := !c.odd, lastNot := t.l))
    else if t.kind.KOp? then (i + 1, WithOp(c, OpAt(t.l, t.kind.op)))
    else (i + 1, c)
  }

  lemma {:induction false} CollectStep(s: string, tokens: seq<Token>, i: nat, r: nat, c: Chain)
    requires Readable(s, tokens, i, r) && Alternates(c)
    ensures i == r ==> Collect(s, tokens, i, r, c) == c
    ensures i < r ==> var (n, d) := Step(s, tokens, i, r, c); Collect(s, tokens, i, r, c) == Collect(s, tokens, n, r, d)
  {
    hide Build, Nested, WellFormed, WithOperand, WithOp, Alternates, Leaf;
  }

  /** The step does not depend on where the range ends. */
  lemma StepShort(s: string, tokens: seq<Token>, i: nat, p: nat, r: nat, c: Chain)
    requires Readable(s, tokens, i, r) && i < p <= r && Outside(tokens, i, p) && Alternates(c)
    ensures Readable(s, tokens, i, p) && Step(s, tokens, i, p, c) == Step(s, tokens, i, r, c)
    ensures Step(s, tokens, i, r, c).0 <= p && Outside(tokens, Step(s, tokens, i, r, c).0, p)
  {
    ReadableParts(s, tokens, i, r, p);
    hide Build, Nested, WellFormed, WithOperand, WithOp, Alternates, Leaf;
  }

  /** A scan can be interrupted outside of parentheses. */
  lemma {:induction false} CollectSplit(s: string, tokens: seq<Token>, i: nat, p: nat, r: nat, c: Chain)
    requires Readable(s, tokens, i, r) && i <= p <= r && Outside(tokens, i, p) && Alternates(c)
    ensures Readable(s, tokens, i, p) && Readable(s, tokens, p, r)
    ensures Collect(s, tokens, i, r, c) == Collect(s, tokens, p, r, Collect(s, tokens, i, p, c))
    decreases p - i
  {
    ReadableParts(s, tokens, i, r, p);
    hide Collect, Step, Readable, Outside, Alternates;
    CollectStep(s, tokens, i, p, c);
    if i < p {
      CollectStep(s, tokens, i, r, c);
      StepShort(s, tokens, i, p, r, c);
      var (n, d) := Step(s, tokens, i, r, c);
      CollectSplit(s, tokens, n, p, r, d);
    }
  }

  /** `e` is what `d` is, behind what `c` has gathered. */
  ghost predicate InFront(c: Chain, d: Chain, e: Chain) {
    e.operands == c.operands + d.operands && e.ops == c.ops + d.ops && e.err == c.err + d.err && e.odd == d.odd
    && (d.odd ==> e.lastNot == d.lastNot)
  }

  lemma StepInFront(s: string, tokens: seq<Token>, i: nat, r: nat, c: Chain, d: Chain, e: Chain)
    requires Readable(s, tokens, i, r) && i < r && Alternates(d) && Alternates(e)
    requires |c.operands| == |c.ops| && InFront(c, d, e)
    ensures Step(s, tokens, i, r, d).0 == Step(s, tokens, i, r, e).0
    ensures InFront(c, Step(s, tokens, i, r, d).1, Step(s, tokens, i, r, e).1)
  {
    hide Build, Nested, WellFormed, Leaf;
  }

  lemma {:induction false} CollectInFront(s: string, tokens: seq<Token>, i: nat, r: nat, c: Chain, d: Chain, e: Chain)
    requires Readable(s, tokens, i, r) && Alternates(d) && Alternates(e) && |c.operands| == |c.ops| && InFront(c, d, e)
    ensures InFront(c, Collect(s, tokens, i, r, d), Collect(s, tokens, i, r, e))
    decreases r - i
  {
    assert i <= r;
    hide Collect, Step, Readable, Alternates, InFront;
    CollectStep(s, tokens, i, r, d);
    CollectStep(s, tokens, i, r, e);
    if i < r {
      StepInFront(s, tokens, i, r, c, d, e);
      var n := Step(s, tokens, i, r, d).0;
      CollectInFront(s, tokens, n, r, c, Step(s, tokens, i, r, d).1, Step(s, tokens, i, r, e).1);
    }
  }

  /** Errors are never taken back. */
  lemma {:induction false} CollectKeepsErr(s: string, tokens: seq<Token>, i: nat, r: nat, c: Chain)
    requires Readable(s, tokens, i, r) && Alternates(c)
    ensures |c.err| <= |Collect(s, tokens, i, r, c).err|
    decreases r - i
  {
    assert i <= r;
    CollectStep(s, tokens, i, r, c);
    hide Collect, Readable, Build, Leaf;
    if i < r {
      var (n, d) := Step(s, tokens, i, r, c);
      CollectKeepsErr(s, tokens, n, r, d);
    }
  }

  /** The token at `k` is an operator of this kind outside of parentheses. */
  predicate OpToken(tokens: seq<Token>, l: nat, k: nat, op: BinOp) {
    l <= k < |tokens| && Outside(tokens, l, k) && tokens[k].kind == KOp(op)
  }

  /** Every gathered operator is one of the range's own. */
  lemma {:induction false} CollectedOps(s: string, tokens: seq<Token>, i: nat, r: nat, c: Chain, op: BinOp)
    requires Readable(s, tokens, i, r) && Alternates(c) && op !in Ops(c.ops)
    requires forall k :: i <= k < r ==> !OpToken(tokens, i, k, op)
    ensures op !in Ops(Collect(s, tokens, i, r, c).ops)
    decreases r - i
  {
    assert i <= r;
    CollectStep(s, tokens, i, r, c);
    hide Collect, Build, Leaf, WellFormed, Alternates;
    if i < r {
      var (n, d) := Step(s, tokens, i, r, c);
      NoOpBehind(tokens, i, n, r, op);
      assert d.ops == c.ops || (tokens[i].kind.KOp? && d.ops == c.ops + [OpAt(tokens[i].l, tokens[i].kind.op)]);
      assert !OpToken(tokens, i, i, op);
      assert op !in Ops(d.ops);
      CollectedOps(s, tokens, n, r, d, op);
    }
  }

  lemma NoOpBehind(tokens: seq<Token>, i: nat, n: nat, r: nat, op: BinOp)
    requires i < n <= r <= |tokens| && n == (if tokens[i].kind == KOpen then tokens[i].data + 1 else i + 1)
    requires Nested(tokens, i, r) && forall k :: i <= k < r ==> !OpToken(tokens, i, k, op)
    requires tokens[i].kind == KOpen ==> tokens[tokens[i].data].kind == KClose
    ensures forall k :: n <= k < r ==> !OpToken(tokens, n, k, op)
  {
    forall k | n <= k < r && OpToken(tokens, n, k, op) ensures OpToken(tokens, i, k, op) {
      forall j | i <= j < k && tokens[j].kind == KOpen ensures tokens[j].data < k {
        if i < j < n {
          assert tokens[i].kind == KOpen && j < tokens[i].data;
        }
      }
    }
  }

  /**
   * Which operator token of a range is its root: the last `||` outside of parentheses; without one the
   * last `&&`; and without either the last operator.
   */
  predicate RootToken(tokens: seq<Token>, l: nat, r: nat, p: nat)
    requires l <= p < r <= |tokens|
  {
    && Outside(tokens, l, p) && tokens[p].kind.KOp?
    && if exists k :: l <= k < r && OpToken(tokens, l, k, Or) then
         tokens[p].kind.op == Or && forall k :: p < k < r ==> !OpToken(tokens, l, k, Or)
       else if exists k :: l <= k < r && OpToken(tokens, l, k, And) then
         tokens[p].kind.op == And && forall k :: p < k < r ==> !OpToken(tokens, l, k, And)
       else forall k, op :: p < k < r ==> !OpToken(tokens, l, k, op)
  }

  /** The chain of an accepted range, seen from one of its operators that no pending NOT precedes. */
  lemma ChainAt(s: string, tokens: seq<Token>, l: nat, r: nat, p: nat)
    requires Readable(s, tokens, l, r) && l <= p < r && Outside(tokens, l, p) && tokens[p].kind.KOp?
    requires Build(s, tokens, l, r).1 == [] && EndsOperand(tokens, l, p)
    ensures l < p && p + 1 < r && Readable(s, tokens, l, p) && Readable(s, tokens, p + 1, r)
    ensures
      var none := Chain([], [], false, 0, []);
      var c, d := Collect(s, tokens, l, p, none), Collect(s, tokens, p + 1, r, none);
      var e := Collect(s, tokens, l, r, none);
      && |c.operands| == |c.ops| + 1 && |d.operands| == |d.ops| + 1 && c.err == d.err == []
      && e.operands == c.operands + d.operands && e.ops == c.ops + [OpAt(tokens[p].l, tokens[p].kind.op)] + d.ops
  {
    var none := Chain([], [], false, 0, []);
    CollectSplit(s, tokens, l, p, r, none);
    ReadableParts(s, tokens, l, r, p);
    Accepted(s, tokens, l, r);
    NothingPending(s, tokens, l, p, none);
    StepAtOp(s, tokens, p, r, Collect(s, tokens, l, p, none));
  }

  /** What is gathered when nothing is reported. */
  lemma {:induction false} Accepted(s: string, tokens: seq<Token>, l: nat, r: nat)
    requires Readable(s, tokens, l, r) && Build(s, tokens, l, r).1 == []
    ensures
      var e := Collect(s, tokens, l, r, Chain([], [], false, 0, []));
      l < r && e.err == [] && (|e.operands| == |e.ops| ==> e.ops == [])
  {
    hide Collect, Assoc;
  }

  lemma StepAtOp(s: string, tokens: seq<Token>, p: nat, r: nat, c: Chain)
    requires Readable(s, tokens, p, r) && p < r && tokens[p].kind.KOp? && Alternates(c) && !c.odd
    requires var e := Collect(s, tokens, p, r, c); e.err == [] && (|e.operands| == |e.ops| ==> e.ops == [])
    ensures p + 1 < r && Readable(s, tokens, p + 1, r) && c.err == [] && |c.operands| == |c.ops| + 1
    ensures
      var d, e := Collect(s, tokens, p + 1, r, Chain([], [], false, 0, [])), Collect(s, tokens, p, r, c);
      && |d.operands| == |d.ops| + 1 && d.err == []
      && e.operands == c.operands + d.operands && e.ops == c.ops + [OpAt(tokens[p].l, tokens[p].kind.op)] + d.ops
  {
    CollectStep(s, tokens, p, r, c);
    var op := OpAt(tokens[p].l, tokens[p].kind.op);
    var front := WithOp(c, op);
    CollectKeepsErr(s, tokens, p + 1, r, front);
    var none := Chain([], [], false, 0, []);
    hide Collect, Readable, Step;
    assert |front.err| == 0;
    CollectInFront(s, tokens, p + 1, r, front, none, front);
    CollectStep(s, tokens, p + 1, r, front);
    CollectStep(s, tokens, p + 1, r, none);
  }

  /** An operand ends right before `p`. */
  predicate EndsOperand(tokens: seq<Token>, l: nat, p: nat)
    requires p <= |tokens|
  {
    l < p &&
    (|| tokens[p - 1].kind in {KVariable, KNumber, KString}
     || exists i :: l <= i < p - 1 && tokens[i].kind == KOpen && tokens[i].data == p - 1)
  }

  /** No NOT is pending behind an operand. */
  lemma {:induction false} NothingPending(s: string, tokens: seq<Token>, i: nat, r: nat, c: Chain)
    requires Readable(s, tokens, i, r) && Alternates(c) && EndsOperand(tokens, i, r)
    ensures !Collect(s, tokens, i, r, c).odd
    decreases r - i
  {
    CollectStep(s, tokens, i, r, c);
    var (n, d) := Step(s, tokens, i, r, c);
    StepEnds(s, tokens, i, r, c);
    if n < r {
      NothingPending(s, tokens, n, r, d);
    } else {
      CollectStep(s, tokens, n, r, d);
    }
  }

  lemma InsideOpen(tokens: seq<Token>, i: nat, r: nat, j: nat)
    requires Nested(tokens, i, r) && i < j < r && tokens[i].kind == KOpen && tokens[j].kind == KOpen
    ensures j < tokens[i].data ==> tokens[j].data < tokens[i].data
  {
  }

  lemma StepEnds(s: string, tokens: seq<Token>, i: nat, r: nat, c: Chain)
    requires Readable(s, tokens, i, r) && i < r && Alternates(c) && EndsOperand(tokens, i, r)
    ensures var (n, d) := Step(s, tokens, i, r, c); if n < r then EndsOperand(tokens, n, r) else !d.odd
  {
    hide Build, Leaf, WellFormed;
    var n := Step(s, tokens, i, r, c).0;
    if j :| i <= j < r - 1 && tokens[j].kind == KOpen && tokens[j].data == r - 1 {
      if i < j && tokens[i].kind == KOpen {
        InsideOpen(tokens, i, r, j);
      }
    }
  }

  /** The tree of an accepted range has its root token at the root, with the trees of both sides below. */
  lemma BuildBinds(s: string, tokens: seq<Token>, l: nat, r: nat, p: nat)
    requires Readable(s, tokens, l, r) && l <= p < r && Build(s, tokens, l, r).1 == []
    requires RootToken(tokens, l, r, p) && EndsOperand(tokens, l, p)
    ensures Readable(s, tokens, l, p) && Readable(s, tokens, p + 1, r)
    ensures Build(s, tokens, l, p).1 == [] && Build(s, tokens, p + 1, r).1 == []
    ensures Build(s, tokens, l, r).0 ==
      Binary(tokens[p].l, tokens[p].kind.op, Build(s, tokens, l, p).0, Build(s, tokens, p + 1, r).0)
  {
    hide Collect, Assoc, Readable, Ops, Build, EndsOperand, Outside;
    ChainAt(s, tokens, l, r, p);
    BuildIs(s, tokens, l, r);
    BuildIs(s, tokens, l, p);
    BuildIs(s, tokens, p + 1, r);
    var none := Chain([], [], false, 0, []);
    var c, d := Collect(s, tokens, l, p, none), Collect(s, tokens, p + 1, r, none);
    var ops, m := c.ops + [OpAt(tokens[p].l, tokens[p].kind.op)] + d.ops, |c.ops|;
    RootSplits(s, tokens, l, r, p);
    AssocSplitsAt(c.operands + d.operands, ops, m);
    assert (c.operands + d.operands)[..m + 1] == c.operands && (c.operands + d.operands)[m + 1..] == d.operands;
    assert ops[..m] == c.ops && ops[m + 1..] == d.ops;
  }

  lemma RootSplits(s: string, tokens: seq<Token>, l: nat, r: nat, p: nat)
    requires Readable(s, tokens, l, r) && l <= p < r && Build(s, tokens, l, r).1 == []
    requires RootToken(tokens, l, r, p) && EndsOperand(tokens, l, p)
    ensures
      var none := Chain([], [], false, 0, []);
      Readable(s, tokens, l, p) && Readable(s, tokens, p + 1, r) &&
      SplitsAt(Ops(Collect(s, tokens, l, p, none).ops + [OpAt(tokens[p].l, tokens[p].kind.op)]
                   + Collect(s, tokens, p + 1, r, none).ops), |Collect(s, tokens, l, p, none).ops|)
  {
    hide Collect, Build, Readable, EndsOperand, Outside;
    ChainAt(s, tokens, l, r, p);
    OpsFound(s, tokens, l, r, p, Or);
    OpsFound(s, tokens, l, r, p, And);
    var none := Chain([], [], false, 0, []);
    var c, d := Collect(s, tokens, l, p, none), Collect(s, tokens, p + 1, r, none);
    var orThere, andThere := exists k :: l <= k < r && OpToken(tokens, l, k, Or),
                             exists k :: l <= k < r && OpToken(tokens, l, k, And);
    if !orThere && !andThere && d.ops != [] {
      assert Ops(d.ops)[0] in Ops(d.ops);
      OpsFound(s, tokens, l, r, p, d.ops[0].op);
    }
    var o := OpAt(tokens[p].l, tokens[p].kind.op);
    assert Ops(c.ops + [o] + d.ops) == Ops(c.ops) + [o.op] + Ops(d.ops);
    SplitParts(Ops(c.ops), o.op, Ops(d.ops), orThere, andThere);
  }

  lemma SplitParts(before: seq<BinOp>, op: BinOp, behind: seq<BinOp>, orThere: bool, andThere: bool)
    requires Or in before + [op] + behind ==> orThere
    requires And in before + [op] + behind ==> andThere
    requires if orThere then op == Or && Or !in behind
             else if andThere then op == And && And !in behind else behind == []
    ensures SplitsAt(before + [op] + behind, |before|)
  {
    var ops := before + [op] + behind;
    assert ops[|before|] == op && ops[|before| + 1..] == behind;
    assert op in ops;
  }

  /** An operator that was gathered is in the range, and one gathered behind `p` is there behind `p`. */
  lemma OpsFound(s: string, tokens: seq<Token>, l: nat, r: nat, p: nat, op: BinOp)
    requires Readable(s, tokens, l, r) && l <= p < r && Build(s, tokens, l, r).1 == []
    requires Outside(tokens, l, p) && tokens[p].kind.KOp? && EndsOperand(tokens, l, p)
    ensures
      var none := Chain([], [], false, 0, []);
      && Readable(s, tokens, l, p) && Readable(s, tokens, p + 1, r)
      && var before, behind := Ops(Collect(s, tokens, l, p, none).ops), Ops(Collect(s, tokens, p + 1, r, none).ops);
         && (op in before + [tokens[p].kind.op] + behind ==> exists k :: l <= k < r && OpToken(tokens, l, k, op))
         && (op in behind ==> exists k :: p < k < r && OpToken(tokens, l, k, op))
  {
    hide Collect, Build, EndsOperand, Readable;
    ChainAt(s, tokens, l, r, p);
    var none := Chain([], [], false, 0, []);
    assert Ops([]) == [];
    var before, behind := Ops(Collect(s, tokens, l, p, none).ops), Ops(Collect(s, tokens, p + 1, r, none).ops);
    assert OpToken(tokens, l, p, tokens[p].kind.op);
    if op in before && forall k :: l <= k < p ==> !OpToken(tokens, l, k, op) {
      CollectedOps(s, tokens, l, p, none, op);
    }
    if op in behind {
      var q := p + 1;
      if forall k :: q <= k < r ==> !OpToken(tokens, q, k, op) {
        CollectedOps(s, tokens, q, r, none, op);
      }
      var k :| q <= k < r && OpToken(tokens, q, k, op);
      OutsideFurther(tokens, l, p, k);
      assert OpToken(tokens, l, k, op);
    }
  }

  lemma OutsideFurther(tokens: seq<Token>, l: nat, p: nat, k: nat)
    requires l <= p < k <= |tokens| && Outside(tokens, l, p) && tokens[p].kind.KOp? && Outside(tokens, p + 1, k)
    ensures Outside(tokens, l, k)
  {
  }

  lemma {:induction false} BuildIs(s: string, tokens: seq<Token>, l: nat, r: nat)
    requires Readable(s, tokens, l, r) && l < r
    ensures
      var c := Collect(s, tokens, l, r, Chain([], [], false, 0, []));
      |c.operands| != |c.ops| ==> Build(s, tokens, l, r) == (Assoc(c.operands, c.ops), c.err)
  {
    hide Collect, Assoc;
  }

  // ---------- pending NOTs ----------

  /** Adjacent NOTs before one operand cancel in pairs, and the last of an odd number stays. */
  lemma NotsCancel(s: string, tokens: seq<Token>, l: nat, m: nat, r: nat)
    requires Readable(s, tokens, l, r) && l <= m < r && forall k :: l <= k < m ==> tokens[k].kind == KNot
    requires if tokens[m].kind == KOpen then tokens[m].data == r - 1
             else tokens[m].kind in {KVariable, KNumber, KString} && m == r - 1
    ensures Readable(s, tokens, m, r)
    ensures
      var (tree, err) := Build(s, tokens, m, r);
      Build(s, tokens, l, r) == (if (m - l) % 2 == 1 then Not(tokens[m - 1].l, tree) else tree, err)
  {
    var none := Chain([], [], false, 0, []);
    ReadableParts(s, tokens, l, r, m);
    PendingNots(s, tokens, l, m, r, none);
    hide Collect, Readable, Build, Leaf;
    var odd := (m - l) % 2 == 1;
    var c := none.(odd := odd, lastNot := if l < m then tokens[m - 1].l else 0);
    OneOperand(s, tokens, m, r, c);
    OneOperand(s, tokens, m, r, none);
    BuildIs(s, tokens, l, r);
    BuildIs(s, tokens, m, r);
  }

  lemma {:induction false} PendingNots(s: string, tokens: seq<Token>, i: nat, m: nat, r: nat, c: Chain)
    requires Readable(s, tokens, i, r) && Readable(s, tokens, m, r) && i <= m < r && Alternates(c)
    requires forall k :: i <= k < m ==> tokens[k].kind == KNot
    ensures
      var odd, lastNot := c.odd != ((m - i) % 2 == 1), if i < m then tokens[m - 1].l else c.lastNot;
      Collect(s, tokens, i, r, c) == Collect(s, tokens, m, r, c.(odd := odd, lastNot := lastNot))
    decreases m - i
  {
    if i < m {
      CollectStep(s, tokens, i, r, c);
      var d := c.(odd := !c.odd, lastNot := tokens[i].l);
      PendingNots(s, tokens, i + 1, m, r, d);
    }
  }

  lemma OneOperand(s: string, tokens: seq<Token>, m: nat, r: nat, c: Chain)
    requires Readable(s, tokens, m, r) && m < r && c.operands == [] && c.ops == [] && c.err == []
    requires if tokens[m].kind == KOpen then tokens[m].data == r - 1
             else tokens[m].kind in {KVariable, KNumber, KString} && m == r - 1
    ensures tokens[m].kind == KOpen ==> Readable(s, tokens, m + 1, r - 1)
    ensures
      var d := Collect(s, tokens, m, r, c);
      var (tree, err) := if tokens[m].kind == KOpen then Build(s, tokens, m + 1, r - 1) else (Leaf(s, tokens[m]), []);
      && d.operands == [Negated(c.odd, c.lastNot, tree)] && d.ops == [] && d.err == err
      && Assoc(d.operands, d.ops) == Negated(c.odd, c.lastNot, tree)
  {
    CollectStep(s, tokens, m, r, c);
    var (n, d) := Step(s, tokens, m, r, c);
    CollectStep(s, tokens, n, r, d);
    hide Collect, Build;
  }

  // ---------- which ranges are accepted ----------

  /**
   * From token `i` on, with an operand wanted next or not: operands and operators take turns, the last
   * is an operand, what is in parentheses reads as a whole, and NOTs may stand anywhere.
   */
  predicate Reads(tokens: seq<Token>, i: nat, r: nat, want: bool)
    requires Nested(tokens, i, r)
    decreases r - i
  {
    if i == r then !want
    else
      NestedRest(tokens, i, r);
      var t := tokens[i];
      if t.kind in {KVariable, KNumber, KString} then want && Reads(tokens, i + 1, r, false)
      else if t.kind == KOpen then
        NestedInside(tokens, i, r, i);
        want && Reads(tokens, i + 1, t.data, true) && Reads(tokens, t.data + 1, r, false)
      else if t.kind.KOp? then !want && Reads(tokens, i + 1, r, true)
      else Reads(tokens, i + 1, r, want)
  }

  ghost predicate Sound(operands: seq<Expr>) {
    forall k :: 0 <= k < |operands| ==> !HasError(operands[k])
  }

  lemma {:induction false} AssocSound(operands: seq<Expr>, ops: seq<OpAt>)
    requires |operands| == |ops| + 1
    ensures !HasError(Assoc(operands, ops)) <==> Sound(operands)
    decreases |ops|
  {
    if ops != [] {
      var m := LastLoosest(ops);
      var a, b := operands[..m + 1], operands[m + 1..];
      AssocSound(a, ops[..m]);
      AssocSound(b, ops[m + 1..]);
      assert operands == a + b;
      assert Sound(a) && Sound(b) <==> Sound(a + b) by {
        if Sound(a + b) {
          assert forall k :: 0 <= k < |a| ==> a[k] == (a + b)[k];
          assert forall k :: 0 <= k < |b| ==> b[k] == (a + b)[|a| + k];
        }
      }
    }
  }

  ghost predicate Clean(c: Chain) {
    c.err == [] && Sound(c.operands)
  }

  /** A range is parsed without a report, and without an error node in its tree, iff it reads as an expression. */
  lemma {:induction false} AcceptedIff(s: string, tokens: seq<Token>, l: nat, r: nat)
    requires Readable(s, tokens, l, r)
    ensures Build(s, tokens, l, r).1 == [] && !HasError(Build(s, tokens, l, r).0) <==> Reads(tokens, l, r, true)
    decreases r - l, 1
  {
    if l < r {
      var none := Chain([], [], false, 0, []);
      var c := Collect(s, tokens, l, r, none);
      CollectReads(s, tokens, l, r, none);
      hide Collect, Assoc;
      if |c.operands| != |c.ops| {
        AssocSound(c.operands, c.ops);
      }
    }
  }

  lemma {:induction false} CollectReads(s: string, tokens: seq<Token>, i: nat, r: nat, c: Chain)
    requires Readable(s, tokens, i, r) && Alternates(c)
    ensures
      var d := Collect(s, tokens, i, r, c);
      Clean(d) && |d.operands| > |d.ops| <==> Clean(c) && Reads(tokens, i, r, |c.operands| == |c.ops|)
    decreases r - i, 0
  {
    CollectStep(s, tokens, i, r, c);
    if i < r {
      var (n, d) := Step(s, tokens, i, r, c);
      CollectReads(s, tokens, n, r, d);
      if tokens[i].kind == KOpen {
        NestedInside(tokens, i, r, i);
        AcceptedIff(s, tokens, i + 1, tokens[i].data);
      }
      hide Collect, Build;
      StepReads(s, tokens, i, r, c);
    }
  }

  lemma StepReads(s: string, tokens: seq<Token>, i: nat, r: nat, c: Chain)
    requires Readable(s, tokens, i, r) && i < r && Alternates(c)
    requires tokens[i].kind == KOpen ==>
      && Readable(s, tokens, i + 1, tokens[i].data)
      && (Build(s, tokens, i + 1, tokens[i].data).1 == [] && !HasError(Build(s, tokens, i + 1, tokens[i].data).0)
          <==> Reads(tokens, i + 1, tokens[i].data, true))
    ensures var (n, d) := Step(s, tokens, i, r, c);
      Clean(d) && Reads(tokens, n, r, |d.operands| == |d.ops|) <==>
      Clean(c) && Reads(tokens, i, r, |c.operands| == |c.ops|)
  {
    hide Build, WellFormed, Collect, WithOperand, Clean, HasError;
    var t := tokens[i];
    if t.kind in {KVariable, KNumber, KString} {
      LeafSound(s, t);
      CleanOperand(c, Leaf(s, t), []);
      assert c.(err := c.err + []) == c;
    } else if t.kind == KOpen {
      var (tree, err) := Build(s, tokens, i + 1, t.data);
      CleanOperand(c, tree, err);
    } else {
      CleanOther(c, t.l);
      if t.kind.KOp? {
        CleanOp(c, OpAt(t.l, t.kind.op));
      }
    }
  }

  lemma LeafSound(s: string, t: Token)
    requires WellFormed(t, s) && t.kind in {KVariable, KNumber, KString}
    ensures !HasError(Leaf(s, t))
  {
  }

  lemma {:induction false} CleanOperand(c: Chain, tree: Expr, err: seq<Diagnostic>)
    requires Alternates(c)
    ensures var d := WithOperand(c.(err := c.err + err), tree);
      && (Clean(d) <==> Clean(c) && |c.operands| == |c.ops| && err == [] && !HasError(tree))
      && (|c.operands| == |c.ops| ==> |d.operands| == |d.ops| + 1)
  {
    var d := WithOperand(c.(err := c.err + err), tree);
    if |c.operands| == |c.ops| {
      assert d.operands[..|c.operands|] == c.operands;
      assert Sound(d.operands) ==> !HasError(d.operands[|c.operands|]);
      assert Sound(d.operands) ==> forall k :: 0 <= k < |c.operands| ==> !HasError(d.operands[k]);
    }
  }

  lemma CleanOther(c: Chain, at: int)
    ensures Clean(c.(odd := !c.odd, lastNot := at)) <==> Clean(c)
  {
  }

  lemma CleanOp(c: Chain, op: OpAt)
    requires Alternates(c)
    ensures Clean(WithOp(c, op)) <==> Clean(c) && |c.operands| == |c.ops| + 1
  {
  }
}
