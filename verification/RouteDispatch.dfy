/** What dispatch without backtracking means for each registered path. */
module RouteDispatch {
  import opened Shared
  import opened RouteSpec

  /** Segment `k` of the rule takes part `k`: its literal is equal, or it is a variable and no rule with the same steps
      before has the literal. */
  ghost predicate Takes(D: set<Rule>, d: Rule, parts: seq<string>, k: nat)
    requires k < |d.segs| && k < |parts|
  {
    match d.segs[k]
    case Lit(text) => text == parts[k]
    case Var(_) => !Passes(D, Key(d.segs)[..k] + [Go(parts[k])])
  }

  /** Dispatch only goes further down, so it answers with a rule that begins with the steps taken. */
  lemma {:induction false} AnswerBelow(D: set<Rule>, p: seq<Step>, parts: seq<string>, vars: map<string, string>)
    ensures var r := Dispatch(D, p, parts, vars).0;
            r.Some? ==> r.value in D && p <= Key(r.value.segs) && |r.value.segs| == |p| + |parts|
    decreases |parts|
  {
    if parts != [] {
      var go, any := p + [Go(parts[0])], p + [Any];
      if Passes(D, go) {
        AnswerBelow(D, go, parts[1..], vars);
      } else if Passes(D, any) {
        AnswerBelow(D, any, parts[1..], vars[NameAt(D, p) := parts[0]]);
      }
    }
  }

  /** A rule answers iff it has as many segments as the request and takes each of its parts. */
  lemma {:induction false} AnswersFrom(D: set<Rule>, d: Rule, parts: seq<string>, vars: map<string, string>, i: nat)
    requires Consistent(D) && d in D && i <= |parts| && i <= |d.segs|
    ensures Dispatch(D, Key(d.segs)[..i], parts[i..], vars).0 == Some(d) <==>
      |d.segs| == |parts| && forall k :: i <= k < |parts| ==> Takes(D, d, parts, k)
    decreases |parts| - i
  {
    hide Takes, Dispatch, Passes;
    var key := Key(d.segs);
    var p, rest := key[..i], parts[i..];
    AnswerBelow(D, p, rest, vars);
    if i == |parts| {
      AtEnd(D, d, vars, i);
      assert parts[i..] == [];
    } else if i == |d.segs| {
    } else {
      Further(D, d, parts, vars, i);
      var v := Bind(d.segs[i], parts[i], vars);
      AnswersFrom(D, d, parts, v, i + 1);
    }
  }

  lemma {:induction false} AtEnd(D: set<Rule>, d: Rule, vars: map<string, string>, i: nat)
    requires Consistent(D) && d in D && i <= |d.segs|
    ensures Dispatch(D, Key(d.segs)[..i], [], vars).0 == Some(d) <==> i == |d.segs|
  {
    var p := Key(d.segs)[..i];
    if Ends(D, p) {
      var e := RuleAt(D, p);
      if i == |d.segs| {
        assert p == Key(d.segs);
        assert Clash(d.segs, e.segs);
      }
    } else {
      assert i == |d.segs| ==> p == Key(d.segs);
    }
  }

  lemma NextStep(p: seq<Step>, step: Step, key: seq<Step>)
    requires |p| < |key|
    ensures p + [step] <= key <==> p <= key && key[|p|] == step
  {
    if p + [step] <= key {
      assert (p + [step])[|p|] == key[|p|];
      assert (p + [step])[..|p|] == p;
    }
    if p <= key && key[|p|] == step {
      assert p + [step] == key[..|p| + 1];
    }
  }

  /** One step of dispatch at a prefix of a rule: on along the rule if it takes the part, else away from it. */
  lemma {:induction false} Further(D: set<Rule>, d: Rule, parts: seq<string>, vars: map<string, string>, i: nat)
    requires Consistent(D) && d in D && i < |parts| && i < |d.segs|
    ensures var r := Dispatch(D, Key(d.segs)[..i], parts[i..], vars);
            var v := Bind(d.segs[i], parts[i], vars);
            if Takes(D, d, parts, i) then r == Dispatch(D, Key(d.segs)[..i + 1], parts[i + 1..], v)
            else r.0 != Some(d)
  {
    var key := Key(d.segs);
    var p := key[..i];
    var go, any := p + [Go(parts[i])], p + [Any];
    assert parts[i..][0] == parts[i] && parts[i..][1..] == parts[i + 1..];
    assert key[..i + 1] == p + [key[i]];
    assert key[..i + 1] <= key;
    if Passes(D, go) {
      AnswerBelow(D, go, parts[i + 1..], vars);
      NextStep(p, Go(parts[i]), key);
    } else if d.segs[i].Lit? {
      if Passes(D, any) {
        AnswerBelow(D, any, parts[i + 1..], vars[NameAt(D, p) := parts[i]]);
        NextStep(p, Any, key);
      }
    } else {
      assert any == key[..i + 1];
      SameName(D, d, i);
    }
  }

  /** All rules that share a variable give it the same name. */
  lemma SameName(D: set<Rule>, d: Rule, i: nat)
    requires Consistent(D) && d in D && i < |d.segs| && d.segs[i].Var?
    ensures var p := Key(d.segs)[..i]; Passes(D, p + [Any]) && NameAt(D, p) == d.segs[i].name
  {
    var p := Key(d.segs)[..i];
    assert Key(d.segs)[..i + 1] == p + [Any];
    assert p + [Any] <= Key(d.segs);
    var e := RuleThrough(D, p + [Any]);
    NextIsVar(e.segs, p);
    assert (p + [Any])[..i] == Key(e.segs)[..i + 1][..i] == Key(e.segs)[..i];
    if e != d {
      assert !NamesClash(d.segs, e.segs, i);
    }
  }

  /** The bindings that the variables of a rule make, from segment `i` on. */
  function Bound(segs: seq<Seg>, parts: seq<string>, i: nat, vars: map<string, string>): map<string, string>
    requires i <= |segs| == |parts|
    decreases |segs| - i
  {
    if i == |segs| then vars
    else Bound(segs, parts, i + 1, Bind(segs[i], parts[i], vars))
  }

  lemma {:induction false} AnswerBinds(D: set<Rule>, d: Rule, parts: seq<string>, vars: map<string, string>, i: nat)
    requires Consistent(D) && d in D && i <= |parts| == |d.segs|
    requires forall k :: i <= k < |parts| ==> Takes(D, d, parts, k)
    ensures Dispatch(D, Key(d.segs)[..i], parts[i..], vars) == (Some(d), Bound(d.segs, parts, i, vars))
    decreases |parts| - i
  {
    AnswersFrom(D, d, parts, vars, i);
    if i < |parts| {
      Further(D, d, parts, vars, i);
      AnswerBinds(D, d, parts, Bind(d.segs[i], parts[i], vars), i + 1);
    }
  }

  function Bind(seg: Seg, part: string, vars: map<string, string>): map<string, string> {
    if seg.Var? then vars[seg.name := part] else vars
  }

  /** Names that no later variable has keep what they are bound to. */
  lemma {:induction false} BoundOther(segs: seq<Seg>, parts: seq<string>, i: nat, vars: map<string, string>, x: string)
    requires i <= |segs| == |parts| && forall k :: i <= k < |segs| ==> segs[k] != Var(x)
    ensures var b := Bound(segs, parts, i, vars); (x in b <==> x in vars) && (x in b ==> b[x] == vars[x])
    decreases |segs| - i
  {
    if i < |segs| {
      BoundOther(segs, parts, i + 1, Bind(segs[i], parts[i], vars), x);
    }
  }

  /** Each variable is bound to its own part. */
  lemma {:induction false} BoundAt(segs: seq<Seg>, parts: seq<string>, i: nat, vars: map<string, string>, k: nat)
    requires i <= k < |segs| == |parts| && DistinctVars(segs) && segs[k].Var?
    ensures var b := Bound(segs, parts, i, vars); segs[k].name in b && b[segs[k].name] == parts[k]
    decreases |segs| - i
  {
    var v := Bind(segs[i], parts[i], vars);
    if i < k {
      BoundAt(segs, parts, i + 1, v, k);
    } else {
      BoundOther(segs, parts, i + 1, v, segs[k].name);
    }
  }

  /**
   * A registered path answers a request iff it has as many segments and takes each part; then each
   * variable is bound to its own part, and nothing else is.
   */
  lemma {:induction false} DispatchIff(D: set<Rule>, d: Rule, parts: seq<string>, vars: map<string, string>)
    requires Consistent(D) && d in D
    ensures var (answer, bound) := Dispatch(D, [], parts, vars);
            && (answer == Some(d) <==> |d.segs| == |parts| && forall k :: 0 <= k < |parts| ==> Takes(D, d, parts, k))
            && (answer == Some(d) ==>
                  && (forall k :: 0 <= k < |parts| && d.segs[k].Var? ==>
                       d.segs[k].name in bound && bound[d.segs[k].name] == parts[k])
                  && forall x :: Var(x) !in d.segs ==>
                       (x in bound <==> x in vars) && (x in bound ==> bound[x] == vars[x]))
  {
    hide Takes, Dispatch;
    assert Key(d.segs)[..0] == [] && parts[0..] == parts;
    AnswersFrom(D, d, parts, vars, 0);
    if Dispatch(D, [], parts, vars).0 == Some(d) {
      AnswerBinds(D, d, parts, vars, 0);
      var bound := Bound(d.segs, parts, 0, vars);
      forall k | 0 <= k < |parts| && d.segs[k].Var?
        ensures d.segs[k].name in bound && bound[d.segs[k].name] == parts[k] {
        BoundAt(d.segs, parts, 0, vars, k);
      }
      forall x | Var(x) !in d.segs ensures (x in bound <==> x in vars) && (x in bound ==> bound[x] == vars[x]) {
        BoundOther(d.segs, parts, 0, vars, x);
      }
    }
  }

  /** A path of literals only answers its own requests. */
  lemma {:induction false} LiteralAnswers(D: set<Rule>, d: Rule, parts: seq<string>, vars: map<string, string>)
    requires Consistent(D) && d in D && |d.segs| == |parts|
    requires forall k :: 0 <= k < |parts| ==> d.segs[k] == Lit(parts[k])
    ensures Dispatch(D, [], parts, vars).0 == Some(d)
  {
    DispatchIff(D, d, parts, vars);
  }

  // ---------- a path on its own ----------

  /** A part of a request fits the same text, or any part of a path that begins with a dollar sign. */
  predicate Fits(pattern: seq<string>, parts: seq<string>) {
    && |pattern| == |parts|
    && forall k :: 0 <= k < |parts| ==> pattern[k] == parts[k] || "$" <= pattern[k]
  }

  /** Registered alone, a path answers the requests that fit it, with the parts that stand for its variables. */
  lemma {:induction false} PathAlone(pattern: seq<string>, route: nat, parts: seq<string>)
    requires ValidParts(pattern) && DistinctVars(Segs(pattern))
    ensures var (answer, bound) := Dispatch({Rule(Segs(pattern), route)}, [], parts, map[]);
            && answer == (if Fits(pattern, parts) then Some(Rule(Segs(pattern), route)) else None)
            && (Fits(pattern, parts) ==>
                  && (forall k, name :: 0 <= k < |parts| && pattern[k] == "$" + name ==>
                       name in bound && bound[name] == parts[k])
                  && forall name :: name in bound ==> "$" + name in pattern)
  {
    hide Dispatch, Takes, SegOf, ValidPart;
    var d := Rule(Segs(pattern), route);
    var D := {d};
    if |pattern| == |parts| {
      AloneTakes(d, pattern, parts);
    }
    DispatchIff(D, d, parts, map[]);
    AnswerBelow(D, [], parts, map[]);
    var (answer, bound) := Dispatch(D, [], parts, map[]);
    if Fits(pattern, parts) {
      forall k, name | 0 <= k < |parts| && pattern[k] == "$" + name ensures name in bound && bound[name] == parts[k] {
        SegOfPart(pattern, k, name);
      }
      forall name | name in bound ensures "$" + name in pattern {
        var k :| 0 <= k < |d.segs| && d.segs[k] == Var(name);
        SegOfPart(pattern, k, name);
      }
    }
  }

  lemma SegOfPart(pattern: seq<string>, k: nat, name: string)
    requires ValidParts(pattern) && k < |pattern|
    ensures Segs(pattern)[k] == Var(name) <==> pattern[k] == "$" + name
    ensures Segs(pattern)[k] == Lit(name) <==> pattern[k] == name && !("$" <= pattern[k])
  {
    assert ValidPart(pattern[k]);
    SegIff(pattern[k], name);
  }

  /** With a single rule no literal stands in the way of a variable. */
  lemma AloneTakes(d: Rule, pattern: seq<string>, parts: seq<string>)
    requires ValidParts(pattern) && d.segs == Segs(pattern) && |pattern| == |parts|
    ensures Fits(pattern, parts) <==> forall k :: 0 <= k < |parts| ==> Takes({d}, d, parts, k)
  {
    hide SegOf, ValidPart;
    forall k | 0 <= k < |parts| ensures Takes({d}, d, parts, k) <==> pattern[k] == parts[k] || "$" <= pattern[k] {
      SegOfPart(pattern, k, parts[k]);
      var p := Key(d.segs)[..k];
      NextStep(p, Go(parts[k]), Key(d.segs));
      if d.segs[k].Var? {
        SegOfPart(pattern, k, d.segs[k].name);
        assert !Passes({d}, p + [Go(parts[k])]);
      } else {
        SegOfPart(pattern, k, d.segs[k].text);
      }
    }
  }

  /** There is no way back from a literal: with `/a/b` registered, `/$x/c` does not answer `/a/c`. */
  lemma {:induction false} NoWayBack(vars: map<string, string>)
    ensures var D := {Rule([Lit("a"), Lit("b")], 1), Rule([Var("x"), Lit("c")], 2)};
            Consistent(D) && Dispatch(D, [], ["a", "c"], vars).0 == None
  {
    var d, e := Rule([Lit("a"), Lit("b")], 1), Rule([Var("x"), Lit("c")], 2);
    var D := {d, e};
    assert Key(d.segs) == [Go("a"), Go("b")] && Key(e.segs) == [Any, Go("c")];
    assert !Clash(d.segs, e.segs) && !Clash(e.segs, d.segs);
    assert [] + [Go("a")] <= Key(d.segs);
    assert Passes(D, [] + [Go("a")]);
    assert !Takes(D, e, ["a", "c"], 0) by {
      assert Key(e.segs)[..0] + [Go("a")] == [] + [Go("a")];
    }
    assert !Takes(D, d, ["a", "c"], 1);
    DispatchIff(D, d, ["a", "c"], vars);
    DispatchIff(D, e, ["a", "c"], vars);
    AnswerBelow(D, [], ["a", "c"], vars);
  }
}
