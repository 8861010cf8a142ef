/** Which registered path answers a request. */
module RouteSpec {
  import opened Shared

  /** A segment of a registered path: a literal, or a variable that takes any segment. */
  datatype Seg = Lit(text: string) | Var(name: string)

  /** A segment without the name of its variable. */
  datatype Step = Go(text: string) | Any

  datatype Rule = Rule(segs: seq<Seg>, route: nat)

  // ---------- paths ----------

  function SplitRest(s: string, from: nat): seq<string>
    requires from <= |s|
    decreases |s| - from, 1
  {
    SplitFrom(s, from, from)
  }

  function SplitFrom(s: string, from: nat, i: nat): seq<string>
    requires from <= i <= |s|
    decreases |s| - i, 0
  {
    if i == |s| then [s[from..]]
    else if s[i] == '/' then [s[from..i]] + SplitRest(s, i + 1)
    else SplitFrom(s, from, i + 1)
  }

  /** The segments of a path behind its leading slash; a bare slash has none. */
  function Split(path: string): seq<string>
    requires path != ""
  {
    if |path| == 1 then [] else SplitRest(path, 1)
  }

  predicate ValidPart(part: string) {
    part != "" && part != "." && part != ".." && part != "$"
  }

  function SegOf(part: string): Seg
    requires ValidPart(part)
  {
    if part[0] == '$' then Var(part[1..]) else Lit(part)
  }

  predicate ValidParts(parts: seq<string>) {
    forall i :: 0 <= i < |parts| ==> ValidPart(parts[i])
  }

  function Segs(parts: seq<string>): (segs: seq<Seg>)
    requires ValidParts(parts)
    ensures |segs| == |parts| && forall i :: 0 <= i < |segs| ==> segs[i] == SegOf(parts[i])
  {
    seq(|parts|, i requires 0 <= i < |parts| => SegOf(parts[i]))
  }

  function StepOf(seg: Seg): Step {
    match seg
    case Lit(text) => Go(text)
    case Var(_) => Any
  }

  function Key(segs: seq<Seg>): (key: seq<Step>)
    ensures |key| == |segs| && forall i :: 0 <= i < |key| ==> key[i] == StepOf(segs[i])
  {
    seq(|segs|, i requires 0 <= i < |segs| => StepOf(segs[i]))
  }

  // ---------- what the segments are ----------

  /** The parts with slashes between them. */
  function Join(parts: seq<string>): string
    requires parts != []
  {
    if |parts| == 1 then parts[0] else parts[0] + "/" + Join(parts[1..])
  }

  predicate SlashFree(parts: seq<string>) {
    forall i, j :: 0 <= i < |parts| && 0 <= j < |parts[i]| ==> parts[i][j] != '/'
  }

  lemma {:induction false} SplitJoins(s: string, from: nat, i: nat)
    requires from <= i <= |s| && forall k :: from <= k < i ==> s[k] != '/'
    ensures var parts := SplitFrom(s, from, i); parts != [] && SlashFree(parts) && Join(parts) == s[from..]
    decreases |s| - i
  {
    var parts := SplitFrom(s, from, i);
    if i == |s| {
      assert parts == [s[from..]];
    } else if s[i] == '/' {
      SplitJoins(s, i + 1, i + 1);
      var rest := SplitFrom(s, i + 1, i + 1);
      assert parts == [s[from..i]] + rest;
      assert parts[1..] == rest;
      assert s[from..] == s[from..i] + "/" + s[i + 1..];
    } else {
      SplitJoins(s, from, i + 1);
    }
  }

  /** Only one list of parts without slashes joins to a text. */
  lemma {:induction false} JoinInjective(a: seq<string>, b: seq<string>)
    requires a != [] && b != [] && SlashFree(a) && SlashFree(b) && Join(a) == Join(b)
    ensures a == b
  {
    FirstEnds(a);
    FirstEnds(b);
    var n, m := |a[0]|, |b[0]|;
    assert n == m;
    assert a[0] == Join(a)[..n] == b[0];
    if |a| == 1 {
      assert a == [a[0]] && b == [b[0]];
    } else {
      assert Join(a[1..]) == Join(a)[n + 1..] == Join(b[1..]);
      JoinInjective(a[1..], b[1..]);
      assert a == [a[0]] + a[1..] && b == [b[0]] + b[1..];
    }
  }

  lemma {:induction false} FirstEnds(parts: seq<string>)
    requires parts != [] && SlashFree(parts)
    ensures var s, n := Join(parts), |parts[0]|;
            && n <= |s| && s[..n] == parts[0] && (forall k :: 0 <= k < n ==> s[k] != '/')
            && (n == |s| <==> |parts| == 1) && (n < |s| ==> s[n] == '/' && s[n + 1..] == Join(parts[1..]))
  {
    if |parts| > 1 {
      var s, n := Join(parts), |parts[0]|;
      assert s == parts[0] + ("/" + Join(parts[1..]));
      assert s[n] == ("/" + Join(parts[1..]))[0];
      assert s[n + 1..] == Join(parts[1..]);
    }
  }

  /** The segments of a path are the parts between its slashes; a bare slash has none. */
  lemma {:induction false} SplitIff(path: string, parts: seq<string>)
    requires path != ""
    ensures Split(path) == parts <==>
      if |path| == 1 then parts == [] else parts != [] && SlashFree(parts) && Join(parts) == path[1..]
  {
    if |path| > 1 {
      SplitJoins(path, 1, 1);
      if parts != [] && SlashFree(parts) && Join(parts) == path[1..] {
        JoinInjective(Split(path), parts);
      }
    }
  }

  /** A dollar sign with a name behind it is a variable of this name, any other valid part stands for itself. */
  lemma SegIff(part: string, name: string)
    requires part !in {"", ".", "..", "$"}
    ensures ValidPart(part)
    ensures SegOf(part) == Var(name) <==> part == "$" + name
    ensures SegOf(part) == Lit(name) <==> part == name && !("$" <= part)
  {
    if part[0] == '$' {
      assert part == "$" + part[1..];
    }
    if part == "$" + name {
      assert part[1..] == name;
    }
  }

  // ---------- when paths can be registered together ----------

  predicate DistinctVars(segs: seq<Seg>) {
    forall i, j :: 0 <= i < j < |segs| && segs[i].Var? && segs[j].Var? ==> segs[i].name != segs[j].name
  }

  /** Below the same steps, both have a variable next, under different names. */
  predicate NamesClash(a: seq<Seg>, b: seq<Seg>, k: nat) {
    k < |a| && k < |b| && Key(a)[..k] == Key(b)[..k] && a[k].Var? && b[k].Var? && a[k].name != b[k].name
  }

  predicate Clash(a: seq<Seg>, b: seq<Seg>) {
    Key(a) == Key(b) || exists k :: 0 <= k < |a| && NamesClash(a, b, k)
  }

  ghost predicate Buildable(rules: seq<Rule>) {
    && (forall i :: 0 <= i < |rules| ==> DistinctVars(rules[i].segs))
    && forall i, j :: 0 <= i < j < |rules| ==> !Clash(rules[i].segs, rules[j].segs)
  }

  lemma ClashSymmetric(a: seq<Seg>, b: seq<Seg>)
    ensures Clash(a, b) == Clash(b, a)
  {
    if k :| 0 <= k < |a| && NamesClash(a, b, k) {
      assert NamesClash(b, a, k);
    }
    if k :| 0 <= k < |b| && NamesClash(b, a, k) {
      assert NamesClash(a, b, k);
    }
  }

  // ---------- dispatch ----------

  /** Some rule begins with these steps. */
  ghost predicate Passes(D: set<Rule>, p: seq<Step>) {
    exists d :: d in D && p <= Key(d.segs)
  }

  ghost function RuleThrough(D: set<Rule>, p: seq<Step>): (d: Rule)
    requires Passes(D, p)
    ensures d in D && p <= Key(d.segs)
  {
    var d :| d in D && p <= Key(d.segs);
    d
  }

  ghost predicate Ends(D: set<Rule>, p: seq<Step>) {
    exists d :: d in D && Key(d.segs) == p
  }

  ghost function RuleAt(D: set<Rule>, p: seq<Step>): (d: Rule)
    requires Ends(D, p)
    ensures d in D && Key(d.segs) == p
  {
    var d :| d in D && Key(d.segs) == p;
    d
  }

  ghost function NameAt(D: set<Rule>, p: seq<Step>): string
    requires Passes(D, p + [Any])
  {
    NextIsVar(RuleThrough(D, p + [Any]).segs, p);
    RuleThrough(D, p + [Any]).segs[|p|].name
  }

  lemma NextIsVar(segs: seq<Seg>, p: seq<Step>)
    requires p + [Any] <= Key(segs)
    ensures |p| < |segs| && segs[|p|].Var?
  {
    assert (p + [Any])[|p|] == Key(segs)[|p|];
  }

  /**
   * Narrows the rules down segment by segment: those with the literal if there are any, otherwise
   * those with a variable, which takes the segment; there is no way back.
   */
  ghost function Dispatch(D: set<Rule>, p: seq<Step>, parts: seq<string>, vars: map<string, string>): (Option<Rule>,
                          map<string, string>)
    decreases |parts|
  {
    if parts == [] then (if Ends(D, p) then Some(RuleAt(D, p)) else None, vars)
    else if Passes(D, p + [Go(parts[0])]) then Dispatch(D, p + [Go(parts[0])], parts[1..], vars)
    else if Passes(D, p + [Any]) then Dispatch(D, p + [Any], parts[1..], vars[NameAt(D, p) := parts[0]])
    else (None, vars)
  }

  ghost predicate Consistent(D: set<Rule>) {
    && (forall d :: d in D ==> DistinctVars(d.segs))
    && forall d, e :: d in D && e in D && d != e ==> !Clash(d.segs, e.segs)
  }

  function RuleSet(rules: seq<Rule>): set<Rule> {
    set d | d in rules
  }

  /** Registering the same paths in another order changes neither success nor dispatch. */
  lemma OrderIrrelevant(a: seq<Rule>, b: seq<Rule>)
    requires multiset(a) == multiset(b)
    ensures Buildable(a) == Buildable(b)
    ensures RuleSet(a) == RuleSet(b)
  {
    forall d ensures d in a <==> d in b {
      assert d in a <==> d in multiset(a);
      assert d in b <==> d in multiset(b);
    }
    BuildableBag(a);
    BuildableBag(b);
  }

  /** Success depends on the bag of rules only: no rule twice, and no two of them clash. */
  lemma BuildableBag(rules: seq<Rule>)
    ensures Buildable(rules) <==>
      Consistent(RuleSet(rules)) && forall d :: d in multiset(rules) ==> multiset(rules)[d] == 1
  {
    if Buildable(rules) {
      forall d, e | d in rules && e in rules && d != e ensures !Clash(d.segs, e.segs) {
        var i :| 0 <= i < |rules| && rules[i] == d;
        var j :| 0 <= j < |rules| && rules[j] == e;
        ClashSymmetric(d.segs, e.segs);
      }
      forall i, j | 0 <= i < j < |rules| ensures rules[i] != rules[j] {
        assert !Clash(rules[i].segs, rules[j].segs);
      }
      OnceEach(rules);
    }
    if Consistent(RuleSet(rules)) && forall d :: d in multiset(rules) ==> multiset(rules)[d] == 1 {
      ConsistentBuilds(rules);
    }
  }

  lemma ConsistentBuilds(rules: seq<Rule>)
    requires Consistent(RuleSet(rules)) && forall d :: d in multiset(rules) ==> multiset(rules)[d] == 1
    ensures Buildable(rules)
  {
    forall i | 0 <= i < |rules| ensures DistinctVars(rules[i].segs) {
      var d := rules[i];
      assert d in rules;
    }
    forall i, j | 0 <= i < j < |rules| ensures !Clash(rules[i].segs, rules[j].segs) {
      var d, e := rules[i], rules[j];
      assert d in rules && e in rules && d in multiset(rules);
      if d == e {
        TwoOf(rules, i, j);
      }
    }
  }

  lemma {:induction false} OnceEach<T>(s: seq<T>)
    requires forall i, j :: 0 <= i < j < |s| ==> s[i] != s[j]
    ensures forall x :: x in multiset(s) ==> multiset(s)[x] == 1
  {
    if s != [] {
      var front := s[..|s| - 1];
      var last := s[|s| - 1];
      assert s == front + [last];
      OnceEach(front);
      forall i | 0 <= i < |front| ensures front[i] != last {
        assert front[i] == s[i];
      }
      assert last !in multiset(front);
    }
  }

  lemma TwoOf<T>(s: seq<T>, i: nat, j: nat)
    requires i < j < |s| && s[i] == s[j]
    ensures multiset(s)[s[i]] >= 2
  {
    assert s == s[..i] + [s[i]] + s[i + 1..j] + [s[j]] + s[j + 1..];
  }
}
