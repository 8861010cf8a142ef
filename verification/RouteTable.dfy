/** Registering paths, building the trie, and dispatching requests. */
module RouteTable {
  import opened Shared
  import opened RouteSpec
  import opened Routes

  predicate Registered(raw: seq<(string, nat)>) {
    forall i :: 0 <= i < |raw| ==> |raw[i].0| > 1 && raw[i].0[0] == '/'
  }

  predicate PathsValid(apiRoot: string, raw: seq<(string, nat)>)
    requires Registered(raw)
  {
    forall i :: 0 <= i < |raw| ==> ValidParts(Split(apiRoot + raw[i].0))
  }

  function RulesOf(apiRoot: string, raw: seq<(string, nat)>): (rules: seq<Rule>)
    requires Registered(raw) && PathsValid(apiRoot, raw)
    ensures |rules| == |raw| && forall i :: 0 <= i < |raw| ==>
      rules[i] == Rule(Segs(Split(apiRoot + raw[i].0)), raw[i].1)
  {
    seq(|raw|, i requires 0 <= i < |raw| => Rule(Segs(Split(apiRoot + raw[i].0)), raw[i].1))
  }

  /** The paths can all be registered below the root of the API. */
  ghost predicate CanBuild(apiRoot: string, raw: seq<(string, nat)>)
    requires Registered(raw)
  {
    (apiRoot == "" || apiRoot[0] == '/') && PathsValid(apiRoot, raw) && Buildable(RulesOf(apiRoot, raw))
  }

  lemma BuildableSnoc(rules: seq<Rule>, rule: Rule)
    ensures Buildable(rules + [rule]) <==>
      Buildable(rules) && DistinctVars(rule.segs) && forall d :: d in rules ==> !Clash(d.segs, rule.segs)
  {
    hide DistinctVars, Clash;
    var all := rules + [rule];
    if Buildable(all) {
      forall i | 0 <= i < |rules| ensures rules[i] == all[i] && !Clash(rules[i].segs, rule.segs) {
        assert all[|rules|] == rule;
      }
    }
    if Buildable(rules) && DistinctVars(rule.segs) && forall d :: d in rules ==> !Clash(d.segs, rule.segs) {
      forall i, j | 0 <= i < j < |all| ensures !Clash(all[i].segs, all[j].segs) {
        var d := all[i];
        assert d == rules[i];
        assert d in rules;
      }
    }
  }

  /** One more path can be registered iff the trie accepts it. */
  lemma CanBuildSnoc(apiRoot: string, raw: seq<(string, nat)>, i: nat)
    requires Registered(raw) && i < |raw| && CanBuild(apiRoot, raw[..i])
    ensures var D := RuleSet(RulesOf(apiRoot, raw[..i]));
            var parts := Split(apiRoot + raw[i].0);
            && (CanBuild(apiRoot, raw[..i + 1]) <==> Accepts(D, parts))
            && (Accepts(D, parts) ==> RuleSet(RulesOf(apiRoot, raw[..i + 1])) == D + {Rule(Segs(parts), raw[i].1)})
  {
    hide Split, Buildable;
    var parts := Split(apiRoot + raw[i].0);
    assert raw[..i + 1] == raw[..i] + [raw[i]];
    if ValidParts(parts) {
      assert PathsValid(apiRoot, raw[..i + 1]);
      var rule := Rule(Segs(parts), raw[i].1);
      assert RulesOf(apiRoot, raw[..i + 1]) == RulesOf(apiRoot, raw[..i]) + [rule];
      BuildableSnoc(RulesOf(apiRoot, raw[..i]), rule);
    } else {
      assert raw[..i + 1][i] == raw[i];
    }
  }

  lemma {:induction false} CanBuildPrefix(apiRoot: string, raw: seq<(string, nat)>, i: nat)
    requires Registered(raw) && i <= |raw| && CanBuild(apiRoot, raw)
    ensures CanBuild(apiRoot, raw[..i])
  {
    assert forall k :: 0 <= k < i ==> raw[..i][k] == raw[k];
    assert forall k :: 0 <= k < i ==> RulesOf(apiRoot, raw[..i])[k] == RulesOf(apiRoot, raw)[k];
  }

  class RouteStorage {
    var isBuilt: bool
    var raw: seq<(string, nat)>
    var fallback: nat
    var trie: RouteTrie
    /** The root under which the paths were registered, once all of them were. */
    ghost var apiRoot: Option<string>

    ghost function Rules(): set<Rule>
      requires apiRoot.Some? && Registered(raw) && PathsValid(apiRoot.value, raw)
      reads this
    {
      RuleSet(RulesOf(apiRoot.value, raw))
    }

    ghost predicate Valid()
      reads this, trie, trie.at.Values
    {
      && Registered(raw) && (apiRoot.Some? ==> isBuilt)
      && (apiRoot.Some? ==>
            && CanBuild(apiRoot.value, raw) && trie.Valid()
            && Describes(Names(trie.at), Paths(Rules())) && Routed(trie.at, Rules()))
    }

    constructor ()
      ensures Valid() && !isBuilt && raw == [] && fallback == 0 && fresh(trie)
    {
      isBuilt := false;
      raw := [];
      fallback := 0;
      trie := new RouteTrie();
      apiRoot := None;
    }

    method AddRoute(path: string, route: nat)
      requires Valid() && !isBuilt && |path| > 1 && path[0] == '/'
      modifies this`raw
      ensures Valid() && raw == old(raw) + [(path, route)]
    {
      raw := raw + [(path, route)];
    }

    method SetFallbackRoute(route: nat)
      requires Valid() && !isBuilt
      modifies this`fallback
      ensures Valid() && fallback == route
    {
      fallback := route;
    }

    method Build(api: string) returns (ok: bool)
      requires Valid() && !isBuilt
      modifies this
      ensures raw == old(raw) && fallback == old(fallback) && isBuilt && Valid()
      ensures ok <==> CanBuild(api, raw)
      ensures apiRoot == if ok then Some(api) else None
    {
      hide CanBuild, Buildable, Describes, Routed, Names, Paths, Accepts, Split, RouteTrie.Valid, RuleSet, PathsValid,
        RulesOf,
           ValidParts, Segs;
      isBuilt := true;
      if api != "" && api[0] != '/' {
        RelativeRoot(api, raw);
        return false;
      }
      trie := new RouteTrie();
      NoRules(api);
      var paths := raw;
      assert paths[..0] == [];
      ghost var D: set<Rule> := {};
      for i := 0 to |paths|
        invariant raw == paths == old(raw) && fallback == old(fallback) && isBuilt && apiRoot == None
        invariant CanBuild(api, paths[..i]) && PathsValid(api, paths[..i]) && D == RuleSet(RulesOf(api, paths[..i]))
        invariant fresh(trie) && fresh(trie.at.Values) && trie.Valid()
        invariant Describes(Names(trie.at), Paths(D)) && Routed(trie.at, D)
      {
        CanBuildSnoc(api, paths, i);
        var parts := Split(api + paths[i].0);
        ok := trie.InsertPath(parts, paths[i].1, D);
        if !ok {
          PrefixFails(api, paths, i + 1);
          return;
        }
        BuiltValid(api, paths[..i + 1]);
        AcceptsValid(D, parts);
        D := D + {Rule(Segs(parts), paths[i].1)};
      }
      assert paths[..|paths|] == paths;
      ok := true;
      apiRoot := Some(api);
    }

    /** The route that dispatch chooses among the registered paths, or the fallback. */
    method GetRoute(uri: string, params: map<string, string>) returns (route: nat, bound: map<string, string>)
      requires Valid() && apiRoot.Some? && uri != ""
      ensures var (answer, vars) := Dispatch(Rules(), [], Split(uri), params);
              bound == vars && route == match answer case Some(d) => d.route case None => fallback
    {
      BuildableBag(RulesOf(apiRoot.value, raw));
      var found;
      found, bound := trie.GetRoute(Split(uri), params, Rules());
      route := if found.Some? then found.value else fallback;
    }
  }

  /** No segment of the path is empty, a dot, two dots or a bare dollar sign. */
  predicate NoneForbidden(path: string)
    requires path != ""
  {
    forall part :: part in Split(path) ==> part !in {"", ".", "..", "$"}
  }

  /** Building succeeds iff the root is absolute or empty, no segment is forbidden, and the rules go together. */
  lemma CanBuildIff(api: string, raw: seq<(string, nat)>)
    requires Registered(raw)
    ensures CanBuild(api, raw) <==>
      && (api == "" || api[0] == '/')
      && (forall r :: r in raw ==> NoneForbidden(api + r.0))
      && (PathsValid(api, raw) ==> Buildable(RulesOf(api, raw)))
  {
    hide Split, Buildable;
    if PathsValid(api, raw) {
      forall r | r in raw ensures NoneForbidden(api + r.0) {
        var i :| 0 <= i < |raw| && raw[i] == r;
        ForbiddenIff(api + raw[i].0);
      }
    }
    if forall r :: r in raw ==> NoneForbidden(api + r.0) {
      forall i | 0 <= i < |raw| ensures ValidParts(Split(api + raw[i].0)) {
        var r := raw[i];
        assert r in raw;
        ForbiddenIff(api + r.0);
      }
    }
  }

  lemma ForbiddenIff(path: string)
    requires path != ""
    ensures ValidParts(Split(path)) <==> NoneForbidden(path)
  {
    hide Split;
    if NoneForbidden(path) {
      forall i | 0 <= i < |Split(path)| ensures ValidPart(Split(path)[i]) {
        var part := Split(path)[i];
        assert part in Split(path);
      }
    }
  }

  lemma RelativeRoot(api: string, raw: seq<(string, nat)>)
    requires Registered(raw) && api != "" && api[0] != '/'
    ensures !CanBuild(api, raw)
  {
  }

  lemma NoRules(api: string)
    requires api == "" || api[0] == '/'
    ensures CanBuild(api, []) && PathsValid(api, []) && RuleSet(RulesOf(api, [])) == {} && Paths({}) == {}
  {
  }

  lemma PrefixFails(api: string, raw: seq<(string, nat)>, i: nat)
    requires Registered(raw) && i <= |raw| && !CanBuild(api, raw[..i])
    ensures !CanBuild(api, raw)
  {
    if CanBuild(api, raw) {
      CanBuildPrefix(api, raw, i);
    }
  }

  lemma BuiltValid(api: string, raw: seq<(string, nat)>)
    requires Registered(raw) && CanBuild(api, raw)
    ensures PathsValid(api, raw)
  {
  }

  lemma AcceptsValid(D: set<Rule>, parts: seq<string>)
    requires Accepts(D, parts)
    ensures ValidParts(parts)
  {
  }

  /** Registering the same paths in another order builds iff the first order does, and dispatches alike. */
  lemma RegistrationOrder(api: string, a: seq<(string, nat)>, b: seq<(string, nat)>)
    requires Registered(a) && Registered(b) && multiset(a) == multiset(b)
    ensures CanBuild(api, a) == CanBuild(api, b)
    ensures CanBuild(api, a) ==> RuleSet(RulesOf(api, a)) == RuleSet(RulesOf(api, b))
  {
    hide Split, Buildable;
    SameValid(api, a, b);
    SameValid(api, b, a);
    if PathsValid(api, a) {
      SameRules(api, a, b);
      OrderIrrelevant(RulesOf(api, a), RulesOf(api, b));
    }
  }

  lemma SameValid(api: string, a: seq<(string, nat)>, b: seq<(string, nat)>)
    requires Registered(a) && Registered(b) && multiset(a) == multiset(b)
    ensures PathsValid(api, a) ==> PathsValid(api, b)
  {
    hide Split;
    if PathsValid(api, a) {
      forall i | 0 <= i < |b| ensures ValidParts(Split(api + b[i].0)) {
        var r := b[i];
        assert r in multiset(b);
        var k :| 0 <= k < |a| && a[k] == r;
      }
    }
  }

  lemma RulesJoin(api: string, a: seq<(string, nat)>, b: seq<(string, nat)>)
    requires Registered(a) && Registered(b) && PathsValid(api, a) && PathsValid(api, b)
    ensures Registered(a + b) && PathsValid(api, a + b) && RulesOf(api, a + b) == RulesOf(api, a) + RulesOf(api, b)
  {
    hide Split;
    forall i | 0 <= i < |a + b| ensures ValidParts(Split(api + (a + b)[i].0)) {
      assert (a + b)[i] == if i < |a| then a[i] else b[i - |a|];
    }
  }

  lemma TakeAt(api: string, raw: seq<(string, nat)>, k: nat)
    requires Registered(raw) && PathsValid(api, raw) && k < |raw|
    ensures var rest := raw[..k] + raw[k + 1..];
      && Registered(rest) && PathsValid(api, rest) && multiset(rest) == multiset(raw) - multiset{raw[k]}
      && raw[k].0 != "" && ValidParts(Split(api + raw[k].0))
      && multiset(RulesOf(api, raw)) ==
           multiset(RulesOf(api, rest)) + multiset{Rule(Segs(Split(api + raw[k].0)), raw[k].1)}
  {
    hide *;
    assert raw == raw[..k] + [raw[k]] + raw[k + 1..];
    TakeOut(api, raw[..k], raw[k], raw[k + 1..]);
  }

  lemma {:induction false} SameRules(api: string, a: seq<(string, nat)>, b: seq<(string, nat)>)
    requires Registered(a) && Registered(b) && multiset(a) == multiset(b) && PathsValid(api, a) && PathsValid(api, b)
    ensures multiset(RulesOf(api, a)) == multiset(RulesOf(api, b))
    decreases |a|
  {
    hide *;
    if a == [] {
      assert |multiset(b)| == 0;
      assert b == [] == a;
    } else {
      var r := a[0];
      assert r in multiset(b);
      var k :| 0 <= k < |b| && b[k] == r;
      var rest := b[..k] + b[k + 1..];
      TakeAt(api, a, 0);
      TakeAt(api, b, k);
      assert a[..0] + a[1..] == a[1..];
      SameRules(api, a[1..], rest);
    }
  }

  lemma OneRule(api: string, r: (string, nat))
    requires Registered([r]) && PathsValid(api, [r])
    ensures r.0 != "" && ValidParts(Split(api + r.0)) && RulesOf(api, [r]) == [Rule(Segs(Split(api + r.0)), r.1)]
  {
    assert [r][0] == r;
  }

  lemma Without<T>(left: seq<T>, x: T, right: seq<T>)
    ensures multiset(left + [x] + right) == multiset(left + right) + multiset{x}
  {
  }

  lemma Parted(api: string, left: seq<(string, nat)>, r: (string, nat), right: seq<(string, nat)>)
    requires Registered(left + [r] + right) && PathsValid(api, left + [r] + right)
    ensures Registered(left) && Registered([r]) && Registered(right)
    ensures PathsValid(api, left) && PathsValid(api, [r]) && PathsValid(api, right)
  {
    hide Registered, PathsValid;
    var all := left + [r] + right;
    var n := |left|;
    assert all[0..n] == left && all[n..n + 1] == [r] && all[n + 1..|all|] == right;
    PartValid(api, all, 0, n);
    PartValid(api, all, n, n + 1);
    PartValid(api, all, n + 1, |all|);
  }

  /** Taking one path out takes its rule out. */
  lemma TakeOut(api: string, left: seq<(string, nat)>, r: (string, nat), right: seq<(string, nat)>)
    requires Registered(left + [r] + right) && PathsValid(api, left + [r] + right)
    ensures Registered(left + right) && PathsValid(api, left + right) && r.0 != "" && ValidParts(Split(api + r.0))
    ensures multiset(left + right) == multiset(left + [r] + right) - multiset{r}
    ensures multiset(RulesOf(api, left + [r] + right)) ==
      multiset(RulesOf(api, left + right)) + multiset{Rule(Segs(Split(api + r.0)), r.1)}
  {
    hide *;
    Parted(api, left, r, right);
    OneRule(api, r);
    RulesJoin(api, left, [r]);
    RulesJoin(api, left + [r], right);
    RulesJoin(api, left, right);
    Without(left, r, right);
    Without(RulesOf(api, left), Rule(Segs(Split(api + r.0)), r.1), RulesOf(api, right));
  }

  lemma PartValid(api: string, raw: seq<(string, nat)>, i: nat, j: nat)
    requires Registered(raw) && PathsValid(api, raw) && i <= j <= |raw|
    ensures Registered(raw[i..j]) && PathsValid(api, raw[i..j])
  {
    assert forall k :: 0 <= k < j - i ==> raw[i..j][k] == raw[i + k];
  }
}
