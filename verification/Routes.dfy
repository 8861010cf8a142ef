/** The route storage: a trie of segments, built in place. */
module Routes {
  import opened Shared
  import opened RouteSpec

  class Node {
    var go: map<string, Node>
    var current: Option<nat>
    var varName: Option<string>
    var below: Node?

    constructor ()
      ensures go == map[] && current == None && varName == None && below == null
    {
      go := map[];
      current := None;
      varName := None;
      below := null;
    }
  }

  /** The children of the node at `p` are the nodes at the steps that continue `p`. */
  ghost predicate WiredAt(n: Node, at: map<seq<Step>, Node>, p: seq<Step>)
    reads n`go, n`varName, n`below
  {
    && (forall text :: text in n.go <==> p + [Go(text)] in at)
    && (forall text :: text in n.go ==> n.go[text] == at[p + [Go(text)]])
    && (n.varName.Some? <==> p + [Any] in at)
    && n.below == (if p + [Any] in at then at[p + [Any]] else null)
  }

  ghost predicate Tree(at: map<seq<Step>, Node>) {
    && [] in at
    && (forall p :: p in at && p != [] ==> p[..|p| - 1] in at)
    && forall p, q :: p in at && q in at && p != q ==> at[p] != at[q]
  }

  ghost predicate Wired(at: map<seq<Step>, Node>)
    reads at.Values`go, at.Values`varName, at.Values`below
  {
    Tree(at) && forall p :: p in at ==> WiredAt(at[p], at, p)
  }

  /** The variable below each node. */
  ghost function Names(at: map<seq<Step>, Node>): map<seq<Step>, Option<string>>
    reads at.Values`varName
  {
    map p | p in at :: at[p].varName
  }

  /** The nodes are those of the prefixes of the paths, and variables have the names that the paths give. */
  ghost predicate Describes(names: map<seq<Step>, Option<string>>, paths: set<seq<Seg>>) {
    && (forall p :: p in names && p != [] ==> exists s :: s in paths && p <= Key(s))
    && (forall s: seq<Seg>, p: seq<Step> :: s in paths && p <= Key(s) ==> p in names)
    && forall s: seq<Seg>, k: nat :: s in paths && k < |s| && s[k].Var? ==>
         Key(s)[..k] in names && names[Key(s)[..k]] == Some(s[k].name)
  }

  /** Routes are where the rules end. */
  ghost predicate Routed(at: map<seq<Step>, Node>, D: set<Rule>)
    reads at.Values`current
  {
    && (forall d :: d in D ==> Key(d.segs) in at && at[Key(d.segs)].current == Some(d.route))
    && forall p :: p in at && at[p].current.Some? ==> Ends(D, p)
  }

  ghost function Paths(D: set<Rule>): set<seq<Seg>> {
    set d | d in D :: d.segs
  }

  lemma AddNode(at: map<seq<Step>, Node>, p: seq<Step>, step: Step, n: Node)
    requires Tree(at) && p in at && p + [step] !in at && n !in at.Values
    ensures Tree(at[p + [step] := n])
    ensures forall next :: p + [step] + [next] !in at[p + [step] := n]
  {
    var q := p + [step];
    assert q[..|q| - 1] == p;
    forall next ensures q + [next] !in at {
      assert (q + [next])[..|q + [next]| - 1] == q;
    }
  }

  lemma SnocDiffers(q: seq<Step>, p: seq<Step>, step: Step)
    ensures forall x :: q + [x] == p + [step] <==> q == p && x == step
  {
    forall x ensures q + [x] == p + [step] <==> q == p && x == step {
      if q + [x] == p + [step] {
        assert (q + [x])[|q|] == (p + [step])[|q|] && |q| == |p|;
        assert (q + [x])[..|q|] == (p + [step])[..|q|];
      }
    }
  }

  /** A new leaf leaves the wiring of the nodes other than its parent as it is. */
  lemma StaysWired(was: map<seq<Step>, Node>, p: seq<Step>, step: Step, n: Node, q: seq<Step>)
    requires q in was && q != p && WiredAt(was[q], was, q) && p + [step] !in was
    ensures WiredAt(was[q], was[p + [step] := n], q)
  {
    SnocDiffers(q, p, step);
  }

  lemma WiredHere(at: map<seq<Step>, Node>, p: seq<Step>)
    requires p in at && Wired(at)
    ensures forall t :: t in at[p].go <==> p + [Go(t)] in at
    ensures forall t :: t in at[p].go ==> at[p].go[t] == at[p + [Go(t)]]
    ensures at[p].varName.Some? <==> p + [Any] in at
    ensures at[p].below == if p + [Any] in at then at[p + [Any]] else null
  {
  }

  lemma AllApart(at: map<seq<Step>, Node>, p: seq<Step>)
    requires Wired(at) && p in at
    ensures forall q :: q in at && q != p ==> at[q] != at[p]
  {
  }

  lemma Apart(at: map<seq<Step>, Node>, p: seq<Step>, q: seq<Step>)
    requires Tree(at) && p in at && q in at && p != q
    ensures at[p] != at[q]
  {
  }

  lemma LeafWired(at: map<seq<Step>, Node>, q: seq<Step>)
    requires q in at && forall x :: q + [x] !in at
    requires at[q].go == map[] && at[q].varName == None && at[q].below == null
    ensures WiredAt(at[q], at, q)
  {
  }

  lemma GoWired(was: map<seq<Step>, Node>, p: seq<Step>, text: string, n: Node, wasGo: map<string, Node>)
    requires p in was && p + [Go(text)] !in was && was[p].go == wasGo[text := n]
    requires forall t :: t in wasGo <==> p + [Go(t)] in was
    requires forall t :: t in wasGo ==> wasGo[t] == was[p + [Go(t)]]
    requires was[p].varName.Some? <==> p + [Any] in was
    requires was[p].below == if p + [Any] in was then was[p + [Any]] else null
    ensures WiredAt(was[p], was[p + [Go(text)] := n], p)
  {
    SnocDiffers(p, p, Go(text));
    assert p != p + [Go(text)];
  }

  lemma VarWired(was: map<seq<Step>, Node>, p: seq<Step>, n: Node)
    requires p in was && p + [Any] !in was && was[p].varName.Some? && was[p].below == n
    requires forall t :: t in was[p].go <==> p + [Go(t)] in was
    requires forall t :: t in was[p].go ==> was[p].go[t] == was[p + [Go(t)]]
    ensures WiredAt(was[p], was[p + [Any] := n], p)
  {
    SnocDiffers(p, p, Any);
    assert p != p + [Any];
  }

  lemma RoutedGrows(was: map<seq<Step>, Node>, q: seq<Step>, child: Node, D: set<Rule>)
    requires Routed(was, D) && q !in was && child.current == None
    ensures Routed(was[q := child], D)
  {
  }

  /** There is a node for `q` now, and no name has changed. */
  ghost predicate Grows(names: map<seq<Step>, Option<string>>, next: map<seq<Step>, Option<string>>, q: seq<Step>) {
    && q in next && (forall p :: p in next <==> p in names || p == q)
    && forall p :: p in names && names[p].Some? ==> next[p] == names[p]
  }

  /** Going one segment further adds its node, and its name to the node before it. */
  lemma DescribesStep(was: map<seq<Step>, Option<string>>, names: map<seq<Step>, Option<string>>,
                      paths: set<seq<Seg>>, s: seq<Seg>, seg: Seg)
    requires Describes(was, paths + {s}) && Key(s) in was
    requires Grows(was, names, Key(s) + [StepOf(seg)])
    requires seg.Var? ==> names[Key(s)] == Some(seg.name)
    ensures Describes(names, paths + {s + [seg]})
  {
    var p, q := Key(s), Key(s) + [StepOf(seg)];
    assert Key(s + [seg]) == q;
    forall r | r in names && r != [] ensures exists t :: t in paths + {s + [seg]} && r <= Key(t) {
      if r == q {
        assert q <= Key(s + [seg]);
      } else {
        var t :| t in paths + {s} && r <= Key(t);
        if t == s {
          assert r <= p <= q;
          assert r <= Key(s + [seg]);
        }
      }
    }
    forall t: seq<Seg>, r: seq<Step> | t in paths + {s + [seg]} && r <= Key(t) ensures r in names {
      if t == s + [seg] && t !in paths {
        PrefixSnoc(r, p, StepOf(seg));
      }
    }
    forall t: seq<Seg>, k: nat | t in paths + {s + [seg]} && k < |t| && t[k].Var?
      ensures Key(t)[..k] in names && names[Key(t)[..k]] == Some(t[k].name)
    {
      if t == s + [seg] && t !in paths {
        if k < |s| {
          assert Key(t)[..k] == p[..k] && s[k] == t[k];
          assert s in paths + {s};
        } else {
          assert Key(t)[..k] == p;
        }
      } else {
        assert t in paths + {s};
      }
    }
  }

  lemma PrefixSnoc(r: seq<Step>, p: seq<Step>, step: Step)
    requires r <= p + [step]
    ensures r <= p || r == p + [step]
  {
    if |r| <= |p| {
      assert r == (p + [step])[..|r|] == p[..|r|];
    }
  }

  class RouteTrie {
    var root: Node
    ghost var at: map<seq<Step>, Node>

    ghost predicate Valid()
      reads this, at.Values`go, at.Values`varName, at.Values`below
    {
      Wired(at) && at[[]] == root
    }

    constructor ()
      ensures Valid() && fresh(at.Values) && Describes(Names(at), {}) && Routed(at, {})
    {
      root := new Node();
      at := map[[] := root];
    }

    /** Makes the child of a node for a literal that it has no child for. */
    method AddPart(n: Node, part: string, ghost p: seq<Step>, ghost D: set<Rule>) returns (child: Node)
      requires Valid() && p in at && at[p] == n && Routed(at, D) && part !in n.go
      modifies this`at, n`go
      ensures Valid() && Routed(at, D)
      ensures p + [Go(part)] !in old(at) && at == old(at)[p + [Go(part)] := child] && fresh(child)
        && child.varName == None
    {
      hide WiredAt, Routed;
      WiredHere(at, p);
      child := new Node();
      AddNode(at, p, Go(part), child);
      n.go := n.go[part := child];
      ghost var was := at;
      at := at[p + [Go(part)] := child];
      RoutedGrows(was, p + [Go(part)], child, D);
      forall q | q in at ensures WiredAt(at[q], at, q) {
        if q == p + [Go(part)] {
          LeafWired(at, q);
        } else if q == p {
          GoWired(was, p, part, child, old(n.go));
        } else {
          Apart(was, p, q);
          assert old(WiredAt(at[q], at, q));
          assert WiredAt(was[q], was, q);
          StaysWired(was, p, Go(part), child, q);
        }
      }
    }

    method AppendPart(n: Node, part: string, ghost p: seq<Step>, ghost D: set<Rule>) returns (child: Node)
      requires Valid() && p in at && at[p] == n && Routed(at, D)
      modifies this`at, n`go
      ensures Valid() && p + [Go(part)] in at && at[p + [Go(part)]] == child
      ensures Routed(at, D) && Grows(old(Names(at)), Names(at), p + [Go(part)])
      ensures at == if p + [Go(part)] in old(at) then old(at) else old(at)[p + [Go(part)] := child]
      ensures p + [Go(part)] !in old(at) ==> fresh(child)
    {
      hide Wired, WiredAt, Routed, Names;
      WiredHere(at, p);
      NamesAre(at);
      if part !in n.go {
        child := AddPart(n, part, p, D);
      } else {
        child := n.go[part];
      }
      NamesAre(at);
    }

    /** Makes the variable of a node that has none. */
    method AddVar(n: Node, name: string, ghost p: seq<Step>, ghost D: set<Rule>) returns (child: Node)
      requires Valid() && p in at && at[p] == n && Routed(at, D) && n.varName == None
      modifies this`at, n`varName, n`below
      ensures Valid() && Routed(at, D) && n.varName == Some(name)
      ensures p + [Any] !in old(at) && at == old(at)[p + [Any] := child] && fresh(child) && child.varName == None
    {
      hide WiredAt, Routed;
      WiredHere(at, p);
      child := new Node();
      AddNode(at, p, Any, child);
      n.varName := Some(name);
      n.below := child;
      ghost var was := at;
      at := at[p + [Any] := child];
      RoutedGrows(was, p + [Any], child, D);
      forall q | q in at ensures WiredAt(at[q], at, q) {
        if q == p + [Any] {
          LeafWired(at, q);
        } else if q == p {
          VarWired(was, p, child);
        } else {
          Apart(was, p, q);
          assert old(WiredAt(at[q], at, q));
          assert WiredAt(was[q], was, q);
          StaysWired(was, p, Any, child, q);
        }
      }
    }

    method AppendVar(n: Node, vars: set<string>, name: string, ghost p: seq<Step>, ghost D: set<Rule>)
      returns (ok: bool, child: Node)
      requires Valid() && p in at && at[p] == n && Routed(at, D)
      modifies this`at, n`varName, n`below
      ensures ok <==> name !in vars && (old(n.varName) == None || old(n.varName) == Some(name))
      ensures Valid()
      ensures ok ==> p + [Any] in at && at[p + [Any]] == child && p in Names(at) && Names(at)[p] == Some(name)
      ensures ok ==> Routed(at, D) && Grows(old(Names(at)), Names(at), p + [Any])
      ensures at == if p + [Any] in old(at) || !ok then old(at) else old(at)[p + [Any] := child]
      ensures ok && p + [Any] !in old(at) ==> fresh(child)
    {
      hide Wired, WiredAt, Routed, Names;
      WiredHere(at, p);
      NamesAre(at);
      ok, child := false, n;
      if name in vars {
        return;
      }
      if n.varName.Some? {
        if n.varName.value != name {
          return;
        }
        child := n.below;
      } else {
        child := AddVar(n, name, p, D);
      }
      NamesAre(at);
      ok := true;
    }

    /** Reads the next segment of a path and goes to its node. */
    method AppendSegment(n: Node, part: string, vars: set<string>, ghost parts: seq<string>, ghost s: seq<Seg>,
                         ghost D: set<Rule>)
      returns (ok: bool, child: Node, newVars: set<string>)
      requires |s| < |parts| && part == parts[|s|] && Walked(Names(at), D, parts, s, vars)
      requires Valid() && Key(s) in at && at[Key(s)] == n && Routed(at, D)
      modifies this`at, n`go, n`varName, n`below
      ensures Valid() && fresh(at.Values - old(at.Values))
      ensures !ok ==> !Accepts(D, parts)
      ensures ok ==> ValidPart(part) && Routed(at, D)
      ensures ok ==> var next := s + [SegOf(part)];
        Walked(Names(at), D, parts, next, newVars) && Key(next) in at && at[Key(next)] == child
    {
      hide Wired, Tree, WiredAt, Describes, Routed, Walked, Accepts, Names, Paths, Grows;
      ghost var names, p := Names(at), Key(s);
      ok, child, newVars := false, n, vars;
      WiredHere(at, p);
      NamesAre(at);
      Rejected(names, D, parts, s, vars);
      if !ValidPart(part) {
        return;
      }
      if part[0] == '$' {
        ok, child := AppendVar(n, vars, part[1..], p, D);
        if !ok {
          return;
        }
        newVars := vars + {part[1..]};
      } else {
        child := AppendPart(n, part, p, D);
        assert newVars == vars + {};
      }
      ok := true;
      WalkOn(names, Names(at), D, parts, s, vars);
    }

    /** Walks down the path, adding the nodes that are missing, and puts the route at its end. */
    method InsertPath(parts: seq<string>, route: nat, ghost D: set<Rule>) returns (ok: bool)
      requires Valid() && Describes(Names(at), Paths(D)) && Routed(at, D)
      modifies this, at.Values
      ensures ok <==> Accepts(D, parts)
      ensures Valid() && fresh(at.Values - old(at.Values))
      ensures ok ==>
        var rules := D + {Rule(Segs(parts), route)}; Describes(Names(at), Paths(rules)) && Routed(at, rules)
    {
      hide Wired, Tree, WiredAt, Describes, Routed, Walked, Accepts, Names, Paths, SegOf, ValidPart;
      var n := root;
      var vars: set<string> := {};
      ghost var s: seq<Seg> := [];
      AtRoot(at, D, parts);
      for j := 0 to |parts|
        invariant |s| == j && Walked(Names(at), D, parts, s, vars)
        invariant Valid() && Key(s) in at && at[Key(s)] == n
        invariant fresh(at.Values - old(at.Values))
        invariant Routed(at, D)
      {
        ok, n, vars := AppendSegment(n, parts[j], vars, parts, s, D);
        if !ok {
          return;
        }
        s := s + [SegOf(parts[j])];
      }
      Arrived(at, D, parts, s, vars);
      if n.current.Some? {
        return false;
      }
      AllApart(at, Key(s));
      n.current := Some(route);
      RouteAdded(at, D, s, route);
      ok := true;
    }

    /** Follows a request through the nodes; each variable on the way takes its segment. */
    method GetRoute(parts: seq<string>, params: map<string, string>, ghost D: set<Rule>)
      returns (route: Option<nat>, bound: map<string, string>)
      requires Valid() && Describes(Names(at), Paths(D)) && Routed(at, D) && Consistent(D)
      ensures var (answer, vars) := Dispatch(D, [], parts, params);
              bound == vars && route == match answer case Some(d) => Some(d.route) case None => None
    {
      hide Wired, Tree, WiredAt, Describes, Routed, Names, Paths, Consistent, Passes, Ends;
      var n := root;
      bound := params;
      ghost var p: seq<Step> := [];
      AtRoot(at, D, []);
      assert parts[0..] == parts;
      for i := 0 to |parts|
        invariant p in at && at[p] == n
        invariant Dispatch(D, [], parts, params) == Dispatch(D, p, parts[i..], bound)
      {
        var part := parts[i];
        assert parts[i..][0] == part && parts[i..][1..] == parts[i + 1..];
        WiredHere(at, p);
        NamesAre(at);
        Crossing(Names(at), D, p, part);
        if part !in n.go {
          if n.varName.Some? {
            bound := bound[n.varName.value := part];
            n := n.below;
            p := p + [Any];
          } else {
            route := None;
            return;
          }
        } else {
          n := n.go[part];
          p := p + [Go(part)];
        }
      }
      assert parts[|parts|..] == [];
      AtLast(at, D, p);
      route := n.current;
    }
  }

  /** The children of a node are the ways on that some rule takes. */
  lemma Crossing(names: map<seq<Step>, Option<string>>, D: set<Rule>, p: seq<Step>, part: string)
    requires Describes(names, Paths(D)) && p in names && Consistent(D)
    ensures p + [Go(part)] in names <==> Passes(D, p + [Go(part)])
    ensures p + [Any] in names <==> Passes(D, p + [Any])
    ensures Passes(D, p + [Any]) ==> names[p] == Some(NameAt(D, p))
  {
    WayOn(names, D, p, Go(part));
    WayOn(names, D, p, Any);
    if Passes(D, p + [Any]) {
      var d := RuleThrough(D, p + [Any]);
      NextIsVar(d.segs, p);
      assert d.segs in Paths(D);
      assert Key(d.segs)[..|p|] == (p + [Any])[..|p|] == p;
    }
  }

  lemma WayOn(names: map<seq<Step>, Option<string>>, D: set<Rule>, p: seq<Step>, step: Step)
    requires Describes(names, Paths(D))
    ensures p + [step] in names <==> Passes(D, p + [step])
  {
    if Passes(D, p + [step]) {
      var d := RuleThrough(D, p + [step]);
      assert d.segs in Paths(D);
    }
    if p + [step] in names {
      var s :| s in Paths(D) && p + [step] <= Key(s);
      var d :| d in D && d.segs == s;
    }
  }

  lemma AtLast(at: map<seq<Step>, Node>, D: set<Rule>, p: seq<Step>)
    requires Routed(at, D) && p in at
    ensures at[p].current == if Ends(D, p) then Some(RuleAt(D, p).route) else None
  {
  }

  /** The path can be registered besides the rules. */
  ghost predicate Accepts(D: set<Rule>, parts: seq<string>) {
    ValidParts(parts) && DistinctVars(Segs(parts)) && forall d :: d in D ==> !Clash(d.segs, Segs(parts))
  }

  /** The segments `s` of the path were read; nothing so far forbids to register it. */
  ghost predicate Walked(names: map<seq<Step>, Option<string>>, D: set<Rule>, parts: seq<string>, s: seq<Seg>,
                         vars: set<string>) {
    && Along(parts, s, vars) && Key(s) in names && Describes(names, Paths(D) + {s})
    && forall d :: d in D ==> NoClashBefore(d.segs, s)
  }

  lemma WalkOn(names: map<seq<Step>, Option<string>>, next: map<seq<Step>, Option<string>>, D: set<Rule>,
               parts: seq<string>, s: seq<Seg>, vars: set<string>)
    requires Walked(names, D, parts, s, vars) && |s| < |parts| && ValidPart(parts[|s|])
    requires Grows(names, next, Key(s) + [StepOf(SegOf(parts[|s|]))])
    requires var seg := SegOf(parts[|s|]); seg.Var? ==> seg.name !in vars && next[Key(s)] == Some(seg.name)
    ensures var seg := SegOf(parts[|s|]);
            && Key(s + [seg]) == Key(s) + [StepOf(seg)]
            && Walked(next, D, parts, s + [seg], vars + if seg.Var? then {seg.name} else {})
  {
    hide Describes, Along, NoClashBefore, Paths;
    var seg := SegOf(parts[|s|]);
    assert Key(s + [seg]) == Key(s) + [StepOf(seg)];
    DescribesStep(names, next, Paths(D), s, seg);
    NoClashStep(next, D, s, seg);
    AlongStep(parts, s, vars);
  }

  /** Each of the errors in the middle of a path means that it cannot be registered. */
  lemma Rejected(names: map<seq<Step>, Option<string>>, D: set<Rule>, parts: seq<string>, s: seq<Seg>,
                 vars: set<string>)
    requires Walked(names, D, parts, s, vars) && |s| < |parts|
    ensures !ValidPart(parts[|s|]) ==> !Accepts(D, parts)
    ensures ValidPart(parts[|s|]) && SegOf(parts[|s|]).Var? ==>
      var name := SegOf(parts[|s|]).name;
      name in vars || (Key(s) + [Any] in names && names[Key(s)].Some? && names[Key(s)].value != name) ==>
        !Accepts(D, parts)
  {
    hide Describes, Along, DistinctVars, Clash;
    if ValidPart(parts[|s|]) && SegOf(parts[|s|]).Var? {
      var name := SegOf(parts[|s|]).name;
      if name in vars {
        DuplicateAt(parts, s, vars, name);
      } else if Key(s) + [Any] in names && names[Key(s)].Some? && names[Key(s)].value != name {
        NameClashAt(names, D, s, parts, vars, name);
      }
    }
  }

  /** The segments read so far, with the names of their variables. */
  ghost predicate Along(parts: seq<string>, s: seq<Seg>, vars: set<string>) {
    && |s| <= |parts| && ValidParts(parts[..|s|]) && s == Segs(parts[..|s|]) && DistinctVars(s)
    && forall x :: x in vars <==> exists i :: 0 <= i < |s| && s[i] == Var(x)
  }

  ghost predicate NoClashBefore(a: seq<Seg>, s: seq<Seg>) {
    forall k :: 0 <= k < |s| ==> !NamesClash(a, s, k)
  }

  lemma AtRoot(at: map<seq<Step>, Node>, D: set<Rule>, parts: seq<string>)
    requires Wired(at) && Describes(Names(at), Paths(D))
    ensures Key([]) == [] && [] in at && Walked(Names(at), D, parts, [], {})
  {
    hide Describes, WiredAt, Paths, Segs, NamesClash;
    NamesAre(at);
    DescribesNothing(Names(at), Paths(D));
    NothingAlong(parts);
  }

  lemma NothingAlong(parts: seq<string>)
    ensures Along(parts, [], {})
  {
    assert parts[..0] == [];
  }

  /** The empty path puts no demand on the names. */
  lemma DescribesNothing(names: map<seq<Step>, Option<string>>, paths: set<seq<Seg>>)
    requires Describes(names, paths) && [] in names
    ensures Describes(names, paths + {[]})
  {
    hide Key;
    KeyOfNothing();
    forall p | p in names && p != [] ensures exists s :: s in paths + {[]} && p <= Key(s) {
      var s :| s in paths && p <= Key(s);
      assert s in paths + {[]};
    }
  }

  lemma KeyOfNothing()
    ensures Key([]) == []
  {
  }

  lemma NamesAre(at: map<seq<Step>, Node>)
    ensures Names(at).Keys == at.Keys && forall p :: p in at ==> p in Names(at) && Names(at)[p] == at[p].varName
  {
  }

  lemma AlongStep(parts: seq<string>, s: seq<Seg>, vars: set<string>)
    requires Along(parts, s, vars) && |s| < |parts| && ValidPart(parts[|s|])
    requires var seg := SegOf(parts[|s|]); seg.Var? ==> seg.name !in vars
    ensures var seg := SegOf(parts[|s|]); Along(parts, s + [seg], vars + if seg.Var? then {seg.name} else {})
  {
    var j := |s|;
    var seg := SegOf(parts[j]);
    assert parts[..j + 1] == parts[..j] + [parts[j]];
    assert Segs(parts[..j + 1]) == s + [seg];
    forall x ensures x in vars + (if seg.Var? then {seg.name} else {})
      <==> exists i :: 0 <= i < j + 1 && (s + [seg])[i] == Var(x) {
      if i :| 0 <= i < j && s[i] == Var(x) {
        assert (s + [seg])[i] == Var(x);
      }
      if seg == Var(x) {
        assert (s + [seg])[j] == Var(x);
      }
    }
    forall i | 0 <= i < j && s[i].Var? && seg.Var? ensures s[i].name != seg.name {
      assert s[i] == Var(s[i].name);
    }
  }

  lemma DuplicateAt(parts: seq<string>, s: seq<Seg>, vars: set<string>, name: string)
    requires Along(parts, s, vars) && |s| < |parts| && ValidPart(parts[|s|]) && SegOf(parts[|s|]) == Var(name)
      && name in vars
    ensures !(ValidParts(parts) && DistinctVars(Segs(parts)))
  {
    if ValidParts(parts) {
      var i :| 0 <= i < |s| && s[i] == Var(name);
      assert parts[..|s|][i] == parts[i];
      assert Segs(parts)[i] == Segs(parts)[|s|];
    }
  }

  lemma SameStart(parts: seq<string>, s: seq<Seg>, vars: set<string>)
    requires Along(parts, s, vars) && ValidParts(parts)
    ensures Segs(parts)[..|s|] == s && Key(Segs(parts))[..|s|] == Key(s)
  {
    assert forall i :: 0 <= i < |s| ==> parts[..|s|][i] == parts[i];
  }

  /** A node whose variable has another name is on a path that clashes with the new one. */
  lemma NameClashAt(names: map<seq<Step>, Option<string>>, D: set<Rule>, s: seq<Seg>, parts: seq<string>,
                    vars: set<string>, name: string)
    requires Describes(names, Paths(D) + {s}) && Key(s) in names && Key(s) + [Any] in names
    requires names[Key(s)].Some? && names[Key(s)].value != name
    requires Along(parts, s, vars) && |s| < |parts| && ValidPart(parts[|s|]) && SegOf(parts[|s|]) == Var(name)
    ensures ValidParts(parts) ==> exists d :: d in D && Clash(d.segs, Segs(parts))
  {
    if ValidParts(parts) {
      var p := Key(s);
      SameStart(parts, s, vars);
      var t :| t in Paths(D) + {s} && p + [Any] <= Key(t);
      NextIsVar(t, p);
      assert t != s;
      var d :| d in D && d.segs == t;
      assert Key(t)[..|s|] == (p + [Any])[..|s|] == p;
      assert NamesClash(t, Segs(parts), |s|);
    }
  }

  /** A name that was accepted is the one of all paths with the same steps before. */
  lemma NoClashStep(names: map<seq<Step>, Option<string>>, D: set<Rule>, s: seq<Seg>, seg: Seg)
    requires Describes(names, Paths(D) + {s + [seg]})
    requires forall d :: d in D ==> NoClashBefore(d.segs, s)
    ensures forall d :: d in D ==> NoClashBefore(d.segs, s + [seg])
  {
    var next := s + [seg];
    forall d, k | d in D && 0 <= k < |next| ensures !NamesClash(d.segs, next, k) {
      assert d.segs in Paths(D) + {next} && next in Paths(D) + {next};
      if k < |s| {
        assert next[k] == s[k] && Key(next)[..k] == Key(s)[..k];
        assert !NamesClash(d.segs, s, k);
      }
    }
  }

  /** At the end of a path that clashes with no name, what is left to clash with is a rule that ends here. */
  lemma Arrived(at: map<seq<Step>, Node>, D: set<Rule>, parts: seq<string>, s: seq<Seg>, vars: set<string>)
    requires Walked(Names(at), D, parts, s, vars) && |s| == |parts| && Key(s) in at && Routed(at, D)
    ensures ValidParts(parts) && Segs(parts) == s && Describes(Names(at), Paths(D) + {s})
    ensures at[Key(s)].current.None? <==> Accepts(D, parts)
    ensures at[Key(s)].current.None? ==> forall d :: d in D ==>
      Key(d.segs) in at && Key(d.segs) != Key(s) && at[Key(d.segs)].current == Some(d.route)
    ensures forall p :: p in at && p != Key(s) && at[p].current.Some? ==> Ends(D, p)
  {
    assert parts[..|s|] == parts;
    if at[Key(s)].current.Some? {
      var d := RuleAt(D, Key(s));
      assert Clash(d.segs, s);
    }
  }

  lemma RouteAdded(at: map<seq<Step>, Node>, D: set<Rule>, s: seq<Seg>, route: nat)
    requires Key(s) in at && at[Key(s)].current == Some(route)
    requires forall d :: d in D ==>
      Key(d.segs) in at && Key(d.segs) != Key(s) && at[Key(d.segs)].current == Some(d.route)
    requires forall p :: p in at && p != Key(s) && at[p].current.Some? ==> Ends(D, p)
    ensures Routed(at, D + {Rule(s, route)}) && Paths(D + {Rule(s, route)}) == Paths(D) + {s}
  {
    var rules := D + {Rule(s, route)};
    forall p | p in at && at[p].current.Some? ensures Ends(rules, p) {
      if p == Key(s) {
        assert Rule(s, route) in rules;
      } else {
        var d := RuleAt(D, p);
        assert d in rules;
      }
    }
    assert Rule(s, route).segs in Paths(rules);
    forall t | t in Paths(D) ensures t in Paths(rules) {
      var d :| d in D && d.segs == t;
      assert d in rules;
    }
  }
}
