/** The session trie as a value: insertion, lookup and collection. */
module SessionTrie {
  import opened Shared

  datatype Trie<S> = Absent | Node(children: seq<Trie<S>>, session: Option<S>)

  const FANOUT: nat := 16

  // ---------- paths ----------

  predicate IsPath(path: seq<nat>) {
    forall k :: 0 <= k < |path| ==> path[k] < FANOUT
  }

  /** Half `i` of an id: the low half of a byte comes before its high half. */
  function Nibble(id: seq<byte>, i: nat): (n: nat)
    requires i < 2 * |id|
    ensures n < FANOUT
  {
    if i % 2 == 0 then id[i / 2] % 16 else id[i / 2] / 16
  }

  function Path(id: seq<byte>): (path: seq<nat>)
    ensures |path| == 2 * |id| && IsPath(path)
    ensures forall i :: 0 <= i < |path| ==> path[i] == Nibble(id, i)
  {
    seq(2 * |id|, i requires 0 <= i < 2 * |id| => Nibble(id, i))
  }

  /** Different ids of one length have different paths. */
  lemma PathInjective(a: seq<byte>, b: seq<byte>)
    requires Path(a) == Path(b)
    ensures a == b
  {
    assert |Path(a)| == |Path(b)|;
    forall k | 0 <= k < |a| ensures a[k] == b[k] {
      assert Path(a)[2 * k] == Path(b)[2 * k] && Path(a)[2 * k + 1] == Path(b)[2 * k + 1];
      assert (2 * k) / 2 == k && (2 * k + 1) / 2 == k && (2 * k + 1) % 2 == 1;
      assert a[k] == a[k] / 16 * 16 + a[k] % 16 && b[k] == b[k] / 16 * 16 + b[k] % 16;
    }
  }

  /** The path names the low half of each byte and then its high half. */
  lemma PathBytes(id: seq<byte>, k: nat)
    requires k < |id|
    ensures Path(id)[2 * k] + 16 * Path(id)[2 * k + 1] == id[k]
  {
    assert (2 * k) / 2 == k && (2 * k + 1) / 2 == k && (2 * k + 1) % 2 == 1;
  }

  /** Every path of even length is the path of an id. */
  lemma PathOnto(path: seq<nat>) returns (id: seq<byte>)
    requires IsPath(path) && |path| % 2 == 0
    ensures 2 * |id| == |path| && Path(id) == path
  {
    id := seq(|path| / 2, k requires 0 <= k < |path| / 2 => path[2 * k] + 16 * path[2 * k + 1]);
    forall i | 0 <= i < |path| ensures Path(id)[i] == path[i] {
      assert i == 2 * (i / 2) + i % 2;
    }
  }

  // ---------- tries ----------

  function Kids<S>(t: Trie<S>): (kids: seq<Trie<S>>)
    ensures t.Absent? ==> |kids| == FANOUT
  {
    if t.Absent? then seq(FANOUT, _ => Absent) else t.children
  }

  function Stored<S>(t: Trie<S>): Option<S> {
    if t.Absent? then None else t.session
  }

  /** Sessions are exactly at depth `h`, and every branch leads to one. */
  predicate Shape<S>(t: Trie<S>, h: nat)
    decreases h
  {
    t.Node? ==>
      && |t.children| == FANOUT
      && if h == 0 then t.session.Some? && forall i :: 0 <= i < FANOUT ==> t.children[i].Absent?
         else t.session.None? && (forall i :: 0 <= i < FANOUT ==> Shape(t.children[i], h - 1))
              && exists i :: 0 <= i < FANOUT && t.children[i].Node?
  }

  function Lookup<S>(t: Trie<S>, path: seq<nat>): Option<S>
    requires Shape(t, |path|) && IsPath(path)
    decreases |path|
  {
    if t.Absent? then None
    else if path == [] then t.session
    else Lookup(t.children[path[0]], path[1..])
  }

  function Insert<S>(t: Trie<S>, path: seq<nat>, s: S): Trie<S>
    requires Shape(t, |path|) && IsPath(path)
    decreases |path|
  {
    if path == [] then Node(Kids(t), Some(s))
    else Node(Kids(t)[path[0] := Insert(Kids(t)[path[0]], path[1..], s)], Stored(t))
  }

  lemma {:induction false} InsertShape<S>(t: Trie<S>, path: seq<nat>, s: S)
    requires Shape(t, |path|) && IsPath(path)
    ensures Shape(Insert(t, path, s), |path|) && Insert(t, path, s).Node?
    decreases |path|
  {
    if path != [] {
      InsertShape(Kids(t)[path[0]], path[1..], s);
      assert Insert(t, path, s).children[path[0]].Node?;
    }
  }

  lemma {:induction false} InsertLookup<S>(t: Trie<S>, path: seq<nat>, s: S, q: seq<nat>)
    requires Shape(t, |path|) && IsPath(path) && |q| == |path| && IsPath(q)
    ensures Shape(Insert(t, path, s), |path|)
    ensures Lookup(Insert(t, path, s), q) == if q == path then Some(s) else Lookup(t, q)
    decreases |path|
  {
    InsertShape(t, path, s);
    if path != [] {
      assert q == [q[0]] + q[1..] && path == [path[0]] + path[1..];
      if q[0] == path[0] {
        InsertLookup(Kids(t)[path[0]], path[1..], s, q[1..]);
      }
    }
  }

  /** Saving a new id adds it to the map and changes nothing else. */
  lemma {:induction false} InsertMap<S>(t: Trie<S>, path: seq<nat>, s: S)
    requires Shape(t, |path|) && IsPath(path) && Lookup(t, path).None?
    ensures Shape(Insert(t, path, s), |path|)
    ensures forall q: seq<nat> :: |q| == |path| && IsPath(q) ==>
      Lookup(Insert(t, path, s), q) == if q == path then Some(s) else Lookup(t, q)
  {
    hide *;
    InsertShape(t, path, s);
    forall q: seq<nat> | |q| == |path| && IsPath(q)
      ensures Lookup(Insert(t, path, s), q) == if q == path then Some(s) else Lookup(t, q)
    {
      InsertLookup(t, path, s, q);
    }
  }

  // ---------- collection ----------

  function Gc<S>(t: Trie<S>, live: set<S>): Trie<S> {
    match t
    case Absent => Absent
    case Node(children, Some(s)) => if s in live then Node(seq(FANOUT, _ => Absent), Some(s)) else Absent
    case Node(children, None) => Branch(GcAll(children, live))
  }

  /** A branch above these children, unless all are absent. */
  function Branch<S>(kids: seq<Trie<S>>): Trie<S> {
    if forall i :: 0 <= i < |kids| ==> kids[i].Absent? then Absent else Node(kids, None)
  }

  function GcAll<S>(ts: seq<Trie<S>>, live: set<S>): (kids: seq<Trie<S>>)
    ensures |kids| == |ts| && forall i :: 0 <= i < |ts| ==> kids[i] == Gc(ts[i], live)
  {
    if ts == [] then [] else [Gc(ts[0], live)] + GcAll(ts[1..], live)
  }

  function Size<S>(t: Trie<S>): nat {
    if t.Absent? then 0 else 1 + SizeAll(t.children)
  }

  function SizeAll<S>(ts: seq<Trie<S>>): nat {
    if ts == [] then 0 else Size(ts[0]) + SizeAll(ts[1..])
  }

  lemma {:induction false} GcShape<S>(t: Trie<S>, h: nat, live: set<S>)
    requires Shape(t, h)
    ensures Shape(Gc(t, live), h)
    decreases h
  {
    hide GcAll, Gc, Shape, Branch;
    if t.Absent? || h == 0 {
      GcLeafShape(t, h, live);
    } else {
      ShapeBelow(t, h);
      GcBranch(t, live);
      var kids := GcAll(t.children, live);
      forall i | 0 <= i < FANOUT ensures Shape(kids[i], h - 1) {
        GcShape(t.children[i], h - 1, live);
      }
      BranchShape(kids, h);
    }
  }

  lemma {:induction false} GcLeafShape<S>(t: Trie<S>, h: nat, live: set<S>)
    requires Shape(t, h) && (t.Absent? || h == 0)
    ensures Shape(Gc(t, live), h)
  {
  }

  lemma ShapeBelow<S>(t: Trie<S>, h: nat)
    requires Shape(t, h) && t.Node? && h > 0
    ensures |t.children| == FANOUT && t.session.None? && forall i :: 0 <= i < FANOUT ==> Shape(t.children[i], h - 1)
  {
  }

  lemma {:induction false} GcBranch<S>(t: Trie<S>, live: set<S>)
    requires t.Node? && t.session.None?
    ensures Gc(t, live) == Branch(GcAll(t.children, live))
  {
    hide GcAll, Branch;
  }

  /** Children of one depth make a branch, or nothing if all are absent. */
  lemma {:induction false} BranchShape<S>(kids: seq<Trie<S>>, h: nat)
    requires h > 0 && |kids| == FANOUT && forall i :: 0 <= i < FANOUT ==> Shape(kids[i], h - 1)
    ensures Shape(Branch(kids), h)
  {
  }

  /** Collection keeps the session at a path iff it is live. */
  lemma {:induction false} GcLookup<S>(t: Trie<S>, path: seq<nat>, live: set<S>)
    requires Shape(t, |path|) && IsPath(path)
    ensures Shape(Gc(t, live), |path|)
    ensures Lookup(Gc(t, live), path) == if Lookup(t, path).Some?
      && Lookup(t, path).value in live then Lookup(t, path) else None
    decreases |path|
  {
    GcShape(t, |path|, live);
    if t.Node? && path != [] {
      GcLookup(t.children[path[0]], path[1..], live);
    }
  }

  /** Collection keeps exactly the live sessions under their ids, and no branch without one. */
  lemma {:induction false} GcMap<S>(t: Trie<S>, h: nat, live: set<S>)
    requires Shape(t, h)
    ensures Shape(Gc(t, live), h)
    ensures forall q: seq<nat> :: |q| == h && IsPath(q) ==>
      Lookup(Gc(t, live), q) == if Lookup(t, q).Some? && Lookup(t, q).value in live then Lookup(t, q) else None
  {
    hide *;
    GcShape(t, h, live);
    forall q: seq<nat> | |q| == h && IsPath(q)
      ensures Lookup(Gc(t, live), q) == if Lookup(t, q).Some? && Lookup(t, q).value in live then Lookup(t, q) else None
    {
      GcLookup(t, q, live);
    }
  }

  /** Some path leads to every session of a trie, so an empty map has no trie. */
  lemma {:induction false} SomeSession<S>(t: Trie<S>, h: nat) returns (q: seq<nat>)
    requires Shape(t, h) && t.Node?
    ensures |q| == h && IsPath(q) && Lookup(t, q).Some?
    decreases h
  {
    if h == 0 {
      q := [];
    } else {
      var i :| 0 <= i < FANOUT && t.children[i].Node?;
      var rest := SomeSession(t.children[i], h - 1);
      q := [i] + rest;
      assert q[1..] == rest;
    }
  }

  /** Collection leaves nothing iff no session of the trie is live. */
  lemma {:induction false} GcNothingIff<S>(t: Trie<S>, h: nat, live: set<S>)
    requires Shape(t, h)
    ensures Gc(t, live).Absent? <==>
      forall q: seq<nat> :: |q| == h && IsPath(q) && Lookup(t, q).Some? ==> Lookup(t, q).value !in live
  {
    GcMap(t, h, live);
    if Gc(t, live).Node? {
      var q := SomeSession(Gc(t, live), h);
      assert Lookup(t, q).Some?;
    } else {
      forall q: seq<nat> | |q| == h && IsPath(q) && Lookup(t, q).Some? ensures Lookup(t, q).value !in live {
        assert Lookup(Gc(t, live), q).None?;
      }
    }
  }

  lemma {:induction false} SizeAllSnoc<S>(ts: seq<Trie<S>>, t: Trie<S>)
    ensures SizeAll(ts + [t]) == SizeAll(ts) + Size(t)
  {
    if ts == [] {
      assert ts + [t] == [t];
    } else {
      assert (ts + [t])[1..] == ts[1..] + [t];
      SizeAllSnoc(ts[1..], t);
    }
  }

  lemma {:induction false} SizeAllAbsent<S>(ts: seq<Trie<S>>)
    requires forall i :: 0 <= i < |ts| ==> ts[i].Absent?
    ensures SizeAll(ts) == 0
  {
    if ts != [] {
      SizeAllAbsent(ts[1..]);
    }
  }
}
