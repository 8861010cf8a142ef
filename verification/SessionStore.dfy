/** The session storage: a path-copying trie with lock-free readers. */
module SessionStore {
  import opened Shared
  import opened SessionTrie

  const ID_LENGTH: nat := 32
  const DEPTH: nat := 2 * ID_LENGTH

  /** Five hours, in ticks of the session clock. */
  const AFK_TIME: int := 5 * 3600 * 1_000_000_000

  class Session {
    const perms: bv32
    var loggedOut: bool
    var lastActivity: int

    constructor (perms: bv32)
      ensures this.perms == perms && !loggedOut && lastActivity == 0
    {
      this.perms := perms;
      loggedOut := false;
      lastActivity := 0;
    }
  }

  class TrieNode {
    var children: seq<TrieNode?>
    var ptr: Session?

    constructor (children: seq<TrieNode?>, ptr: Session?)
      ensures this.children == children && this.ptr == ptr
    {
      this.children := children;
      this.ptr := ptr;
    }

    method Clone() returns (copy: TrieNode)
      ensures fresh(copy) && copy.children == children && copy.ptr == ptr
    {
      copy := new TrieNode(children, ptr);
    }
  }

  function Empty(): (kids: seq<TrieNode?>)
    ensures |kids| == FANOUT && forall i :: 0 <= i < FANOUT ==> kids[i] == null
  {
    seq(FANOUT, _ => null)
  }

  predicate Holds(p: Session?, stored: Option<Session>) {
    match stored case None => p == null case Some(s) => p == s
  }

  /** Node `n` stands for trie `t`, all of whose nodes are in `S` and sessions in `A`. */
  ghost predicate Rep(n: TrieNode?, t: Trie<Session>, S: set<TrieNode>, A: set<Session>)
    reads S
    decreases t
  {
    if n == null then t.Absent?
    else
      && n in S && t.Node? && |t.children| == FANOUT == |n.children|
      && Holds(n.ptr, t.session) && (n.ptr == null || n.ptr in A)
      && forall i :: 0 <= i < FANOUT ==> Rep(n.children[i], t.children[i], S, A)
  }

  lemma {:induction false} RepGrows(n: TrieNode?, t: Trie<Session>, S: set<TrieNode>, A: set<Session>,
                                    S': set<TrieNode>, A': set<Session>)
    requires Rep(n, t, S, A) && S <= S' && A <= A'
    ensures Rep(n, t, S', A')
    decreases t
  {
    if n != null {
      forall i | 0 <= i < FANOUT ensures Rep(n.children[i], t.children[i], S', A') {
        RepGrows(n.children[i], t.children[i], S, A, S', A');
      }
    }
  }

  /** A node with these fields is a copy of the top node of `t`, save perhaps for the child at `skip`. */
  ghost predicate Copies(children: seq<TrieNode?>, ptr: Session?, t: Trie<Session>, skip: nat, S: set<TrieNode>,
                         A: set<Session>)
    reads S
  {
    && |children| == FANOUT == |Kids(t)| && Holds(ptr, Stored(t)) && (ptr == null || ptr in A)
    && forall i :: 0 <= i < FANOUT && i != skip ==> Rep(children[i], Kids(t)[i], S, A)
  }

  /** The nodes copied along `path`, each linked to the next, and the subtries they were copied from. */
  ghost predicate Spine(front: seq<TrieNode>, leaf: TrieNode, subs: seq<Trie<Session>>, path: seq<nat>,
                        S: set<TrieNode>, A: set<Session>)
    reads front, S
  {
    && |front| + 1 == |subs| <= |path| + 1 && IsPath(path)
    && forall k :: 0 <= k < |front| ==>
         && Copies(front[k].children, front[k].ptr, subs[k], path[k], S, A)
         && front[k].children[path[k]] == (if k + 1 < |front| then front[k + 1] else leaf)
         && subs[k + 1] == Kids(subs[k])[path[k]]
  }

  lemma SpineAt(front: seq<TrieNode>, leaf: TrieNode, subs: seq<Trie<Session>>, path: seq<nat>, S: set<TrieNode>,
                A: set<Session>, k: nat)
    requires Spine(front, leaf, subs, path, S, A) && k < |front|
    ensures Copies(front[k].children, front[k].ptr, subs[k], path[k], S, A)
    ensures front[k].children[path[k]] == (if k + 1 < |front| then front[k + 1] else leaf)
    ensures subs[k + 1] == Kids(subs[k])[path[k]]
  {
  }

  /** Linking the copy of the next node makes the spine one node longer. */
  lemma SpineGrows(front: seq<TrieNode>, leaf: TrieNode, subs: seq<Trie<Session>>, path: seq<nat>, S: set<TrieNode>,
                   A: set<Session>, next: TrieNode)
    requires Spine(front, leaf, subs, path, S, A) && |front| < |path|
    requires var k := |front|; Copies(leaf.children, leaf.ptr, subs[k], path[k], S, A) && leaf.children[path[k]] == next
    ensures Spine(front + [leaf], next, subs + [Kids(subs[|front|])[path[|front|]]], path, S, A)
  {
    hide Rep;
    var front', subs' := front + [leaf], subs + [Kids(subs[|front|])[path[|front|]]];
    forall k | 0 <= k < |front'|
      ensures Copies(front'[k].children, front'[k].ptr, subs'[k], path[k], S, A)
      ensures front'[k].children[path[k]] == (if k + 1 < |front'| then front'[k + 1] else next)
      ensures subs'[k + 1] == Kids(subs'[k])[path[k]]
    {
      if k < |front| {
        assert front'[k] == front[k] && subs'[k] == subs[k] && subs'[k + 1] == subs[k + 1];
        assert front'[k + 1] == if k + 1 < |front| then front[k + 1] else leaf;
        SpineAt(front, leaf, subs, path, S, A, k);
      } else {
        assert front'[k] == leaf && k + 1 == |front'|;
      }
    }
  }

  /** A copy whose child on the path stands for the child with `s` inserted stands for the whole with `s` inserted. */
  lemma {:induction false} InsertAbove(n: TrieNode, t: Trie<Session>, path: seq<nat>, s: Session, S: set<TrieNode>,
                                       A: set<Session>, S': set<TrieNode>, A': set<Session>)
    requires path != [] && IsPath(path) && Shape(t, |path|)
    requires Copies(n.children, n.ptr, t, path[0], S, A) && n in S' && S <= S' && A <= A'
    requires Rep(n.children[path[0]], Insert(Kids(t)[path[0]], path[1..], s), S', A')
    ensures Rep(n, Insert(t, path, s), S', A')
  {
    forall i | 0 <= i < FANOUT && i != path[0] ensures Rep(n.children[i], Kids(t)[i], S', A') {
      RepGrows(n.children[i], Kids(t)[i], S, A, S', A');
    }
  }

  lemma {:induction false} InsertHere(leaf: TrieNode, t: Trie<Session>, path: seq<nat>, s: Session,
                   S: set<TrieNode>, A: set<Session>, S': set<TrieNode>, A': set<Session>)
    requires path == [] && Shape(t, |path|) && leaf in S' && S <= S' && A <= A' && s in A'
    requires leaf.ptr == s && Copies(leaf.children, null, t, FANOUT, S, A)
    ensures Rep(leaf, Insert(t, path, s), S', A')
  {
    forall i | 0 <= i < FANOUT ensures Rep(leaf.children[i], Kids(t)[i], S', A') {
      RepGrows(leaf.children[i], Kids(t)[i], S, A, S', A');
    }
  }

  /** A complete spine whose leaf holds `s` stands for the trie with `s` inserted. */
  lemma {:induction false} SpineInserts(front: seq<TrieNode>, leaf: TrieNode, subs: seq<Trie<Session>>, path: seq<nat>,
                                        S: set<TrieNode>, A: set<Session>, s: Session, k: nat, S': set<TrieNode>,
                                          A': set<Session>)
    requires Spine(front, leaf, subs, path, S, A) && |front| == |path| && k <= |path|
    requires Shape(subs[k], |path| - k) && IsPath(path[k..])
    requires S <= S' && A <= A' && s in A' && leaf in S' && forall n :: n in front ==> n in S'
    requires leaf.ptr == s && Copies(leaf.children, null, subs[|path|], FANOUT, S, A)
    ensures Rep(if k < |path| then front[k] else leaf, Insert(subs[k], path[k..], s), S', A')
    decreases |path| - k
  {
    hide Rep, Insert;
    if k == |path| {
      InsertHere(leaf, subs[k], path[k..], s, S, A, S', A');
    } else {
      Descend(subs[k], path, k);
      SpineInserts(front, leaf, subs, path, S, A, s, k + 1, S', A');
      assert path[k..][0] == path[k] && path[k..][1..] == path[k + 1..];
      SpineAt(front, leaf, subs, path, S, A, k);
      InsertAbove(front[k], subs[k], path[k..], s, S, A, S', A');
    }
  }

  /** What the collector reads from the clock and from a session when it comes to it; requests may go on
      changing both while it runs. */
  datatype Seen = Seen(now: int, lastActivity: int, loggedOut: bool)

  predicate Live(seen: Seen) {
    !seen.loggedOut && seen.now - seen.lastActivity <= AFK_TIME
  }

  ghost function LiveOf(A: set<Session>, look: Session -> Seen): set<Session> {
    set s | s in A && Live(look(s))
  }

  /** The first `i` of `ns` stand for those of `kids`; the others are still null. */
  ghost predicate Prefix(ns: seq<TrieNode?>, kids: seq<Trie<Session>>, i: nat, below: set<TrieNode>, A: set<Session>)
    reads below
  {
    && i <= FANOUT == |ns| == |kids|
    && (forall j :: 0 <= j < i ==> Rep(ns[j], kids[j], below, A))
    && forall j :: i <= j < FANOUT ==> ns[j] == null
  }

  /** `made` stands for the first `i` of the collected children, or is null while all of them are absent. */
  ghost predicate Collected(made: TrieNode?, kids: seq<Trie<Session>>, i: nat, below: set<TrieNode>, A: set<Session>)
    requires |kids| == FANOUT
    reads made, below
  {
    && i <= FANOUT
    && (made == null <==> forall j :: 0 <= j < i ==> kids[j].Absent?)
    && (made != null ==> made.ptr == null && Prefix(made.children, kids, i, below, A))
  }

  lemma CollectedAbsent(made: TrieNode?, kids: seq<Trie<Session>>, i: nat, below: set<TrieNode>, A: set<Session>)
    requires |kids| == FANOUT && i < FANOUT && Collected(made, kids, i, below, A) && kids[i].Absent?
    ensures Collected(made, kids, i + 1, below, A)
  {
  }

  lemma {:induction false} PrefixGrows(ns: seq<TrieNode?>, kids: seq<Trie<Session>>, i: nat, child: TrieNode,
                    below: set<TrieNode>, grown: set<TrieNode>, A: set<Session>)
    requires Prefix(ns, kids, i, below, A) && i < FANOUT && Rep(child, kids[i], grown, A)
    ensures Prefix(ns[i := child], kids, i + 1, below + grown, A) && kids[i].Node?
  {
    RepGrows(child, kids[i], grown, A, below + grown, A);
    forall j | 0 <= j < i ensures Rep(ns[j], kids[j], below + grown, A) {
      RepGrows(ns[j], kids[j], below, A, below + grown, A);
    }
  }

  lemma PrefixNone(kids: seq<Trie<Session>>, i: nat, below: set<TrieNode>, A: set<Session>)
    requires |kids| == FANOUT && Collected(null, kids, i, below, A)
    ensures Prefix(Empty(), kids, i, below, A)
  {
  }

  lemma CollectedChild(made: TrieNode, kids: seq<Trie<Session>>, i: nat, below: set<TrieNode>, A: set<Session>)
    requires 0 < i && Prefix(made.children, kids, i, below, A) && made.ptr == null && kids[i - 1].Node?
    ensures Collected(made, kids, i, below, A)
  {
  }

  lemma {:induction false} CollectedAll(made: TrieNode?, t: Trie<Session>, live: set<Session>, below: set<TrieNode>,
                     nodes: set<TrieNode>, A: set<Session>)
    requires t.Node? && t.session.None? && |t.children| == FANOUT
    requires Collected(made, GcAll(t.children, live), FANOUT, below, A)
    requires below <= nodes && (made != null ==> made in nodes)
    ensures Rep(made, Gc(t, live), nodes, A)
    ensures Size(Gc(t, live)) == (if made == null then 0 else 1) + SizeAll(GcAll(t.children, live))
  {
    var kids := GcAll(t.children, live);
    if made == null {
      SizeAllAbsent(kids);
    } else {
      forall j | 0 <= j < FANOUT ensures Rep(made.children[j], kids[j], nodes, A) {
        RepGrows(made.children[j], kids[j], below, A, nodes, A);
      }
    }
  }

  lemma {:induction false} CollectedLeaf(made: TrieNode?, t: Trie<Session>, live: set<Session>, s: Session,
                                         nodes: set<TrieNode>, A: set<Session>)
    requires t.Node? && t.session == Some(s) && s in A
    requires if s in live then made != null && made.children == Empty() && made.ptr == s && made in nodes
      else made == null
    ensures Rep(made, Gc(t, live), nodes, A) && Size(Gc(t, live)) == if made == null then 0 else 1
  {
    SizeAllAbsent<Session>(seq(FANOUT, _ => Absent));
  }

  /** What a node that stands for a well-shaped trie looks like. */
  lemma RepNode(n: TrieNode, t: Trie<Session>, h: nat, S: set<TrieNode>, A: set<Session>)
    requires Rep(n, t, S, A) && Shape(t, h)
    ensures t.Node? && |t.children| == FANOUT == |n.children| && Holds(n.ptr, t.session)
    ensures n.ptr != null ==> n.ptr in A && t.session.Some? && t.session.value == n.ptr
    ensures n.ptr == null ==> h > 0 && t.session.None?
    ensures h > 0 ==> forall i :: 0 <= i < FANOUT ==> Shape(t.children[i], h - 1)
    ensures forall i :: 0 <= i < FANOUT ==> Rep(n.children[i], t.children[i], S, A)
    ensures forall i :: 0 <= i < FANOUT && n.children[i] == null ==> t.children[i].Absent?
  {
  }

  /**
   * Rebuilds the part of a trie that leads to live sessions out of fresh nodes, adding the number
   * of nodes made to `count`; the trie it reads is not touched.
   */
  method GcDfs(n: TrieNode, look: Session -> Seen, count: nat,
               ghost t: Trie<Session>, ghost h: nat, ghost S: set<TrieNode>, ghost A: set<Session>)
    returns (made: TrieNode?, total: nat, ghost nodes: set<TrieNode>)
    requires Rep(n, t, S, A) && Shape(t, h)
    ensures fresh(nodes)
    ensures Rep(made, Gc(t, LiveOf(A, look)), nodes, A)
    ensures total == count + Size(Gc(t, LiveOf(A, look)))
    decreases t
  {
    hide Rep, Gc, Size, SizeAll, Shape, Collected, Prefix, GcAll;
    total := count;
    nodes := {};
    ghost var live := LiveOf(A, look);
    RepNode(n, t, h, S, A);
    if n.ptr != null {
      var seen := look(n.ptr);
      if seen.loggedOut || seen.now - seen.lastActivity > AFK_TIME {
        made := null;
        CollectedLeaf(made, t, live, n.ptr, nodes, A);
        return;
      }
      made := new TrieNode(Empty(), n.ptr);
      total := total + 1;
      nodes := {made};
      CollectedLeaf(made, t, live, n.ptr, nodes, A);
      return;
    }
    made := null;
    ghost var kids: seq<Trie<Session>> := GcAll(t.children, live);
    ghost var below: set<TrieNode> := {};
    NothingCollected(kids, A);
    for i := 0 to FANOUT
      invariant fresh(below) && (made != null ==> fresh(made) && made !in below)
      invariant Collected(made, kids, i, below, A)
      invariant total == count + (if made == null then 0 else 1) + SizeAll(kids[..i])
    {
      SizeAllSnoc(kids[..i], kids[i]);
      assert kids[..i] + [kids[i]] == kids[..i + 1];
      if n.children[i] == null {
        GcAbsent(t.children[i], live);
        CollectedAbsent(made, kids, i, below, A);
      } else {
        ghost var grown: set<TrieNode>;
        var child: TrieNode?;
        child, total, grown := GcDfs(n.children[i], look, total, t.children[i], h - 1, S, A);
        if child == null {
          RepNull(kids[i], grown, A);
          CollectedAbsent(made, kids, i, below, A);
        } else {
          if made == null {
            PrefixNone(kids, i, below, A);
            total := total + 1;
            made := new TrieNode(Empty(), null);
          } else {
            CollectedSome(made, kids, i, below, A);
          }
          PrefixGrows(made.children, kids, i, child, below, grown, A);
          made.children := made.children[i := child];
          CollectedChild(made, kids, i + 1, below + grown, A);
          below := below + grown;
        }
      }
    }
    assert kids[..FANOUT] == kids;
    nodes := below + if made == null then {} else {made};
    CollectedAll(made, t, live, below, nodes, A);
  }

  lemma NothingCollected(kids: seq<Trie<Session>>, A: set<Session>)
    requires |kids| == FANOUT
    ensures Collected(null, kids, 0, {}, A) && SizeAll<Session>(kids[..0]) == 0
  {
  }

  lemma {:induction false} GcAbsent(t: Trie<Session>, live: set<Session>)
    requires t.Absent?
    ensures Gc(t, live).Absent? && Size(Gc(t, live)) == 0
  {
  }

  lemma {:induction false} RepNull(t: Trie<Session>, S: set<TrieNode>, A: set<Session>)
    requires Rep(null, t, S, A)
    ensures t.Absent? && Size(t) == 0
  {
  }

  lemma CollectedSome(made: TrieNode, kids: seq<Trie<Session>>, i: nat, below: set<TrieNode>, A: set<Session>)
    requires |kids| == FANOUT && Collected(made, kids, i, below, A)
    ensures made.ptr == null && Prefix(made.children, kids, i, below, A)
  {
  }

  // ---------- the published roots ----------

  /** A root that was published at some time, with the trie it stood for. */
  datatype Published = Published(root: TrieNode?, trie: Trie<Session>)

  function Find(t: Trie<Session>, id: seq<byte>): Option<Session>
    requires Shape(t, DEPTH) && |id| == ID_LENGTH
  {
    Lookup(t, Path(id))
  }

  class SessionStore {
    var root: TrieNode?
    /** Every root ever published, the current one last. */
    ghost var history: seq<Published>
    ghost var nodes: set<TrieNode>
    ghost var sessions: set<Session>

    ghost predicate Valid()
      reads this, nodes
    {
      && 0 < |history| && history[|history| - 1].root == root
      && forall k :: 0 <= k < |history| ==>
           Shape(history[k].trie, DEPTH) && Rep(history[k].root, history[k].trie, nodes, sessions)
    }

    ghost function Trie(): Trie<Session>
      requires 0 < |history|
      reads this
    {
      history[|history| - 1].trie
    }

    constructor ()
      ensures Valid() && Trie().Absent? && fresh(nodes)
    {
      root := null;
      history := [Published(null, Absent)];
      nodes := {};
      sessions := {};
    }

    /** Publishes a root whose nodes are all new: every earlier root keeps its trie. */
    ghost method Publish(next: TrieNode?, t: Trie<Session>, made: set<TrieNode>, A: set<Session>)
      requires 0 < |history| && sessions <= A
      requires forall k :: 0 <= k < |history| ==>
        Shape(history[k].trie, DEPTH) && Rep(history[k].root, history[k].trie, nodes, sessions)
      requires root == next && Shape(t, DEPTH) && Rep(next, t, nodes + made, A)
      modifies this`history, this`nodes, this`sessions
      ensures Valid() && history == old(history) + [Published(next, t)]
      ensures nodes == old(nodes) + made && sessions == A
    {
      forall k | 0 <= k < |history| ensures Rep(history[k].root, history[k].trie, nodes + made, A) {
        RepGrows(history[k].root, history[k].trie, nodes, sessions, nodes + made, A);
      }
      hide Rep, Shape;
      history := history + [Published(next, t)];
      nodes := nodes + made;
      sessions := A;
    }

    /** Copies the nodes on the path of `id`, making those that are missing. */
    method CopyPath(id: seq<byte>) returns (newRoot: TrieNode, leaf: TrieNode, ghost front: seq<TrieNode>,
                    ghost subs: seq<Trie<Session>>)
      requires Valid() && |id| == ID_LENGTH
      ensures |front| == DEPTH == 64 && front[0] == newRoot && leaf !in front && fresh(front) && fresh(leaf)
      ensures Spine(front, leaf, subs, Path(id), nodes, sessions) && subs[0] == Trie()
      ensures Copies(leaf.children, leaf.ptr, subs[DEPTH], FANOUT, nodes, sessions)
      ensures leaf.ptr == null <==> Find(Trie(), id).None?
    {
      hide Rep, Shape, Lookup, Spine, Nibble, Path, Kids, Stored;
      ghost var path, t := Path(id), Trie();
      newRoot := CopyOf(root, t, nodes, sessions);
      leaf := newRoot;
      front, subs := [], [t];
      SpineEmpty(leaf, t, path, nodes, sessions);
      assert path[0..] == path;
      hide Copies;
      for i := 0 to DEPTH
        invariant |front| == i && |subs| == i + 1 && (front + [leaf])[0] == newRoot && subs[0] == t
        invariant fresh(front) && fresh(leaf) && leaf !in front
        invariant Spine(front, leaf, subs, path, nodes, sessions)
        invariant Copies(leaf.children, leaf.ptr, subs[i], FANOUT, nodes, sessions)
        invariant Shape(subs[i], DEPTH - i) && Lookup(t, path) == Lookup(subs[i], path[i..])
      {
        CopiesShape(leaf.children, leaf.ptr, subs[i], nodes, sessions);
        var nibble := Nibble(id, i);
        var child := leaf.children[nibble];
        ghost var sub := Kids(subs[i])[nibble];
        Descend(subs[i], path, i);
        var next := CopyOf(child, sub, nodes, sessions);
        CopiesBut(leaf.children, leaf.ptr, subs[i], nibble, next, nodes, sessions);
        leaf.children := leaf.children[nibble := next];
        SpineGrows(front, leaf, subs, path, nodes, sessions, next);
        front, subs := front + [leaf], subs + [sub];
        leaf := next;
      }
      CopiesShape(leaf.children, leaf.ptr, subs[DEPTH], nodes, sessions);
      StoredAtEnd(subs[DEPTH], path[DEPTH..]);
    }

    /** Stores a session under a fresh id; a taken id leaves everything as it was. */
    method Save(s: Session, id: seq<byte>, now: int) returns (saved: bool)
      requires Valid() && |id| == ID_LENGTH
      modifies this, s`lastActivity
      ensures Valid()
      ensures saved <==> old(Find(Trie(), id)).None?
      ensures saved ==> s.lastActivity == now && |history| == |old(history)| + 1 && old(history) <= history
      ensures saved ==> forall q: seq<byte> :: |q| == ID_LENGTH ==>
        Find(Trie(), q) == if q == id then Some(s) else old(Find(Trie(), q))
      ensures !saved ==> root == old(root) && history == old(history) && s.lastActivity == old(s.lastActivity)
      ensures old(nodes) <= nodes && fresh(nodes - old(nodes)) && sessions == old(sessions) + if saved then {s} else {}
    {
      hide Rep, Shape, Lookup, Insert, Spine, Copies;
      ghost var path, t := Path(id), Trie();
      var newRoot, current;
      ghost var front, subs;
      newRoot, current, front, subs := CopyPath(id);
      saved := current.ptr == null;
      if saved {
        s.lastActivity := now;
        current.ptr := s;
        ghost var made := (set n | n in front) + {current};
        assert path[0..] == path;
        SpineInserts(front, current, subs, path, nodes, sessions, s, 0, nodes + made, sessions + {s});
        SavedMap(t, id, s);
        root := newRoot;
        Publish(newRoot, Insert(t, path, s), made, sessions + {s});
      }
    }

    /** Publishes the live part of the current trie. */
    method RunGc(look: Session -> Seen) returns (count: nat)
      requires Valid()
      modifies this
      ensures Valid() && old(history) <= history && sessions == old(sessions)
      ensures old(nodes) <= nodes && fresh(nodes - old(nodes))
      ensures forall id: seq<byte> :: |id| == ID_LENGTH ==>
        Find(Trie(), id) == if old(Find(Trie(), id)).Some?
          && Live(look(old(Find(Trie(), id)).value)) then old(Find(Trie(), id)) else None
      ensures root == null <==>
        forall id: seq<byte> :: |id| == ID_LENGTH && old(Find(Trie(), id)).Some? ==>
          !Live(look(old(Find(Trie(), id)).value))
      ensures forall id: seq<byte> :: |id| == ID_LENGTH && old(Find(Trie(), id)).Some? ==>
        var seen := look(old(Find(Trie(), id)).value);
        Find(Trie(), id).Some? <==> !seen.loggedOut && seen.now - seen.lastActivity <= 18_000_000_000_000
      ensures count == Size(Trie())
    {
      hide Rep, Shape, Lookup, Gc, Size, Find;
      ghost var t, live := Trie(), LiveOf(sessions, look);
      count := 0;
      CollectedMap(root, t, nodes, sessions, look);
      if root != null {
        ghost var made;
        root, count, made := GcDfs(root, look, 0, t, DEPTH, nodes, sessions);
        RepGrows(root, Gc(t, live), made, sessions, nodes + made, sessions);
        RootNull(root, Gc(t, live), made, sessions);
        Publish(root, Gc(t, live), made, sessions);
      } else {
        RootNull(root, t, nodes, sessions);
      }
      assert Trie() == Gc(t, live);
      forall id: seq<byte> | |id| == ID_LENGTH
        ensures Find(Trie(), id) == if Find(t, id).Some? && Live(look(Find(t, id).value)) then Find(t, id) else None
      {
      }
    }
  }

  lemma {:induction false} RootNull(n: TrieNode?, t: Trie<Session>, S: set<TrieNode>, A: set<Session>)
    requires Rep(n, t, S, A)
    ensures n == null <==> t.Absent?
    ensures n == null ==> Size(t) == 0 && forall live: set<Session> :: Gc(t, live) == t
  {
  }

  /** Every session of a trie is one of the saved sessions. */
  lemma {:induction false} FoundSaved(n: TrieNode?, t: Trie<Session>, path: seq<nat>, S: set<TrieNode>, A: set<Session>)
    requires Rep(n, t, S, A) && Shape(t, |path|) && IsPath(path) && Lookup(t, path).Some?
    ensures Lookup(t, path).value in A
    decreases |path|
  {
    if path != [] {
      FoundSaved(n.children[path[0]], t.children[path[0]], path[1..], S, A);
    }
  }

  /** Collection keeps exactly the live sessions under their ids, and leaves no trie iff there are none. */
  lemma {:induction false} CollectedMap(n: TrieNode?, t: Trie<Session>, S: set<TrieNode>, A: set<Session>,
                                        look: Session -> Seen)
    requires Rep(n, t, S, A) && Shape(t, DEPTH)
    ensures var r := Gc(t, LiveOf(A, look));
            && Shape(r, DEPTH)
            && (forall id: seq<byte> :: |id| == ID_LENGTH ==>
                  Find(r, id) == if Find(t, id).Some? && Live(look(Find(t, id).value)) then Find(t, id) else None)
            && (r.Absent? <==> forall id: seq<byte> :: |id| == ID_LENGTH && Find(t, id).Some? ==>
                 !Live(look(Find(t, id).value)))
  {
    hide Rep, Shape, Lookup, Gc, Live;
    var live := LiveOf(A, look);
    var r := Gc(t, live);
    GcMap(t, DEPTH, live);
    GcNothingIff(t, DEPTH, live);
    forall id: seq<byte> | |id| == ID_LENGTH && Find(t, id).Some?
      ensures Find(t, id).value in live <==> Live(look(Find(t, id).value))
    {
      FoundSaved(n, t, Path(id), S, A);
    }
    if forall id: seq<byte> :: |id| == ID_LENGTH && Find(t, id).Some? ==> !Live(look(Find(t, id).value)) {
      forall q: seq<nat> | |q| == DEPTH && IsPath(q) && Lookup(t, q).Some? ensures Lookup(t, q).value !in live {
        var id := PathOnto(q);
        assert Find(t, id).Some?;
      }
    }
  }

  lemma SpineEmpty(leaf: TrieNode, t: Trie<Session>, path: seq<nat>, S: set<TrieNode>, A: set<Session>)
    requires IsPath(path)
    ensures Spine([], leaf, [t], path, S, A)
  {
  }

  /** A copy of a node that may be changed, or an empty one. */
  method CopyOf(n: TrieNode?, ghost t: Trie<Session>, ghost S: set<TrieNode>, ghost A: set<Session>)
    returns (copy: TrieNode)
    requires Rep(n, t, S, A)
    ensures fresh(copy) && Copies(copy.children, copy.ptr, t, FANOUT, S, A)
  {
    hide *;
    if n == null {
      copy := new TrieNode(Empty(), null);
    } else {
      copy := n.Clone();
    }
    CopiesTop(n, t, copy.children, copy.ptr, S, A);
  }

  lemma {:induction false} CopiesTop(n: TrieNode?, t: Trie<Session>, children: seq<TrieNode?>, ptr: Session?,
                                     S: set<TrieNode>, A: set<Session>)
    requires Rep(n, t, S, A)
    requires if n == null then children == Empty() && ptr == null else children == n.children && ptr == n.ptr
    ensures Copies(children, ptr, t, FANOUT, S, A)
  {
  }

  lemma {:induction false} CopiesShape(children: seq<TrieNode?>, ptr: Session?, t: Trie<Session>, S: set<TrieNode>,
                                       A: set<Session>)
    requires Copies(children, ptr, t, FANOUT, S, A)
    ensures |children| == FANOUT == |Kids(t)| && Holds(ptr, Stored(t))
    ensures forall i :: 0 <= i < FANOUT ==> Rep(children[i], Kids(t)[i], S, A)
  {
  }

  lemma CopiesBut(children: seq<TrieNode?>, ptr: Session?, t: Trie<Session>, i: nat, next: TrieNode, S: set<TrieNode>,
                  A: set<Session>)
    requires Copies(children, ptr, t, FANOUT, S, A) && i < FANOUT
    ensures Copies(children[i := next], ptr, t, i, S, A)
  {
  }

  lemma {:induction false} StoredAtEnd(t: Trie<Session>, path: seq<nat>)
    requires Shape(t, 0) && path == []
    ensures Lookup(t, path).None? <==> Stored(t).None?
  {
  }

  /** Inserting along the path of one id changes what is found under that id alone. */
  lemma {:induction false} SavedMap(t: Trie<Session>, id: seq<byte>, s: Session)
    requires Shape(t, DEPTH) && |id| == ID_LENGTH && Find(t, id).None?
    ensures Shape(Insert(t, Path(id), s), DEPTH)
    ensures forall q: seq<byte> :: |q| == ID_LENGTH ==>
      Find(Insert(t, Path(id), s), q) == if q == id then Some(s) else Find(t, q)
  {
    InsertMap(t, Path(id), s);
    forall q: seq<byte> | |q| == ID_LENGTH && q != id ensures Path(q) != Path(id) {
      if Path(q) == Path(id) {
        PathInjective(q, id);
      }
    }
  }

  lemma Descend(t: Trie<Session>, path: seq<nat>, i: nat)
    requires i < |path| && IsPath(path) && IsPath(path[i..]) && Shape(t, |path| - i)
    ensures IsPath(path[i + 1..]) && |Kids(t)| == FANOUT && Shape(Kids(t)[path[i]], |path| - (i + 1))
    ensures Lookup(t, path[i..]) == Lookup(Kids(t)[path[i]], path[i + 1..])
  {
    assert path[i..][0] == path[i] && path[i..][1..] == path[i + 1..];
  }

  // ---------- readers ----------

  /** What a writer may do between two steps of a reader. */
  datatype Write = Store(session: Session, id: seq<byte>,
    now: int) | Collect(look: Session -> Seen) | Logout(session: Session)

  predicate WritesOf(writes: seq<Write>, A: set<Session>) {
    forall k :: 0 <= k < |writes| && !writes[k].Collect? ==>
      writes[k].session in A && (writes[k].Store? ==> |writes[k].id| == ID_LENGTH)
  }

  method Perform(store: SessionStore, writes: seq<Write>, ghost A: set<Session>)
    requires store.Valid() && WritesOf(writes, A)
    modifies store, A`lastActivity, A`loggedOut
    ensures store.Valid() && old(store.history) <= store.history
    ensures old(store.nodes) <= store.nodes && fresh(store.nodes - old(store.nodes))
    ensures old(store.sessions) <= store.sessions
  {
    for k := 0 to |writes|
      invariant store.Valid() && old(store.history) <= store.history
      invariant old(store.nodes) <= store.nodes && fresh(store.nodes - old(store.nodes))
      invariant old(store.sessions) <= store.sessions
    {
      match writes[k] {
        case Store(session, id, now) => var _ := store.Save(session, id, now);
        case Collect(look) => var _ := store.RunGc(look);
        case Logout(session) => session.loggedOut := true;
      }
    }
  }

  /** A request on its way down the root that it loaded, which stood for `loaded` at that time. */
  class Reader {
    var current: TrieNode?
    var i: nat
    ghost const loaded: Trie<Session>
    ghost const nodes: set<TrieNode>
    ghost const sessions: set<Session>
    ghost var sub: Trie<Session>

    /**
     * What the reader will find is what its root held for `id` when it was loaded. This depends on
     * the nodes of that root only, and writers never change a node that was published.
     */
    ghost predicate Reading(id: seq<byte>)
      requires |id| == ID_LENGTH
      reads this, nodes
    {
      && i <= DEPTH && Shape(loaded, DEPTH) && Shape(sub, DEPTH - i)
      && Rep(current, sub, nodes, sessions)
      && Lookup(sub, Path(id)[i..]) == Find(loaded, id)
    }

    constructor (store: SessionStore, ghost id: seq<byte>)
      requires store.Valid() && |id| == ID_LENGTH
      ensures Reading(id) && i == 0 && loaded == store.Trie() && nodes == store.nodes && sessions == store.sessions
    {
      current := store.root;
      i := 0;
      loaded := store.Trie();
      nodes := store.nodes;
      sessions := store.sessions;
      sub := store.Trie();
      new;
      assert Path(id)[0..] == Path(id);
    }

    method Step(id: seq<byte>)
      requires |id| == ID_LENGTH && Reading(id) && current != null && i < DEPTH
      modifies this
      ensures Reading(id) && i == old(i) + 1
    {
      hide Rep, Shape, Lookup, Nibble, Path;
      var nibble := Nibble(id, i);
      Descend(sub, Path(id), i);
      RepNode(current, sub, DEPTH - i, nodes, sessions);
      assert Kids(sub) == sub.children;
      current := current.children[nibble];
      sub := sub.children[nibble];
      i := i + 1;
    }

    /** At the end of the walk the current node answers for the whole trie. */
    lemma Arrived(id: seq<byte>)
      requires |id| == ID_LENGTH && Reading(id) && (i == DEPTH || current == null)
      ensures match Find(loaded, id)
              case None => current == null || current.ptr == null
              case Some(s) => current != null && current.ptr == s
      ensures current != null && current.ptr != null ==> current.ptr in sessions
    {
    }
  }

  /** A reader goes down to the end of its path while writers write. */
  method Walk(r: Reader, store: SessionStore, id: seq<byte>, writes: seq<seq<Write>>, ghost A: set<Session>)
    requires store.Valid() && |id| == ID_LENGTH && r.Reading(id) && r.i == 0
    requires |writes| == DEPTH && forall i :: 0 <= i < DEPTH ==> WritesOf(writes[i], A)
    modifies r, store, A`lastActivity, A`loggedOut
    ensures r.Reading(id) && (r.i == DEPTH || r.current == null)
    ensures store.Valid() && old(store.history) <= store.history
  {
    hide *;
    while r.i < DEPTH && r.current != null
      invariant r.i <= DEPTH && r.Reading(id) && store.Valid() && old(store.history) <= store.history
      decreases DEPTH - r.i
    {
      Perform(store, writes[r.i], A);
      r.Step(id);
    }
  }

  /** The rights include all that are asked for. */
  predicate Allows(perms: bv32, mask: bv32) {
    perms & mask == mask
  }

  /** A single right. */
  predicate OneBit(b: bv32) {
    b != 0 && b & (b - 1) == 0
  }

  ghost predicate HasAll(perms: bv32, mask: bv32) {
    forall b: bv32 :: OneBit(b) && mask & b != 0 ==> perms & b != 0
  }

  lemma KeptBit(perms: bv32, mask: bv32, b: bv32)
    requires perms & mask == mask && OneBit(b) && mask & b != 0
    ensures perms & b != 0
  {
  }

  lemma MissingBit(perms: bv32, mask: bv32) returns (b: bv32)
    requires perms & mask != mask
    ensures OneBit(b) && mask & b != 0 && perms & b == 0
  {
    var missing := mask & !perms;
    b := missing & (0 - missing);
  }

  /** The test of all rights at once is the test of each. */
  lemma AllowsIff(perms: bv32, mask: bv32)
    ensures Allows(perms, mask) <==> HasAll(perms, mask)
  {
    if Allows(perms, mask) {
      forall b: bv32 | OneBit(b) && mask & b != 0 ensures perms & b != 0 {
        KeptBit(perms, mask, b);
      }
    } else {
      var b := MissingBit(perms, mask);
    }
  }

  lemma HasAllIs(perms: bv32, mask: bv32)
    ensures HasAll(perms, mask) <==> forall b: bv32 :: OneBit(b) && mask & b != 0 ==> perms & b != 0
  {
  }

  lemma NothingAsked(perms: bv32)
    ensures HasAll(perms, 0)
  {
    forall b: bv32 | OneBit(b) ensures 0 & b == 0 {
    }
  }

  /** What a reader finds is what the storage held when it loaded the root. */
  method Seek(store: SessionStore, id: seq<byte>, writes: seq<seq<Write>>, ghost A: set<Session>)
    returns (found: Session?)
    requires store.Valid() && |id| == ID_LENGTH
    requires |writes| == DEPTH && forall i :: 0 <= i < DEPTH ==> WritesOf(writes[i], A)
    modifies store, A`lastActivity, A`loggedOut
    ensures match old(Find(store.Trie(), id)) case None => found == null case Some(s) => found == s
    ensures found != null ==> found in old(store.sessions)
    ensures store.Valid() && old(store.history) <= store.history
  {
    hide *;
    var r := new Reader(store, id);
    Walk(r, store, id, writes, A);
    r.Arrived(id);
    found := if r.current == null then null else r.current.ptr;
  }

  /**
   * Finds the session of a signed id and checks its rights, while `writes[i]` happen just before
   * step `i`: the session is the one that the storage held when the root was loaded, and the logouts
   * that count are those made before the end of the walk.
   */
  method RequireAuth(store: SessionStore, id: seq<byte>, mask: bv32, now: int, writes: seq<seq<Write>>,
                     ghost A: set<Session>)
    returns (found: Session?)
    requires store.Valid() && |id| == ID_LENGTH
    requires |writes| == DEPTH && forall i :: 0 <= i < DEPTH ==> WritesOf(writes[i], A)
    modifies store, A`lastActivity, A`loggedOut, store.sessions`lastActivity
    ensures var s := old(Find(store.Trie(), id));
            if s.Some? && !s.value.loggedOut && HasAll(s.value.perms, mask)
            then found == s.value && found.lastActivity == now
            else found == null
    ensures found != null ==> forall b: bv32 :: OneBit(b) && mask & b != 0 ==> found.perms & b != 0
    ensures var s := old(Find(store.Trie(), id)); mask == 0 && s.Some? && !s.value.loggedOut ==> found == s.value
    ensures store.Valid() && old(store.history) <= store.history
  {
    hide *;
    found := Seek(store, id, writes, A);
    if found != null {
      AllowsIff(found.perms, mask);
      HasAllIs(found.perms, mask);
      NothingAsked(found.perms);
    }
    if found == null || found.loggedOut || !Allows(found.perms, mask) {
      found := null;
    } else {
      found.lastActivity := now;
    }
  }
}
