/** Overlapping requests for id ranges: every atomic access to shared state is one step. */
module IdInterleaving {
  import opened Shared
  import opened IdRanges

  /** A block of ids; `next` and `ptr` are atomics. */
  datatype Block = Block(start: int, end: int, ptr: int, next: Option<nat>)

  /** The atomic pointer that a request is about to read or write. */
  datatype Where = Head(session: nat) | Next(block: nat)

  /**
   * Where a request is: about to load `place`, to compare or advance the pointer of a block, to
   * take a block from the database or to link it, or done. `own` marks the block that it made itself.
   */
  datatype Request =
    | AtLoad(place: Where, len: int)
    | AtCheck(block: nat, own: bool)
    | AtAdd(block: nat, own: bool)
    | AtIncrement(place: Where, len: int)
    | AtStore(place: Where, block: nat)
    | Served(block: nat, lo: int, hi: int, own: bool)
    | Sorry(block: nat)

  /** Request `maker` has linked a block. */
  datatype Store = Store(place: Where, block: nat, maker: nat)

  /** `sessions` and `stores` only record the session of each request and the blocks that were linked. */
  datatype State = State(db: int, heads: map<nat, nat>, blocks: seq<Block>, requests: seq<Request>,
                         sessions: seq<nat>, stores: seq<Store>)

  /** A new request of a session arrives, or request `r` makes its next atomic step. */
  datatype Action = Arrive(session: nat) | Step(r: nat)

  function Init(db: int): (s: State)
    ensures Inv(s)
  {
    State(db, map[], [], [], [], [])
  }

  predicate Wellformed(s: State) {
    && (forall session :: session in s.heads ==> s.heads[session] < |s.blocks|)
    && (forall b :: 0 <= b < |s.blocks| && s.blocks[b].next.Some? ==> s.blocks[b].next.value < |s.blocks|)
    && (forall r :: 0 <= r < |s.requests| ==> RequestWellformed(s.requests[r], s.blocks))
    && |s.sessions| == |s.requests|
  }

  predicate RequestWellformed(q: Request, blocks: seq<Block>) {
    match q
    case AtLoad(place, len) => len > 0 && (place.Next? ==> place.block < |blocks|)
    case AtIncrement(place, len) => len > 0 && (place.Next? ==> place.block < |blocks|)
    case AtStore(place, b) => b < |blocks| && (place.Next? ==> place.block < |blocks|)
    case Served(b, _, _, _) => b < |blocks|
    case _ => q.block < |blocks|
  }

  function Load(s: State, place: Where): Option<nat>
    requires place.Next? ==> place.block < |s.blocks|
  {
    match place
    case Head(session) => if session in s.heads then Some(s.heads[session]) else None
    case Next(b) => s.blocks[b].next
  }

  function Link(s: State, place: Where, b: nat): State
    requires place.Next? ==> place.block < |s.blocks|
  {
    match place
    case Head(session) => s.(heads := s.heads[session := b])
    case Next(a) => s.(blocks := s.blocks[a := s.blocks[a].(next := Some(b))])
  }

  /** A block that cannot serve sends the request on to the next one, unless it is the request's own. */
  function Refused(blocks: seq<Block>, b: nat, own: bool): Request
    requires b < |blocks|
  {
    if own then Sorry(b) else AtLoad(Next(b), 2 * (blocks[b].end - blocks[b].start))
  }

  function Advance(s: State, r: nat): State
    requires Wellformed(s) && r < |s.requests|
  {
    match s.requests[r]
    case AtLoad(place, len) =>
      var at := Load(s, place);
      s.(requests := s.requests[r := if at.None? then AtIncrement(place, len) else AtCheck(at.value, false)])
    case AtCheck(b, own) =>
      s.(requests := s.requests[r :=
        if s.blocks[b].ptr < s.blocks[b].end then AtAdd(b, own) else Refused(s.blocks, b, own)])
    case AtAdd(b, own) =>
      var block := s.blocks[b];
      var result := block.ptr;
      s.(blocks := s.blocks[b := block.(ptr := result + MAX_IDS)],
         requests := s.requests[r :=
           if result < block.end then Served(b, result, Min(result + MAX_IDS, block.end), own)
             else Refused(s.blocks, b, own)])
    case AtIncrement(place, len) =>
      var end := s.db + len;
      s.(db := end, blocks := s.blocks + [Block(end - len, end, end - len, None)],
         requests := s.requests[r := AtStore(place, |s.blocks|)])
    case AtStore(place, b) =>
      Link(s, place, b).(requests := s.requests[r := AtCheck(b, true)], stores := s.stores + [Store(place, b, r)])
    case _ => s
  }

  function Act(s: State, a: Action): State
    requires Wellformed(s)
  {
    match a
    case Arrive(session) => s.(requests := s.requests + [AtLoad(Head(session), 2)], sessions := s.sessions + [session])
    case Step(r) => if r < |s.requests| then Advance(s, r) else s
  }

  /** The state after a run. */
  ghost function Run(s: State, actions: seq<Action>): State
    requires Inv(s)
    decreases |actions|
  {
    if actions == [] then s
    else
      ActKeepsInv(s, actions[0]);
      Run(Act(s, actions[0]), actions[1..])
  }

  // ---------- the invariant ----------

  ghost predicate BlocksInv(blocks: seq<Block>, db: int) {
    && (forall b :: 0 <= b < |blocks| ==> blocks[b].start <= blocks[b].ptr && blocks[b].start < blocks[b].end <= db)
    && forall a, b :: 0 <= a < b < |blocks| ==> blocks[a].end <= blocks[b].start
  }

  /** What a request was given lies in its block, below the block's pointer. */
  ghost predicate Inside(q: Request, blocks: seq<Block>) {
    q.Served? ==>
      && q.block < |blocks| && q.lo < q.hi
      && blocks[q.block].start <= q.lo && q.hi <= blocks[q.block].end && q.hi <= blocks[q.block].ptr
  }

  ghost predicate Disjoint(p: Request, q: Request) {
    p.Served? && q.Served? ==> p.hi <= q.lo || q.hi <= p.lo
  }

  /** Request `r` was given this id of block `b`. */
  predicate Gives(s: State, r: nat, b: nat, id: int) {
    r < |s.requests| && s.requests[r].Served? && s.requests[r].block == b && s.requests[r].lo <= id < s.requests[r].hi
  }

  ghost predicate Given(s: State, b: nat, id: int) {
    exists r :: Gives(s, r, b, id)
  }

  /** Every id of the block below its pointer was given to some request. */
  ghost predicate HandedOut(s: State, b: nat) {
    b < |s.blocks| ==> forall id :: s.blocks[b].start <= id < s.blocks[b].end && id < s.blocks[b].ptr ==>
      Given(s, b, id)
  }

  ghost predicate Inv(s: State) {
    && Wellformed(s) && BlocksInv(s.blocks, s.db)
    && (forall r :: 0 <= r < |s.requests| ==> Inside(s.requests[r], s.blocks))
    && (forall p, q :: 0 <= p < q < |s.requests| ==> Disjoint(s.requests[p], s.requests[q]))
    && (forall b :: 0 <= b < |s.blocks| ==> HandedOut(s, b))
    && forall r :: 0 <= r < |s.requests| && s.requests[r].Sorry? ==> UsedUp(s.blocks, s.requests[r].block)
  }

  predicate UsedUp(blocks: seq<Block>, b: nat) {
    b < |blocks| && blocks[b].ptr >= blocks[b].end
  }

  lemma GivenStays(s: State, a: Action, b: nat, id: int)
    requires Wellformed(s) && Given(s, b, id)
    ensures Given(Act(s, a), b, id)
  {
    var r :| Gives(s, r, b, id);
    assert Gives(Act(s, a), r, b, id);
  }

  lemma ActKeepsInv(s: State, a: Action)
    requires Inv(s)
    ensures Inv(Act(s, a))
  {
    hide HandedOut, UsedUp, Advance, BlocksInv, Wellformed, RequestWellformed, Inside, Disjoint;
    var t := Act(s, a);
    forall b | 0 <= b < |t.blocks| ensures HandedOut(t, b) {
      StepHandsOut(s, a, b);
    }
    if a.Step? && a.r < |s.requests| {
      StepFrame(s, a.r);
      StepKeepsBlocks(s, a.r);
      StepGives(s, a.r);
      StepUsesUp(s, a.r);
    } else {
      Arrived(s, t);
    }
  }

  lemma Arrived(s: State, t: State)
    requires Inv(s)
    requires t == s || exists x :: t == s.(requests := s.requests + [AtLoad(Head(x), 2)], sessions := s.sessions + [x])
    ensures Wellformed(t) && BlocksInv(t.blocks, t.db)
    ensures forall r :: 0 <= r < |t.requests| ==> Inside(t.requests[r], t.blocks)
    ensures forall p, q :: 0 <= p < q < |t.requests| ==> Disjoint(t.requests[p], t.requests[q])
    ensures forall r :: 0 <= r < |t.requests| && t.requests[r].Sorry? ==> UsedUp(t.blocks, t.requests[r].block)
  {
    hide HandedOut;
  }

  /** A step changes one request; blocks stay where they are and pointers only grow. */
  lemma StepFrame(s: State, r: nat)
    requires Wellformed(s) && r < |s.requests|
    ensures var t := Advance(s, r);
            && |t.requests| == |s.requests| && (forall q :: 0 <= q < |s.requests| && q != r ==>
                 t.requests[q] == s.requests[q])
            && |s.blocks| <= |t.blocks|
            && forall b :: 0 <= b < |s.blocks| ==>
                 t.blocks[b].start == s.blocks[b].start && t.blocks[b].end == s.blocks[b].end
                   && t.blocks[b].ptr >= s.blocks[b].ptr
  {
  }

  lemma StepKeepsBlocks(s: State, r: nat)
    requires Wellformed(s) && BlocksInv(s.blocks, s.db) && r < |s.requests|
    ensures var t := Advance(s, r); Wellformed(t) && BlocksInv(t.blocks, t.db)
  {
    StepWellformed(s, r);
    var t := Advance(s, r);
    StepFrame(s, r);
    assert RequestWellformed(s.requests[r], s.blocks);
    hide Wellformed, RequestWellformed;
    assert forall a, b :: 0 <= a < b < |t.blocks| && b < |s.blocks| ==> t.blocks[a].end <= t.blocks[b].start;
  }

  lemma StepWellformed(s: State, r: nat)
    requires Wellformed(s) && BlocksInv(s.blocks, s.db) && r < |s.requests|
    ensures Wellformed(Advance(s, r))
  {
    var t := Advance(s, r);
    StepFrame(s, r);
    assert RequestWellformed(s.requests[r], s.blocks);
    forall q | 0 <= q < |t.requests| ensures RequestWellformed(t.requests[q], t.blocks) {
      assert RequestWellformed(s.requests[q], s.blocks);
    }
  }

  /** Ids are given away from the block's pointer on, which no request was given before. */
  lemma StepGives(s: State, r: nat)
    requires Inv(s) && r < |s.requests|
    ensures var t := Advance(s, r);
            && (forall q :: 0 <= q < |t.requests| ==> Inside(t.requests[q], t.blocks))
            && (forall p, q :: 0 <= p < q < |t.requests| ==> Disjoint(t.requests[p], t.requests[q]))
  {
    var t := Advance(s, r);
    StepFrame(s, r);
    hide HandedOut, UsedUp;
    assert Inside(t.requests[r], t.blocks) && forall q :: 0 <= q < |s.requests| && q != r ==>
      Disjoint(s.requests[q], t.requests[r]) by {
      GivenIsNew(s, r);
    }
    hide Advance, Wellformed, BlocksInv;
    forall q | 0 <= q < |t.requests| ensures Inside(t.requests[q], t.blocks) {
      assert q != r ==> Inside(s.requests[q], s.blocks);
    }
    forall p, q | 0 <= p < q < |t.requests| ensures Disjoint(t.requests[p], t.requests[q]) {
      assert Disjoint(s.requests[p], s.requests[q]);
    }
  }

  lemma GivenIsNew(s: State, r: nat)
    requires Inv(s) && r < |s.requests|
    ensures var t := Advance(s, r);
            Inside(t.requests[r], t.blocks) && forall q :: 0 <= q < |s.requests| && q != r ==>
              Disjoint(s.requests[q], t.requests[r])
  {
    hide HandedOut, UsedUp;
    match s.requests[r] {
      case AtAdd(b, own) =>
        forall q | 0 <= q < |s.requests| && q != r ensures Disjoint(s.requests[q], Advance(s, r).requests[r]) {
          assert Inside(s.requests[q], s.blocks);
        }
      case Served(_, _, _, _) =>
        forall q | 0 <= q < |s.requests| && q != r ensures Disjoint(s.requests[q], s.requests[r]) {
          assert if q < r then Disjoint(s.requests[q], s.requests[r]) else Disjoint(s.requests[r], s.requests[q]);
        }
      case _ =>
    }
  }

  /** What a step takes off a block it gives to the request that makes the step. */
  lemma StepHandsOut(s: State, a: Action, b: nat)
    requires Inv(s) && b < |Act(s, a).blocks|
    ensures HandedOut(Act(s, a), b)
  {
    hide Inside, Disjoint, UsedUp;
    var t := Act(s, a);
    if a.Step? && a.r < |s.requests| {
      assert RequestWellformed(s.requests[a.r], s.blocks);
    }
    if b < |s.blocks| {
      forall id | t.blocks[b].start <= id < t.blocks[b].end && id < t.blocks[b].ptr ensures Given(t, b, id) {
        if id < s.blocks[b].ptr {
          assert HandedOut(s, b);
          GivenStays(s, a, b, id);
        } else {
          assert Gives(t, a.r, b, id);
        }
      }
    } else {
      assert t.blocks[b].ptr == t.blocks[b].start;
    }
  }

  lemma StepUsesUp(s: State, r: nat)
    requires Inv(s) && r < |s.requests|
    ensures var t := Advance(s, r);
            forall q :: 0 <= q < |t.requests| && t.requests[q].Sorry? ==> UsedUp(t.blocks, t.requests[q].block)
  {
    hide HandedOut, Inside, Disjoint;
    var t := Advance(s, r);
    StepFrame(s, r);
    forall q | 0 <= q < |t.requests| && t.requests[q].Sorry? ensures UsedUp(t.blocks, t.requests[q].block) {
      assert q != r ==> UsedUp(s.blocks, s.requests[q].block);
    }
  }

  /** Every run keeps the invariant. */
  lemma {:induction false} RunKeepsInv(s: State, actions: seq<Action>)
    requires Inv(s)
    ensures Inv(Run(s, actions))
    decreases |actions|
  {
    if actions != [] {
      ActKeepsInv(s, actions[0]);
      RunKeepsInv(Act(s, actions[0]), actions[1..]);
    }
  }

  /** In every interleaving of requests, no id is given to two requests. */
  lemma {:induction false} GivenDisjoint(db: int, actions: seq<Action>)
    ensures var t := Run(Init(db), actions);
            forall p, q :: 0 <= p < q < |t.requests| && t.requests[p].Served? && t.requests[q].Served? ==>
              Between(t.requests[p].lo, t.requests[p].hi) !! Between(t.requests[q].lo, t.requests[q].hi)
  {
    var t := Run(Init(db), actions);
    RunKeepsInv(Init(db), actions);
    forall p, q | 0 <= p < q < |t.requests| ensures Disjoint(t.requests[p], t.requests[q]) {
    }
  }

  // ---------- what was linked where ----------

  /** The request made block `b` and has linked it. */
  predicate Owns(q: Request, b: nat) {
    q == AtCheck(b, true) || q == AtAdd(b, true) || q == Sorry(b) || (q.Served? && q.block == b && q.own)
  }

  predicate Done(q: Request) {
    q.Served? || q.Sorry?
  }

  /** Store `i` linked block `b` into the list of the session. */
  predicate StoredBy(s: State, i: nat, b: nat, session: nat) {
    i < |s.stores| && s.stores[i].block == b && s.stores[i].maker < |s.sessions|
      && s.sessions[s.stores[i].maker] == session
  }

  ghost predicate Stored(s: State, b: nat, session: nat) {
    exists i :: StoredBy(s, i, b, session)
  }

  ghost predicate PlaceOf(s: State, place: Where, session: nat) {
    match place
    case Head(x) => x == session
    case Next(a) => Stored(s, a, session)
  }

  /** The block that was linked last at a place. */
  function LastAt(stores: seq<Store>, place: Where): Option<nat> {
    if stores == [] then None
    else
      var last := stores[|stores| - 1];
      if last.place == place then Some(last.block) else LastAt(stores[..|stores| - 1], place)
  }

  /** A request stays inside the list of its session. */
  ghost predicate InList(s: State, r: nat)
    requires r < |s.requests| == |s.sessions|
  {
    match s.requests[r]
    case AtLoad(place, _) => PlaceOf(s, place, s.sessions[r])
    case AtIncrement(place, _) => PlaceOf(s, place, s.sessions[r])
    case AtStore(place, b) =>
      && PlaceOf(s, place, s.sessions[r])
      && forall i :: 0 <= i < |s.stores| ==> s.stores[i].block != b
    case q => Stored(s, q.block, s.sessions[r])
  }

  ghost predicate StoreOk(s: State, i: nat)
    requires i < |s.stores|
  {
    var x := s.stores[i];
    && x.maker < |s.requests| == |s.sessions| && x.block < |s.blocks| && Owns(s.requests[x.maker], x.block)
    && match x.place
       case Head(session) => session == s.sessions[x.maker]
       case Next(a) => exists p: nat :: p < i && StoredBy(s, p, a, s.sessions[x.maker])
  }

  /** What the record says about the lists and about where the requests are. */
  ghost predicate Recorded(s: State) {
    && Wellformed(s)
    && (forall i :: 0 <= i < |s.stores| ==> StoreOk(s, i))
    && (forall i, j :: 0 <= i < j < |s.stores| ==> s.stores[i].block != s.stores[j].block)
    && (forall r :: 0 <= r < |s.requests| ==> InList(s, r))
    && (forall p, q :: 0 <= p < q < |s.requests| && s.requests[p].AtStore? && s.requests[q].AtStore? ==>
          s.requests[p].block != s.requests[q].block)
    && (forall session :: Load(s, Head(session)) == LastAt(s.stores, Head(session)))
    && forall b :: 0 <= b < |s.blocks| ==> Load(s, Next(b)) == LastAt(s.stores, Next(b))
  }

  lemma StoredSession(s: State, b: nat, x: nat, y: nat)
    requires Recorded(s) && Stored(s, b, x) && Stored(s, b, y)
    ensures x == y
  {
  }

  lemma PlaceSession(s: State, place: Where, x: nat, y: nat)
    requires Recorded(s) && PlaceOf(s, place, x) && PlaceOf(s, place, y)
    ensures x == y
  {
    hide Recorded, Stored;
    if place.Next? {
      StoredSession(s, place.block, x, y);
    }
  }

  /** The last store at a place is one of the record that no later one overwrites. */
  lemma {:induction false} LastStore(stores: seq<Store>, place: Where) returns (i: nat)
    ensures LastAt(stores, place).None? ==> forall j :: 0 <= j < |stores| ==> stores[j].place != place
    ensures LastAt(stores, place).Some? ==>
      && i < |stores| && stores[i].place == place && stores[i].block == LastAt(stores, place).value
      && forall j :: i < j < |stores| ==> stores[j].place != place
  {
    i := 0;
    if stores != [] {
      var n := |stores| - 1;
      if stores[n].place == place {
        i := n;
      } else {
        i := LastStore(stores[..n], place);
        assert forall j :: 0 <= j < n ==> stores[..n][j] == stores[j];
      }
    }
  }

  lemma StorePlace(s: State, i: nat)
    requires Recorded(s) && i < |s.stores|
    ensures StoreOk(s, i) && PlaceOf(s, s.stores[i].place, s.sessions[s.stores[i].maker])
  {
    assert StoreOk(s, i);
    if s.stores[i].place.Next? {
      var a := s.stores[i].place.block;
      var p: nat :| p < i && StoredBy(s, p, a, s.sessions[s.stores[i].maker]);
      assert Stored(s, a, s.sessions[s.stores[i].maker]);
    }
  }

  /** What a request finds at a place of its list was linked by requests of its session. */
  lemma FoundInList(s: State, place: Where, session: nat)
    requires Recorded(s) && PlaceOf(s, place, session) && (place.Next? ==> place.block < |s.blocks|)
    requires Load(s, place).Some?
    ensures Stored(s, Load(s, place).value, session)
  {
    assert Load(s, place) == LastAt(s.stores, place);
    hide Recorded, StoreOk, Stored;
    var i := LastStore(s.stores, place);
    StorePlace(s, i);
    StoreOwner(s, i);
    PlaceSession(s, place, session, s.sessions[s.stores[i].maker]);
    StoredAt(s, i);
  }

  lemma StoreOwner(s: State, i: nat)
    requires Recorded(s) && i < |s.stores|
    ensures s.stores[i].maker < |s.requests| == |s.sessions| && Owns(s.requests[s.stores[i].maker], s.stores[i].block)
    ensures s.stores[i].block < |s.blocks|
  {
    assert StoreOk(s, i);
  }

  lemma StoredAt(s: State, i: nat)
    requires i < |s.stores| && s.stores[i].maker < |s.sessions|
    ensures Stored(s, s.stores[i].block, s.sessions[s.stores[i].maker])
  {
    assert StoredBy(s, i, s.stores[i].block, s.sessions[s.stores[i].maker]);
  }

  // ---------- the record is kept ----------

  lemma StoredStays(s: State, a: Action, b: nat, session: nat)
    requires Wellformed(s) && Stored(s, b, session)
    ensures Stored(Act(s, a), b, session)
  {
    var i :| StoredBy(s, i, b, session);
    assert StoredBy(Act(s, a), i, b, session);
  }

  lemma PlaceStays(s: State, a: Action, place: Where, session: nat)
    requires Wellformed(s) && PlaceOf(s, place, session)
    ensures PlaceOf(Act(s, a), place, session)
  {
    hide Stored;
    if place.Next? {
      StoredStays(s, a, place.block, session);
    }
  }

  lemma ActFrame(s: State, a: Action)
    requires Wellformed(s)
    ensures var t := Act(s, a);
            && s.sessions <= t.sessions && s.stores <= t.stores && |s.blocks| <= |t.blocks|
                 && |s.requests| <= |t.requests|
            && |t.sessions| == |t.requests|
            && (forall i, b :: 0 <= i < |s.requests| && Owns(s.requests[i], b) ==> Owns(t.requests[i], b))
  {
  }

  /** Only a request that stores adds to the record, and from then on it owns the block. */
  lemma ActStores(s: State, a: Action)
    requires Wellformed(s) && |Act(s, a).stores| > |s.stores|
    ensures a.Step? && a.r < |s.requests| && s.requests[a.r].AtStore?
    ensures var place, b := s.requests[a.r].place, s.requests[a.r].block;
            Act(s, a).stores == s.stores + [Store(place, b, a.r)] && Owns(Act(s, a).requests[a.r], b)
  {
  }

  lemma KeepsStore(s: State, a: Action, i: nat)
    requires Recorded(s) && i < |Act(s, a).stores| && Wellformed(Act(s, a))
    ensures StoreOk(Act(s, a), i)
  {
    var t := Act(s, a);
    ActFrame(s, a);
    if i < |s.stores| {
      assert StoreOk(s, i);
      hide Act, Recorded, Owns;
      var x := s.stores[i];
      if x.place.Next? {
        var p: nat :| p < i && StoredBy(s, p, x.place.block, s.sessions[x.maker]);
        assert StoredBy(t, p, x.place.block, t.sessions[x.maker]);
      }
    } else {
      ActStores(s, a);
      assert InList(s, a.r);
      var place := s.requests[a.r].place;
      if place.Next? {
        var p :| StoredBy(s, p, place.block, s.sessions[a.r]);
        assert StoredBy(t, p, place.block, t.sessions[a.r]);
      }
    }
  }

  lemma KeepsBlocksApart(s: State, a: Action)
    requires Recorded(s)
    ensures var t := Act(s, a); forall i, j :: 0 <= i < j < |t.stores| ==> t.stores[i].block != t.stores[j].block
  {
    ActFrame(s, a);
    if |Act(s, a).stores| > |s.stores| {
      ActStores(s, a);
      assert InList(s, a.r);
    }
  }

  lemma KeepsInList(s: State, a: Action, r: nat)
    requires Recorded(s) && r < |Act(s, a).requests|
    ensures |Act(s, a).sessions| == |Act(s, a).requests|
    ensures InList(Act(s, a), r)
  {
    ActFrame(s, a);
    if a == Step(r) && r < |s.requests| {
      KeepsMover(s, r);
    } else if r < |s.requests| {
      KeepsBystander(s, a, r);
    }
  }

  /** A request that does not move stays where it is, and its block is not linked by another. */
  lemma KeepsBystander(s: State, a: Action, r: nat)
    requires Recorded(s) && r < |s.requests| && a != Step(r)
    ensures r < |Act(s, a).requests| == |Act(s, a).sessions| && InList(Act(s, a), r)
  {
    ActFrame(s, a);
    assert InList(s, r);
    var q, t := s.requests[r], Act(s, a);
    assert t.requests[r] == q && t.sessions[r] == s.sessions[r];
    if q.AtLoad? || q.AtIncrement? || q.AtStore? {
      PlaceStays(s, a, q.place, s.sessions[r]);
      if q.AtStore? && |t.stores| > |s.stores| {
        ActStores(s, a);
        var p := a.r;
        assert if p < r then s.requests[p].block != q.block else q.block != s.requests[p].block;
      }
    } else {
      StoredStays(s, a, q.block, s.sessions[r]);
    }
  }

  lemma KeepsMover(s: State, r: nat)
    requires Recorded(s) && r < |s.requests|
    ensures |Advance(s, r).sessions| == |Advance(s, r).requests| && InList(Advance(s, r), r)
  {
    assert InList(s, r) && RequestWellformed(s.requests[r], s.blocks);
    var t := Advance(s, r);
    match s.requests[r] {
      case AtLoad(place, _) =>
        PlaceStays(s, Step(r), place, s.sessions[r]);
        if Load(s, place).Some? {
          FoundInList(s, place, s.sessions[r]);
          StoredStays(s, Step(r), Load(s, place).value, s.sessions[r]);
        }
      case AtIncrement(place, _) =>
        PlaceStays(s, Step(r), place, s.sessions[r]);
        forall i | 0 <= i < |t.stores| ensures t.stores[i].block != |s.blocks| {
          StoreOwner(s, i);
        }
      case AtStore(place, b) =>
        StoredAt(t, |s.stores|);
      case q =>
        StoredStays(s, Step(r), q.block, s.sessions[r]);
    }
  }

  lemma KeepsStoring(s: State, a: Action)
    requires Recorded(s)
    ensures var t := Act(s, a);
            forall p, q :: 0 <= p < q < |t.requests| && t.requests[p].AtStore? && t.requests[q].AtStore? ==>
              t.requests[p].block != t.requests[q].block
  {
    hide InList, StoreOk, LastAt;
    assert forall q :: 0 <= q < |s.requests| ==> RequestWellformed(s.requests[q], s.blocks);
  }

  /** Each place holds the block that was linked there last. */
  lemma {:induction false} KeepsLinks(s: State, a: Action, place: Where)
    requires Recorded(s) && Wellformed(Act(s, a)) && (place.Next? ==> place.block < |Act(s, a).blocks|)
    ensures Load(Act(s, a), place) == LastAt(Act(s, a).stores, place)
  {
    hide InList, StoreOk;
    var t := Act(s, a);
    if a.Step? && a.r < |s.requests| {
      assert RequestWellformed(s.requests[a.r], s.blocks);
    }
    assert place.Head? || place.block < |s.blocks| ==> Load(s, place) == LastAt(s.stores, place);
    if a.Step? && a.r < |s.requests| && s.requests[a.r].AtStore? {
      assert t.stores[..|s.stores|] == s.stores;
    } else if place.Next? && place.block == |s.blocks| {
      NeverAt(s, place.block);
    }
  }

  /** Nothing was linked after a block that does not exist yet. */
  lemma NeverAt(s: State, b: nat)
    requires Recorded(s) && b >= |s.blocks|
    ensures LastAt(s.stores, Next(b)).None?
  {
    var i := LastStore(s.stores, Next(b));
    if LastAt(s.stores, Next(b)).Some? {
      assert StoreOk(s, i);
      var p: nat :| p < i && StoredBy(s, p, b, s.sessions[s.stores[i].maker]);
      StoreOwner(s, p);
    }
  }

  lemma ActKeepsRecord(s: State, a: Action)
    requires Recorded(s) && Inv(s)
    ensures Recorded(Act(s, a))
  {
    ActKeepsInv(s, a);
    var t := Act(s, a);
    assert Wellformed(t);
    KeepsBlocksApart(s, a);
    KeepsStoring(s, a);
    hide Act, Inv, InList, StoreOk, LastAt, Load, Wellformed;
    forall i | 0 <= i < |t.stores| ensures StoreOk(t, i) {
      KeepsStore(s, a, i);
    }
    ActFrame(s, a);
    forall r | 0 <= r < |t.requests| ensures InList(t, r) {
      KeepsInList(s, a, r);
    }
    forall session: nat ensures Load(t, Head(session)) == LastAt(t.stores, Head(session)) {
      KeepsLinks(s, a, Head(session));
    }
    forall b | 0 <= b < |t.blocks| ensures Load(t, Next(b)) == LastAt(t.stores, Next(b)) {
      KeepsLinks(s, a, Next(b));
    }
  }

  lemma {:induction false} RunKeepsRecord(s: State, actions: seq<Action>)
    requires Recorded(s) && Inv(s)
    ensures Recorded(Run(s, actions))
    decreases |actions|
  {
    hide Recorded, Act, Wellformed, BlocksInv, HandedOut, UsedUp, Inside, Disjoint;
    if actions != [] {
      ActKeepsRecord(s, actions[0]);
      ActKeepsInv(s, actions[0]);
      RunKeepsRecord(Act(s, actions[0]), actions[1..]);
    }
  }

  // ---------- when a request fails ----------

  ghost predicate GivenToOther(s: State, r: nat, b: nat, id: int) {
    exists q :: q != r && Gives(s, q, b, id)
  }

  /** A request only ever fails when every id of its block was given to others. */
  lemma {:induction false} SorryAllGiven(db: int, actions: seq<Action>, r: nat)
    requires r < |Run(Init(db), actions).requests| && Run(Init(db), actions).requests[r].Sorry?
    ensures var t := Run(Init(db), actions);
            var b := t.requests[r].block;
            b < |t.blocks| && forall id :: t.blocks[b].start <= id < t.blocks[b].end ==> GivenToOther(t, r, b, id)
  {
    hide Run, Wellformed, BlocksInv;
    var t := Run(Init(db), actions);
    RunKeepsInv(Init(db), actions);
    var b := t.requests[r].block;
    assert UsedUp(t.blocks, b) && HandedOut(t, b);
    forall id | t.blocks[b].start <= id < t.blocks[b].end ensures GivenToOther(t, r, b, id) {
      assert Given(t, b, id);
      var q :| Gives(t, q, b, id);
    }
  }

  /** A request that has linked its own block and is done fails iff every id of the block went to others. */
  lemma {:induction false} SorryIff(db: int, actions: seq<Action>, i: nat)
    requires var t := Run(Init(db), actions);
             i < |t.stores| && t.stores[i].maker < |t.requests| && Done(t.requests[t.stores[i].maker])
    ensures var t := Run(Init(db), actions);
            var r, b := t.stores[i].maker, t.stores[i].block;
            && b < |t.blocks| && (t.requests[r].Sorry? ==> t.requests[r].block == b)
            && (t.requests[r].Sorry? <==>
                  forall id :: t.blocks[b].start <= id < t.blocks[b].end ==> GivenToOther(t, r, b, id))
  {
    hide Recorded, Run, Wellformed, BlocksInv;
    var t := Run(Init(db), actions);
    RunKeepsInv(Init(db), actions);
    InitRecorded(db);
    RunKeepsRecord(Init(db), actions);
    StoreOwner(t, i);
    var r, b := t.stores[i].maker, t.stores[i].block;
    if t.requests[r].Sorry? {
      SorryAllGiven(db, actions, r);
    } else {
      OwnIdsOnly(t, r);
      assert !GivenToOther(t, r, b, t.requests[r].lo);
    }
  }

  /** What a request was given, no other request was given. */
  lemma OwnIdsOnly(t: State, r: nat)
    requires Inv(t) && r < |t.requests| && t.requests[r].Served?
    ensures var q := t.requests[r];
            && q.block < |t.blocks| && t.blocks[q.block].start <= q.lo < t.blocks[q.block].end
            && forall p: nat :: Gives(t, p, q.block, q.lo) ==> p == r
  {
    hide Wellformed, HandedOut, UsedUp, BlocksInv;
    var q := t.requests[r];
    assert Inside(q, t.blocks);
    forall p: nat | Gives(t, p, q.block, q.lo) ensures p == r {
      assert Inside(t.requests[p], t.blocks);
      if p != r {
        Apart(t, p, r);
      }
    }
  }

  lemma Apart(t: State, p: nat, r: nat)
    requires Inv(t) && p < |t.requests| && r < |t.requests| && p != r
    ensures Disjoint(t.requests[p], t.requests[r])
  {
    assert if p < r then Disjoint(t.requests[p], t.requests[r]) else Disjoint(t.requests[r], t.requests[p]);
  }

  // ---------- when a block is lost ----------

  /** Store `k` made one of the links from the head of the list to the block of store `i`. */
  ghost predicate OnChain(stores: seq<Store>, k: nat, i: nat)
    requires i < |stores|
    decreases i
  {
    k == i || (stores[i].place.Next? && exists p: nat ::
      p < i && stores[p].block == stores[i].place.block && OnChain(stores, k, p))
  }

  /** A later store of another request wrote the same place. */
  ghost predicate Overwritten(stores: seq<Store>, k: nat) {
    exists j :: k < j < |stores| && stores[j].place == stores[k].place && stores[j].maker != stores[k].maker
  }

  ghost predicate Reachable(s: State, session: nat, b: nat) {
    exists fuel: nat :: b in Reached(s.blocks, Load(s, Head(session)), fuel)
  }

  /** All links on the chain are still there. */
  ghost predicate Kept(stores: seq<Store>, i: nat)
    requires i < |stores|
    decreases i
  {
    && (forall j :: i < j < |stores| ==> stores[j].place != stores[i].place)
    && (stores[i].place.Next? ==> forall p: nat :: p < i && stores[p].block == stores[i].place.block ==>
         Kept(stores, p))
  }

  lemma MakersDiffer(s: State, i: nat, j: nat)
    requires Recorded(s) && i < j < |s.stores|
    ensures s.stores[i].maker != s.stores[j].maker
  {
    StoreOwner(s, i);
    StoreOwner(s, j);
  }

  lemma {:induction false} KeptIff(s: State, i: nat)
    requires Recorded(s) && i < |s.stores|
    ensures Kept(s.stores, i) <==> !exists k: nat ::
      k < |s.stores| && OnChain(s.stores, k, i) && Overwritten(s.stores, k)
    decreases i
  {
    hide Recorded;
    var stores := s.stores;
    forall p: nat | p < i ensures Kept(stores, p)
      <==> !exists k: nat :: k < |stores| && OnChain(stores, k, p) && Overwritten(stores, k) {
      KeptIff(s, p);
    }
    if j :| i < j < |stores| && stores[j].place == stores[i].place {
      MakersDiffer(s, i, j);
      assert OnChain(stores, i, i) && Overwritten(stores, i);
    } else if p: nat :| stores[i].place.Next? && p < i && stores[p].block == stores[i].place.block && !Kept(stores, p) {
      var k: nat :| k < |stores| && OnChain(stores, k, p) && Overwritten(stores, k);
      assert OnChain(stores, k, i);
    }
  }

  lemma {:induction false} ReachedNext(blocks: seq<Block>, at: Option<nat>, fuel: nat, a: nat)
    requires a in Reached(blocks, at, fuel) && a < |blocks| && blocks[a].next.Some? && blocks[a].next.value < |blocks|
    ensures blocks[a].next.value in Reached(blocks, at, fuel + 1)
    decreases fuel
  {
    if a == at.value {
      assert blocks[a].next.value in Reached(blocks, blocks[a].next, fuel);
    } else {
      ReachedNext(blocks, blocks[at.value].next, fuel - 1, a);
    }
  }

  lemma {:induction false} LastIs(stores: seq<Store>, i: nat)
    requires i < |stores| && forall j :: i < j < |stores| ==> stores[j].place != stores[i].place
    ensures LastAt(stores, stores[i].place) == Some(stores[i].block)
  {
    var n := |stores| - 1;
    if i < n {
      assert stores[..n][i] == stores[i] && forall j :: 0 <= j < n ==> stores[..n][j] == stores[j];
      LastIs(stores[..n], i);
    }
  }

  /** A block whose chain was not overwritten is found from the head of its session. */
  lemma {:induction false} KeptReachable(s: State, i: nat)
    requires Recorded(s) && i < |s.stores| && Kept(s.stores, i)
    ensures s.stores[i].maker < |s.sessions| && Reachable(s, s.sessions[s.stores[i].maker], s.stores[i].block)
    decreases i
  {
    hide Reached, Owns, InList;
    var x := s.stores[i];
    StoreOwner(s, i);
    assert StoreOk(s, i);
    LastIs(s.stores, i);
    var session := s.sessions[x.maker];
    match x.place {
      case Head(y) =>
        ReachedFirst(s.blocks, x.block);
      case Next(a) =>
        var p: nat :| p < i && StoredBy(s, p, a, session);
        KeptReachable(s, p);
        StoreOwner(s, p);
        var fuel: nat :| a in Reached(s.blocks, Load(s, Head(session)), fuel);
        assert Load(s, Next(a)) == Some(x.block);
        ReachedNext(s.blocks, Load(s, Head(session)), fuel, a);
    }
  }

  lemma {:induction false} ReachedFirst(blocks: seq<Block>, b: nat)
    requires b < |blocks|
    ensures b in Reached(blocks, Some(b), 1)
  {
  }

  lemma SameStore(s: State, p: nat, q: nat)
    requires Recorded(s) && p < |s.stores| && q < |s.stores| && s.stores[p].block == s.stores[q].block
    ensures p == q
  {
  }

  /** Nothing else is found from there: every block on the way was linked by the session and kept. */
  lemma {:induction false} ReachedKept(s: State, place: Where, session: nat, fuel: nat, i: nat)
    requires Recorded(s) && i < |s.stores| && PlaceOf(s, place, session)
    requires match place
             case Head(_) => true
             case Next(a) => a < |s.blocks| && forall p :: 0 <= p < |s.stores| && s.stores[p].block == a ==>
               Kept(s.stores, p)
    requires s.stores[i].block in Reached(s.blocks, Load(s, place), fuel)
    ensures Kept(s.stores, i)
    decreases fuel
  {
    var c := Load(s, place).value;
    assert Load(s, place) == LastAt(s.stores, place);
    var q := LastStore(s.stores, place);
    FoundInList(s, place, session);
    assert Kept(s.stores, q);
    forall p | 0 <= p < |s.stores| && s.stores[p].block == c ensures p == q {
      SameStore(s, p, q);
    }
    hide Recorded, LastAt, Kept;
    if s.stores[i].block != c {
      ReachedKept(s, Next(c), session, fuel - 1, i);
    }
  }

  /** A block that was linked cannot be found from the head of its session iff another request overwrote a
      link on the chain to it. */
  lemma {:induction false} LostIff(db: int, actions: seq<Action>, i: nat)
    requires i < |Run(Init(db), actions).stores|
    ensures var t := Run(Init(db), actions);
            var x := t.stores[i];
            && x.maker < |t.sessions|
            && (!Reachable(t, t.sessions[x.maker], x.block) <==>
                  exists k: nat :: k < |t.stores| && OnChain(t.stores, k, i) && Overwritten(t.stores, k))
  {
    hide Recorded, Run, Inv, Kept, OnChain, Overwritten;
    var t := Run(Init(db), actions);
    RunKeepsInv(Init(db), actions);
    InitRecorded(db);
    RunKeepsRecord(Init(db), actions);
    StoreOwner(t, i);
    KeptIff(t, i);
    if Kept(t.stores, i) {
      KeptReachable(t, i);
    }
    var session := t.sessions[t.stores[i].maker];
    if fuel: nat :| t.stores[i].block in Reached(t.blocks, Load(t, Head(session)), fuel) {
      ReachedKept(t, Head(session), session, fuel, i);
    }
  }

  lemma InitRecorded(db: int)
    ensures Recorded(Init(db))
  {
  }

  // ---------- requests of a session that do not overlap ----------

  /** A session makes a request only when all its earlier ones are done. */
  ghost predicate Separate(s: State, actions: seq<Action>)
    requires Inv(s)
    decreases |actions|
  {
    actions == [] ||
    (&& (actions[0].Arrive? ==> forall r :: 0 <= r < |s.requests| && s.sessions[r] == actions[0].session ==>
      Done(s.requests[r]))
     && (ActKeepsInv(s, actions[0]); Separate(Act(s, actions[0]), actions[1..])))
  }

  /** Only one request of a session is under way; it links its block at a place where nothing is linked,
      and takes from it before any other. */
  ghost predicate Lone(s: State) {
    && |s.sessions| == |s.requests|
    && (forall p, q :: 0 <= p < q < |s.requests| && s.sessions[p] == s.sessions[q] ==>
         Done(s.requests[p]) || Done(s.requests[q]))
    && (forall i, j :: 0 <= i < j < |s.stores| ==> s.stores[i].place != s.stores[j].place)
    && forall r :: 0 <= r < |s.requests| ==> Unhindered(s, s.requests[r])
  }

  ghost predicate Unhindered(s: State, q: Request) {
    match q
    case AtIncrement(place, _) => LastAt(s.stores, place).None?
    case AtStore(place, b) => LastAt(s.stores, place).None? && Untouched(s, b)
    case AtCheck(b, own) => own ==> Untouched(s, b)
    case AtAdd(b, own) => own ==> Untouched(s, b)
    case Sorry(_) => false
    case _ => true
  }

  predicate Untouched(s: State, b: nat) {
    b < |s.blocks| && s.blocks[b].ptr == s.blocks[b].start
  }

  lemma ActKeepsLone(s: State, a: Action)
    requires Inv(s) && Recorded(s) && Lone(s)
    requires a.Arrive? ==> forall r :: 0 <= r < |s.requests| && s.sessions[r] == a.session ==> Done(s.requests[r])
    ensures Lone(Act(s, a))
  {
    var t := Act(s, a);
    StepAlone(s, a);
    StepApart(s, a);
    hide Act, Inv, Recorded, Lone, Unhindered;
    forall r | 0 <= r < |t.requests| ensures Unhindered(t, t.requests[r]) {
      if a == Step(r) && r < |s.requests| {
        MoverUnhindered(s, r);
      } else if r < |s.requests| {
        BystanderUnhindered(s, a, r);
      } else {
        NewUnhindered(s, a, r);
      }
    }
    LoneIs(t);
  }

  lemma LoneIs(t: State)
    requires |t.sessions| == |t.requests|
    requires forall p, q :: 0 <= p < q < |t.requests| && t.sessions[p] == t.sessions[q] ==>
      Done(t.requests[p]) || Done(t.requests[q])
    requires forall i, j :: 0 <= i < j < |t.stores| ==> t.stores[i].place != t.stores[j].place
    requires forall r :: 0 <= r < |t.requests| ==> Unhindered(t, t.requests[r])
    ensures Lone(t)
  {
  }

  lemma StepAlone(s: State, a: Action)
    requires Inv(s) && Lone(s)
    requires a.Arrive? ==> forall r :: 0 <= r < |s.requests| && s.sessions[r] == a.session ==> Done(s.requests[r])
    ensures var t := Act(s, a);
            && |t.sessions| == |t.requests|
            && forall p, q :: 0 <= p < q < |t.requests| && t.sessions[p] == t.sessions[q] ==>
                 Done(t.requests[p]) || Done(t.requests[q])
  {
    hide Unhindered, HandedOut, Inside, Disjoint, UsedUp, BlocksInv;
    var t := Act(s, a);
    forall p, q | 0 <= p < q < |t.requests| && t.sessions[p] == t.sessions[q]
      ensures Done(t.requests[p]) || Done(t.requests[q]) {
      if q < |s.requests| {
        assert Done(s.requests[p]) ==> t.requests[p] == s.requests[p];
        assert Done(s.requests[q]) ==> t.requests[q] == s.requests[q];
      }
    }
  }

  lemma StepApart(s: State, a: Action)
    requires Recorded(s) && Lone(s)
    ensures var t := Act(s, a); forall i, j :: 0 <= i < j < |t.stores| ==> t.stores[i].place != t.stores[j].place
  {
    ActFrame(s, a);
    if |Act(s, a).stores| > |s.stores| {
      ActStores(s, a);
      assert Unhindered(s, s.requests[a.r]);
      var i := LastStore(s.stores, s.requests[a.r].place);
    }
  }

  lemma NewUnhindered(s: State, a: Action, r: nat)
    requires Wellformed(s) && |s.requests| <= r < |Act(s, a).requests|
    ensures Unhindered(Act(s, a), Act(s, a).requests[r])
  {
  }

  lemma MoverUnhindered(s: State, r: nat)
    requires Inv(s) && Recorded(s) && Lone(s) && r < |s.requests|
    ensures |Act(s, Step(r)).requests| == |s.requests| && Unhindered(Act(s, Step(r)), Act(s, Step(r)).requests[r])
  {
    hide HandedOut, Inside, Disjoint, UsedUp, InList, StoreOk, LastAt;
    assert Unhindered(s, s.requests[r]) && RequestWellformed(s.requests[r], s.blocks);
    if s.requests[r].AtLoad? {
      assert Load(s, s.requests[r].place) == LastAt(s.stores, s.requests[r].place);
    }
  }

  /** Requests of other sessions link at other places and take from other blocks. */
  lemma BystanderUnhindered(s: State, a: Action, r: nat)
    requires Inv(s) && Recorded(s) && Lone(s) && r < |s.requests| && a != Step(r)
    ensures r < |Act(s, a).requests| && Unhindered(Act(s, a), Act(s, a).requests[r])
  {
    hide HandedOut, Inside, Disjoint, UsedUp, StoreOk, LastAt, Recorded, RequestWellformed;
    assert Unhindered(s, s.requests[r]);
    if a.Step? && a.r < |s.requests| && !Done(s.requests[r]) && !Done(s.requests[a.r]) {
      assert if a.r < r then s.sessions[a.r] != s.sessions[r] else s.sessions[r] != s.sessions[a.r];
      OtherPlace(s, a.r, r);
      if s.requests[a.r].AtAdd? {
        OtherBlock(s, a.r, r);
      }
      StepAside(s, a.r, r);
    }
  }

  lemma StepAside(s: State, p: nat, r: nat)
    requires Wellformed(s) && p < |s.requests| && r < |s.requests| && p != r && Unhindered(s, s.requests[r])
    requires s.requests[p].AtStore? && (s.requests[r].AtIncrement? || s.requests[r].AtStore?) ==>
      s.requests[p].place != s.requests[r].place
    requires s.requests[p].AtAdd? && (s.requests[r].AtStore? || s.requests[r].AtCheck? || s.requests[r].AtAdd?) ==>
      s.requests[p].block != s.requests[r].block
    ensures r < |Advance(s, p).requests| && Unhindered(Advance(s, p), Advance(s, p).requests[r])
  {
    assert RequestWellformed(s.requests[p], s.blocks);
    assert s.requests[p].AtStore? ==> Advance(s, p).stores[..|s.stores|] == s.stores;
  }

  lemma OtherPlace(s: State, p: nat, r: nat)
    requires Recorded(s) && p < |s.requests| && r < |s.requests| && s.sessions[p] != s.sessions[r]
    ensures s.requests[p].AtStore? && (s.requests[r].AtIncrement? || s.requests[r].AtStore?) ==>
      s.requests[p].place != s.requests[r].place
  {
    assert InList(s, p) && InList(s, r);
    hide Recorded, StoreOk, Stored;
    if s.requests[p].AtStore? && (s.requests[r].AtIncrement? || s.requests[r].AtStore?)
      && s.requests[p].place == s.requests[r].place {
      PlaceSession(s, s.requests[p].place, s.sessions[p], s.sessions[r]);
    }
  }

  lemma OtherBlock(s: State, p: nat, r: nat)
    requires Recorded(s) && p < |s.requests| && r < |s.requests| && s.sessions[p] != s.sessions[r]
      && s.requests[p].AtAdd?
    ensures s.requests[r].AtStore? || s.requests[r].AtCheck? || s.requests[r].AtAdd? ==>
      s.requests[p].block != s.requests[r].block
  {
    assert InList(s, p) && InList(s, r);
    hide Recorded, StoreOk;
    var b := s.requests[p].block;
    if (s.requests[r].AtCheck? || s.requests[r].AtAdd?) && b == s.requests[r].block {
      StoredSession(s, b, s.sessions[p], s.sessions[r]);
    }
  }

  lemma {:induction false} RunKeepsLone(s: State, actions: seq<Action>)
    requires Inv(s) && Recorded(s) && Lone(s) && Separate(s, actions)
    ensures Lone(Run(s, actions))
    decreases |actions|
  {
    hide Recorded, Lone, Act, BlocksInv, HandedOut, UsedUp, Inside, Disjoint;
    if actions != [] {
      ActKeepsInv(s, actions[0]);
      ActKeepsRecord(s, actions[0]);
      ActKeepsLone(s, actions[0]);
      RunKeepsLone(Act(s, actions[0]), actions[1..]);
    }
  }

  /** When requests of a session do not overlap, none fails, and the session finds every block that it was
      given ids of. */
  lemma {:induction false} SeparateLosesNothing(db: int, actions: seq<Action>, r: nat)
    requires Separate(Init(db), actions) && r < |Run(Init(db), actions).requests|
    ensures var t := Run(Init(db), actions);
            && !t.requests[r].Sorry?
            && (t.requests[r].Served? ==> r < |t.sessions| && Reachable(t, t.sessions[r], t.requests[r].block))
  {
    hide Run, Inv, Separate, Kept, StoreOk, Reachable, Stored;
    var t := Run(Init(db), actions);
    RunKeepsInv(Init(db), actions);
    InitRecorded(db);
    RunKeepsRecord(Init(db), actions);
    RunKeepsLone(Init(db), actions);
    assert Unhindered(t, t.requests[r]) && InList(t, r);
    if t.requests[r].Served? {
      StoredReachable(t, t.requests[r].block, t.sessions[r]);
    }
  }

  lemma StoredReachable(t: State, b: nat, session: nat)
    requires Recorded(t) && Lone(t) && Stored(t, b, session)
    ensures Reachable(t, session, b)
  {
    hide Recorded, Reachable;
    var i: nat :| StoredBy(t, i, b, session);
    ApartKept(t.stores, i);
    KeptReachable(t, i);
  }

  lemma {:induction false} ApartKept(stores: seq<Store>, i: nat)
    requires i < |stores| && forall i, j :: 0 <= i < j < |stores| ==> stores[i].place != stores[j].place
    ensures Kept(stores, i)
    decreases i
  {
    forall p: nat | p < i ensures Kept(stores, p) {
      ApartKept(stores, p);
    }
  }

  lemma {:induction false} RunStep(s: State, a: Action, t: State, rest: seq<Action>)
    requires Inv(s)
    requires var r := Act(s, a);
             && r.db == t.db && r.heads == t.heads && r.blocks == t.blocks && r.requests == t.requests
             && r.sessions == t.sessions && r.stores == t.stores
    ensures Inv(t) && Run(s, [a] + rest) == Run(t, rest)
  {
    ActKeepsInv(s, a);
    assert Act(s, a) == t;
    assert ([a] + rest)[1..] == rest;
  }

  /** A request can be overtaken: its new block of two ids is gone before it looks at it. */
  lemma SorryReachable(db: int) returns (actions: seq<Action>)
    ensures var t := Run(Init(db), actions);
            t.requests == [Sorry(0), Served(0, db, db + 2, false)]
  {
    hide Inv, Run;
    var head, block := Head(0), Block(db, db + 2, db, None);
    var store := Store(head, 0, 0);
    var s1 := State(db, map[], [], [AtLoad(head, 2)], [0], []);
    var s2 := State(db, map[], [], [AtIncrement(head, 2)], [0], []);
    var s3 := State(db + 2, map[], [block], [AtStore(head, 0)], [0], []);
    var s4 := State(db + 2, map[0 := 0], [block], [AtCheck(0, true)], [0], [store]);
    var s5 := State(db + 2, map[0 := 0], [block], [AtCheck(0, true), AtLoad(head, 2)], [0, 0], [store]);
    var s6 := s5.(requests := [AtCheck(0, true), AtCheck(0, false)]);
    var s7 := s5.(requests := [AtCheck(0, true), AtAdd(0, false)]);
    var s8 := s5.(blocks := [block.(ptr := db + 20)], requests := [AtCheck(0, true), Served(0, db, db + 2, false)]);
    var s9 := s8.(requests := [Sorry(0), Served(0, db, db + 2, false)]);
    var r9: seq<Action> := [];
    var r8 := [Step(0)] + r9;
    var r7 := [Step(1)] + r8;
    var r6 := [Step(1)] + r7;
    var r5 := [Step(1)] + r6;
    var r4 := [Arrive(0)] + r5;
    var r3 := [Step(0)] + r4;
    var r2 := [Step(0)] + r3;
    var r1 := [Step(0)] + r2;
    actions := [Arrive(0)] + r1;
    RunStep(Init(db), Arrive(0), s1, r1);
    RunStep(s1, Step(0), s2, r2);
    RunStep(s2, Step(0), s3, r3);
    RunStep(s3, Step(0), s4, r4);
    RunStep(s4, Arrive(0), s5, r5);
    RunStep(s5, Step(1), s6, r6);
    RunStep(s6, Step(1), s7, r7);
    RunStep(s7, Step(1), s8, r8);
    RunStep(s8, Step(0), s9, r9);
    RunNone(s9);
  }

  lemma {:induction false} RunNone(s: State)
    requires Inv(s)
    ensures Run(s, []) == s
  {
  }

  /** The blocks that a session reaches within `fuel` links of `at`. */
  function Reached(blocks: seq<Block>, at: Option<nat>, fuel: nat): set<nat>
    decreases fuel
  {
    if fuel == 0 || at.None? || at.value >= |blocks| then {}
    else {at.value} + Reached(blocks, blocks[at.value].next, fuel - 1)
  }

  /** Two requests of a session that both made a block before either linked its own. */
  function BothMade(db: int): State {
    State(db + 4, map[], [Block(db, db + 2, db, None), Block(db + 2, db + 4, db + 2, None)],
          [AtStore(Head(0), 0), AtStore(Head(0), 1)], [0, 0], [])
  }

  lemma BothMadeReachable(db: int, rest: seq<Action>) returns (actions: seq<Action>)
    ensures Inv(BothMade(db)) && Run(Init(db), actions) == Run(BothMade(db), rest)
  {
    hide Inv, Run;
    var head, b0 := Head(0), Block(db, db + 2, db, None);
    var s1 := State(db, map[], [], [AtLoad(head, 2)], [0], []);
    var s2 := State(db, map[], [], [AtLoad(head, 2), AtLoad(head, 2)], [0, 0], []);
    var s3 := s2.(requests := [AtIncrement(head, 2), AtLoad(head, 2)]);
    var s4 := s2.(requests := [AtIncrement(head, 2), AtIncrement(head, 2)]);
    var s5 := s2.(db := db + 2, blocks := [b0], requests := [AtStore(head, 0), AtIncrement(head, 2)]);
    var r5 := [Step(1)] + rest;
    var r4 := [Step(0)] + r5;
    var r3 := [Step(1)] + r4;
    var r2 := [Step(0)] + r3;
    var r1 := [Arrive(0)] + r2;
    actions := [Arrive(0)] + r1;
    RunStep(Init(db), Arrive(0), s1, r1);
    RunStep(s1, Arrive(0), s2, r2);
    RunStep(s2, Step(0), s3, r3);
    RunStep(s3, Step(1), s4, r4);
    RunStep(s4, Step(0), s5, r5);
    RunStep(s5, Step(1), BothMade(db), rest);
  }

  /** Overlapping requests can make a session lose a block: both link theirs at the same place. */
  lemma LostBlockReachable(db: int) returns (actions: seq<Action>)
    ensures var t := Run(Init(db), actions);
            && 0 < |t.requests| && t.requests[0] == Served(0, db, db + 2, true)
            && forall fuel: nat :: 0 !in Reached(t.blocks, Load(t, Head(0)), fuel)
  {
    hide Inv, Run, Reached;
    var b0, b1 := Block(db, db + 2, db, None), Block(db + 2, db + 4, db + 2, None);
    var store0, store1 := Store(Head(0), 0, 0), Store(Head(0), 1, 1);
    var s7 := State(db + 4, map[0 := 0], [b0, b1], [AtCheck(0, true), AtStore(Head(0), 1)], [0, 0], [store0]);
    var s8 := State(db + 4, map[0 := 1], [b0, b1], [AtCheck(0, true), AtCheck(1, true)], [0, 0], [store0, store1]);
    var s9 := s8.(requests := [AtAdd(0, true), AtCheck(1, true)]);
    var s10 := s8.(blocks := [b0.(ptr := db + 20), b1], requests := [Served(0, db, db + 2, true), AtCheck(1, true)]);
    var r9: seq<Action> := [Step(0)] + [];
    var r8 := [Step(0)] + r9;
    var r7 := [Step(1)] + r8;
    actions := BothMadeReachable(db, [Step(0)] + r7);
    RunStep(BothMade(db), Step(0), s7, r7);
    RunStep(s7, Step(1), s8, r8);
    RunStep(s8, Step(0), s9, r9);
    RunStep(s9, Step(0), s10, []);
    RunNone(s10);
    forall fuel: nat ensures 0 !in Reached(s10.blocks, Some(1), fuel) {
      ReachedLast(s10.blocks, 1, fuel);
    }
  }

  lemma {:induction false} ReachedLast(blocks: seq<Block>, b: nat, fuel: nat)
    requires b < |blocks| && blocks[b].next.None?
    ensures Reached(blocks, Some(b), fuel) <= {b}
  {
  }
}
