/** The pool of database connections and the life of a lent one. */
module ConnectionPool {

  /** A connection to the database; `inTransaction` is what the server thinks. */
  class Storage {
    var ok: bool
    ghost var inTransaction: bool

    constructor ()
      ensures ok && !inTransaction
    {
      ok := true;
      inTransaction := false;
    }
  }

  datatype Answer = Pending | Given(conn: Storage) | Rejected

  /** The future that a coroutine awaits; requests are numbered in the order in which they were made. */
  class Request {
    ghost const number: nat
    var answer: Answer

    constructor (ghost number: nat)
      ensures this.number == number && answer == Pending
    {
      this.number := number;
      answer := Pending;
    }
  }

  ghost predicate Increasing(queue: seq<Request>, bound: int) {
    queue != [] ==> var last := queue[|queue| - 1]; last.number < bound && Increasing(queue[..|queue| - 1], last.number)
  }

  /** Numbers increase along the queue, so no request is in it twice. */
  lemma {:induction false} IncreasingOrder(queue: seq<Request>, bound: int)
    requires Increasing(queue, bound)
    ensures forall i, j :: 0 <= i < j < |queue| ==> queue[i].number < queue[j].number
    ensures forall i :: 0 <= i < |queue| ==> queue[i].number < bound
  {
    if queue != [] {
      var n := |queue| - 1;
      IncreasingOrder(queue[..n], queue[n].number);
      forall i | 0 <= i < n ensures queue[i].number < queue[n].number {
        assert queue[..n][i] == queue[i];
      }
      forall i, j | 0 <= i < j < n ensures queue[i].number < queue[j].number {
        assert queue[..n][i] == queue[i] && queue[..n][j] == queue[j];
      }
    }
  }

  /** The longest waiting requests were served, in order; the others still wait. */
  ghost predicate Dealt(wasServed: seq<Request>, wasRequests: seq<Request>, served: seq<Request>,
                        requests: seq<Request>) {
    && |requests| <= |wasRequests|
    && var k := |wasRequests| - |requests|; requests == wasRequests[k..] && served == wasServed + wasRequests[..k]
  }

  /** Every connection that was given away since then is lent. */
  ghost predicate AllLent(wasGiven: seq<Storage>, given: seq<Storage>, lent: set<Storage>) {
    wasGiven <= given && forall k :: |wasGiven| <= k < |given| ==> given[k] in lent
  }

  /** What is where at one time. */
  datatype Snapshot =
    Snapshot(pool: seq<Storage>, lent: set<Storage>, lost: set<Storage>, served: seq<Request>, given: seq<Storage>,
             requests: seq<Request>, made: nat, created: set<Storage>, alive: nat, backGood: bool)

  /** Connections were added, for waiting requests first: no other goes away and no request is made. */
  ghost predicate Follows(a: Snapshot, b: Snapshot) {
    && Dealt(a.served, a.requests, b.served, b.requests)
    && a.pool <= b.pool && a.lent <= b.lent && AllLent(a.given, b.given, b.lent)
    && (a.requests == [] ==> b.requests == [] && b.lent == a.lent)
    && b.lost == a.lost && b.made == a.made
  }

  /** All that was added was made since then. */
  ghost predicate OnlyNew(a: Snapshot, b: Snapshot) {
    && (forall c :: c in b.pool ==> c in a.pool || c in a.lent || (c in b.created && c !in a.created))
    && (forall c :: c in b.lent ==> c in a.pool || c in a.lent || (c in b.created && c !in a.created))
  }

  /** All that was added was made since then; without waiting requests it is idle, and the newest is good. */
  ghost predicate Grows(a: Snapshot, b: Snapshot) {
    && Follows(a, b)
    && OnlyNew(a, b)
    && (a.requests == [] ==> |b.pool| - |a.pool| == b.alive - a.alive)
    && (a.backGood ==> b.backGood) && a.created <= b.created && a.alive <= b.alive
  }

  lemma GrowsTwice(a: Snapshot, b: Snapshot, c: Snapshot)
    requires Grows(a, b) && Grows(b, c)
    ensures Grows(a, c)
  {
    FollowsTwice(a, b, c);
    hide Dealt, AllLent;
  }

  lemma GrowsIs(a: Snapshot, b: Snapshot)
    requires Grows(a, b)
    ensures Dealt(a.served, a.requests, b.served, b.requests) && AllLent(a.given, b.given, b.lent)
    ensures a.pool <= b.pool && a.lent <= b.lent && b.lost == a.lost && b.made == a.made
    ensures a.requests == [] ==> b.requests == [] && b.lent == a.lent && |b.pool| - |a.pool| == b.alive - a.alive
    ensures b.pool != [] ==>
      var c := b.pool[|b.pool| - 1]; c in a.pool || c in a.lent || (c in b.created && c !in a.created)
    ensures (a.backGood ==> b.backGood) && a.alive <= b.alive
    ensures |b.requests| <= |a.requests| && b.requests == a.requests[|a.requests| - |b.requests|..]
  {
  }

  lemma GrownFrom(a: Snapshot, b: Snapshot, c: Snapshot, conn: Storage)
    requires Grows(b, c) && a == b.(alive := a.alive)
    ensures Follows(a, c) && OnlyNew(a, c)
    ensures conn !in b.pool && conn !in b.lent && (conn in c.created ==> conn in b.created) ==>
      conn !in c.pool && conn !in c.lent
  {
  }

  lemma FollowsTwice(a: Snapshot, b: Snapshot, c: Snapshot)
    requires Follows(a, b) && Follows(b, c)
    ensures Follows(a, c)
  {
    hide Dealt, AllLent;
    DealtTwice(a.served, a.requests, b.served, b.requests, c.served, c.requests);
    LentTwice(a.given, b.given, c.given, b.lent, c.lent);
  }

  lemma LentTwice(g0: seq<Storage>, g1: seq<Storage>, g2: seq<Storage>, l1: set<Storage>, l2: set<Storage>)
    requires AllLent(g0, g1, l1) && AllLent(g1, g2, l2) && l1 <= l2
    ensures AllLent(g0, g2, l2)
  {
  }

  /** Where a connection is that came back: gone if its link is lost, otherwise idle or with the first request. */
  ghost predicate Returned(c: Storage, wasRequests: seq<Request>, wasPool: seq<Storage>, wasLent: set<Storage>,
                           pool: Pool)
    reads c, pool, wasRequests
  {
    && wasLent - {c} <= pool.lent
    && if !c.ok then c !in pool.pool && c !in pool.lent
       else if wasRequests == [] then pool.pool == wasPool + [c] && pool.lent == wasLent - {c}
       else pool.pool == wasPool && pool.lent == wasLent && wasRequests[0].answer == Given(c)
  }

  predicate AllTrue(outcomes: seq<bool>) {
    forall i :: 0 <= i < |outcomes| ==> outcomes[i]
  }

  /** How many of the attempts from `i` on succeed. */
  function Successes(outcomes: seq<bool>, i: nat): nat
    requires i <= |outcomes|
    decreases |outcomes| - i
  {
    if i == |outcomes| then 0 else (if outcomes[i] then 1 else 0) + Successes(outcomes, i + 1)
  }

  lemma NextOutcome(outcomes: seq<bool>, i: nat)
    requires i < |outcomes|
    ensures Successes(outcomes, i) == (if outcomes[i] then 1 else 0) + Successes(outcomes, i + 1)
  {
  }

  lemma {:induction false} NoMore(outcomes: seq<bool>)
    ensures Successes(outcomes, |outcomes|) == 0
  {
  }

  lemma {:induction false} AllSucceed(outcomes: seq<bool>, i: nat)
    requires i <= |outcomes|
    ensures AllTrue(outcomes) ==> Successes(outcomes, i) == |outcomes| - i
    decreases |outcomes| - i
  {
    if i < |outcomes| {
      AllSucceed(outcomes, i + 1);
    }
  }

  lemma DealtTwice(s0: seq<Request>, r0: seq<Request>, s1: seq<Request>, r1: seq<Request>, s2: seq<Request>,
                   r2: seq<Request>)
    requires Dealt(s0, r0, s1, r1) && Dealt(s1, r1, s2, r2)
    ensures Dealt(s0, r0, s2, r2)
  {
    var k, l := |r0| - |r1|, |r1| - |r2|;
    assert r0[..k + l] == r0[..k] + r0[k..][..l];
  }

  class Pool {
    const connsDesired: nat
    const creationCooldown: int
    var connsAlive: nat
    var stopRequested: bool
    var lastFailure: int
    var pool: seq<Storage>
    var requests: seq<Request>

    /** Connections that were given away and not returned yet. */
    ghost var lent: set<Storage>
    /** Connections that were destroyed because their last rollback failed. */
    ghost var lost: set<Storage>
    /** Requests that were given a connection, in that order. */
    ghost var served: seq<Request>
    /** The connection that each of them was given. */
    ghost var given: seq<Storage>
    ghost var made: nat
    /** Every connection that was ever made. */
    ghost var created: set<Storage>

    /** No connection is in two places, and each is counted, as are those in `held` that are in none. */
    ghost predicate Counted(held: set<Storage>)
      reads `pool, `lent, `lost, `connsAlive
    {
      && (forall i, j :: 0 <= i < j < |pool| ==> pool[i] != pool[j])
      && (forall c :: c in pool ==> c !in lent && c !in lost && c !in held)
      && lent !! lost && held !! lent && held !! lost
      && connsAlive == |pool| + |lent| + |lost| + |held| <= connsDesired
    }

    /** Requests wait in the order in which they were made, and were served in that order. */
    ghost predicate InOrder()
      reads `served, `requests, `given, `made, requests, served
    {
      && Increasing(served + requests, made)
      && (forall r :: r in requests ==> r.answer == Pending)
      && |given| == |served|
      && forall k :: 0 <= k < |served| ==> served[k].answer == Given(given[k])
    }

    lemma FirstApart()
      requires InOrder() && requests != []
      ensures requests[0] !in requests[1..] && requests[0] !in served
    {
      var all, n := served + requests, |served|;
      IncreasingOrder(all, made);
      assert all[n] == requests[0];
      forall k | 0 <= k < |requests[1..]| ensures requests[1..][k] != requests[0] {
        assert all[n + 1 + k] == requests[1..][k];
      }
      forall k | 0 <= k < n ensures served[k] != requests[0] {
        assert all[k] == served[k];
      }
    }

    ghost predicate Holding(held: set<Storage>)
      reads `stopRequested, `pool, `lent, `lost, `connsAlive, `served, `requests, `given, `made, pool, requests, served
    {
      !stopRequested ==>
        && Counted(held) && InOrder()
        && (pool == [] || requests == [])
        && forall c :: c in pool ==> !c.inTransaction
    }

    ghost predicate Valid()
      reads `stopRequested, `pool, `lent, `lost, `connsAlive, `served, `requests, `given, `made, pool, requests, served
    {
      Holding({})
    }

    /** The connection that would be lent next is good, if there is one. */
    ghost predicate BackGood()
      reads `pool, pool
    {
      pool != [] ==> pool[|pool| - 1].ok
    }

    ghost function Idle(): set<Storage>
      reads this
    {
      set c | c in pool
    }

    /** The idle connections whose link to the database works. */
    ghost function Good(): set<Storage>
      reads this, pool
    {
      set c | c in pool && c.ok
    }

    constructor (connsDesired: nat, creationCooldown: int, now: int)
      ensures Valid() && pool == [] && requests == [] && connsAlive == 0 && lent == {} && lost == {} && !stopRequested
      ensures lastFailure < now - creationCooldown
      ensures this.connsDesired == connsDesired && this.creationCooldown == creationCooldown
    {
      this.connsDesired := connsDesired;
      this.creationCooldown := creationCooldown;
      lastFailure := now - creationCooldown - 1;
      connsAlive := 0;
      stopRequested := false;
      pool, requests, served, given := [], [], [], [];
      lent, lost, created := {}, {}, {};
      made := 0;
    }

    /** Hands a connection to the longest waiting request, or keeps it. */
    method Give(conn: Storage)
      requires Holding({conn}) && !stopRequested && !conn.inTransaction
      modifies this`pool, this`requests, this`lent, this`served, this`given, requests`answer
      ensures Valid() && !stopRequested && Follows(old(Now()), Now())
      ensures forall c :: c in pool || c in lent ==> c in old(pool) || c in old(lent) || c == conn
      ensures if old(requests) == [] then requests == [] && pool == old(pool) + [conn] && lent == old(lent)
              else pool == old(pool) && lent == old(lent) + {conn} && old(requests)[0].answer == Given(conn)
    {
      hide Counted, InOrder;
      if requests == [] {
        PutIdle(conn);
      } else {
        MarkLent(conn);
        ServeFirst(conn);
      }
    }

    method PutIdle(conn: Storage)
      requires Counted({conn})
      modifies this`pool
      ensures Counted({}) && pool == old(pool) + [conn]
    {
      pool := pool + [conn];
    }

    ghost method MarkLent(conn: Storage)
      requires Counted({conn})
      modifies this`lent
      ensures Counted({}) && lent == old(lent) + {conn}
    {
      lent := lent + {conn};
    }

    /** The first request in the queue is answered. */
    method ServeFirst(conn: Storage)
      requires InOrder() && requests != []
      modifies this`requests, this`served, this`given, requests`answer
      ensures InOrder() && requests == old(requests)[1..] && served == old(served) + [old(requests)[0]]
      ensures given == old(given) + [conn] && old(requests)[0].answer == Given(conn)
    {
      var first := requests[0];
      FirstApart();
      assert served + requests == served + [first] + requests[1..];
      first.answer := Given(conn);
      requests := requests[1..];
      served := served + [first];
      given := given + [conn];
    }

    /**
     * Takes a connection back. One whose link to the database is lost is dropped instead, and the
     * pool is filled up again; `internal` marks connections that were just created.
     */
    method ReturnConnection(conn: Storage, internal: bool, now: int, outcomes: seq<bool>)
      requires Holding({conn}) && (conn.ok || internal ==> !conn.inTransaction) && |outcomes| == connsDesired
      requires internal ==> !stopRequested
      modifies this, requests`answer
      ensures Valid() && stopRequested == old(stopRequested)
      ensures !stopRequested ==> Follows(old(Now()), Now())
      ensures internal || (conn.ok && !stopRequested) ==>
        if old(requests) == [] then requests == [] && pool == old(pool) + [conn] && lent == old(lent)
        else pool == old(pool) && lent == old(lent) + {conn} && old(requests)[0].answer == Given(conn)
      ensures internal ==> connsAlive == old(connsAlive) && lastFailure == old(lastFailure)
      ensures !internal && !conn.ok && !stopRequested ==> conn !in pool && conn !in lent && OnlyNew(old(Now()), Now())
      ensures internal ==> created == old(created) && forall c :: c in pool || c in lent ==>
        c in old(pool) || c in old(lent) || c == conn
      ensures forall c :: c in created ==> c in old(created) || fresh(c)
      decreases if internal then 0 else 2, if internal then 0 else 1
    {
      hide *;
      if stopRequested {
        StoppedValid(conn);
      } else if !internal && !conn.ok {
        Replace(conn, now, outcomes);
      } else {
        Give(conn);
      }
    }

    lemma StoppedValid(conn: Storage)
      requires Holding({conn}) && stopRequested
      ensures Valid()
    {
    }

    /** A broken connection is dropped and others are made. */
    method Replace(conn: Storage, now: int, outcomes: seq<bool>)
      requires Holding({conn}) && !stopRequested && |outcomes| == connsDesired
      modifies this, requests`answer
      ensures Valid() && !stopRequested && Follows(old(Now()), Now()) && OnlyNew(old(Now()), Now())
      ensures conn !in pool && conn !in lent
      ensures forall c :: c in created ==> c in old(created) || fresh(c)
      decreases 2, 0
    {
      hide *;
      ghost var before := Now();
      NowIs();
      Forget(conn);
      ghost var after := Now();
      NowIs();
      PopulatePool(now, outcomes);
      NowIs();
      GrownFrom(before, after, Now(), conn);
    }

    method Forget(conn: Storage)
      requires Holding({conn}) && !stopRequested
      modifies this`connsAlive
      ensures Valid() && conn !in pool && conn !in lent
    {
      connsAlive := connsAlive - 1;
    }

    ghost function Now(): Snapshot
      reads `pool, `lent, `lost, `served, `given, `requests, `made, `created, `connsAlive, pool
    {
      Snapshot(pool, lent, lost, served, given, requests, made, created, connsAlive, BackGood())
    }

    lemma NowIs()
      ensures Now() == Snapshot(pool, lent, lost, served, given, requests, made, created, connsAlive, BackGood())
    {
    }

    lemma NothingFollows()
      ensures Grows(Now(), Now())
    {
      NoneDealt(served, requests);
    }

    /** A lent connection comes back. */
    method TakeBack(conn: Storage, now: int, outcomes: seq<bool>)
      requires Valid() && (!stopRequested ==> conn in lent) && !conn.inTransaction && |outcomes| == connsDesired
      modifies this, requests`answer
      ensures Valid() && stopRequested == old(stopRequested) && (!stopRequested ==> lost == old(lost))
      ensures !stopRequested ==>
        AllLent(old(given), given, lent) && Returned(conn, old(requests), old(pool), old(lent), this)
    {
      hide Valid, Holding, Counted, InOrder, Increasing, Dealt, Grows, AllTrue, Idle, Good, BackGood;
      if stopRequested {
        StoppedHolding(conn);
      } else {
        Unlend(conn);
      }
      ReturnConnection(conn, false, now, outcomes);
    }

    lemma StoppedHolding(conn: Storage)
      requires stopRequested
      ensures Holding({conn})
    {
    }

    ghost method Unlend(conn: Storage)
      requires Valid() && !stopRequested && conn in lent
      modifies this`lent
      ensures Holding({conn}) && lent == old(lent) - {conn}
    {
      lent := lent - {conn};
    }

    ghost method Lose(conn: Storage)
      requires Valid() && !stopRequested && conn in lent
      modifies this`lent, this`lost
      ensures Valid() && !stopRequested && lost == old(lost) + {conn} && lent == old(lent) - {conn}
    {
      lent := lent - {conn};
      lost := lost + {conn};
    }

    lemma NotIdle(conn: Storage)
      requires Valid() && !stopRequested && conn in lent
      ensures conn !in pool
    {
    }

    /** Creates the missing connections, unless creating failed a short time ago; `outcomes` says which attempts
        succeed. */
    method PopulatePool(now: int, outcomes: seq<bool>)
      requires Valid() && !stopRequested && |outcomes| == connsDesired
      modifies this, requests`answer
      ensures Valid() && !stopRequested && Grows(old(Now()), Now())
      ensures old(now - lastFailure < creationCooldown) ==>
        connsAlive == old(connsAlive) && pool == old(pool) && lent == old(lent) && lastFailure == old(lastFailure)
      ensures old(now - lastFailure >= creationCooldown) ==>
        && connsAlive == old(connsAlive) + Successes(outcomes, old(connsAlive))
        && lastFailure == if connsAlive < connsDesired then now else old(lastFailure)
      ensures forall c :: c in created ==> c in old(created) || fresh(c)
      decreases 1, 0
    {
      hide *;
      NothingFollows();
      if now - lastFailure >= creationCooldown {
        var hadFailure := FillUp(now, outcomes);
        if hadFailure {
          lastFailure := now;
        }
      }
    }

    /** Tries to create each missing connection once. */
    method FillUp(now: int, outcomes: seq<bool>) returns (hadFailure: bool)
      requires Valid() && !stopRequested && |outcomes| == connsDesired
      modifies this, requests`answer
      ensures Valid() && !stopRequested && Grows(old(Now()), Now()) && lastFailure == old(lastFailure)
      ensures connsAlive == old(connsAlive) + Successes(outcomes, old(connsAlive))
      ensures hadFailure <==> connsAlive < connsDesired
      ensures forall c :: c in created ==> c in old(created) || fresh(c)
      decreases 0, 3
    {
      hide *;
      Sum();
      NothingFollows();
      ghost var start := Now();
      NowIs();
      hadFailure := false;
      ghost var alive, failed := connsAlive, lastFailure;
      var i := connsAlive;
      while i < connsDesired
        invariant i <= connsDesired && Valid()
        invariant !stopRequested && Grows(start, Now())
        invariant connsAlive + Successes(outcomes, i) == alive + Successes(outcomes, alive)
        invariant alive <= connsAlive <= i && lastFailure == failed && (hadFailure <==> connsAlive < i)
        invariant forall c :: c in created ==> c in old(created) || fresh(c)
      {
        NextOutcome(outcomes, i);
        if outcomes[i] {
          AddAfter(start, now, outcomes);
        } else {
          hadFailure := true;
        }
        i := i + 1;
      }
      NoMore(outcomes);
    }

    /** The same, seen from an earlier time. */
    method AddAfter(ghost start: Snapshot, now: int, outcomes: seq<bool>)
      requires Valid() && !stopRequested && connsAlive < connsDesired && |outcomes| == connsDesired
        && Grows(start, Now())
      modifies this, start.requests`answer
      ensures Valid() && !stopRequested && Grows(start, Now())
      ensures connsAlive == old(connsAlive) + 1 && lastFailure == old(lastFailure)
      ensures forall c :: c in created ==> c in old(created) || fresh(c)
      decreases 0, 2
    {
      hide *;
      ghost var before := Now();
      NowIs();
      GrowsIs(start, before);
      AddConnection(now, outcomes);
      GrowsTwice(start, before, Now());
    }

    /** A connection that could be created goes to the first request or into the pool. */
    method AddConnection(now: int, outcomes: seq<bool>)
      requires Valid() && !stopRequested && connsAlive < connsDesired && |outcomes| == connsDesired
      modifies this, requests`answer
      ensures Valid() && !stopRequested && Grows(old(Now()), Now())
      ensures connsAlive == old(connsAlive) + 1 && lastFailure == old(lastFailure)
      ensures forall c :: c in created ==> c in old(created) || fresh(c)
      decreases 0, 1
    {
      hide Dealt, AllLent, Counted, Holding, InOrder, Increasing;
      var conn := CreateConnection();
      ReturnConnection(conn, true, now, outcomes);
    }

    /** A connection that was created counts from now on. */
    method CreateConnection() returns (conn: Storage)
      requires Valid() && !stopRequested && connsAlive < connsDesired
      modifies this`connsAlive, this`created
      ensures Holding({conn}) && connsAlive == old(connsAlive) + 1 && fresh(conn) && conn.ok && !conn.inTransaction
      ensures created == old(created) + {conn}
    {
      conn := new Storage();
      created := created + {conn};
      connsAlive := connsAlive + 1;
    }

    /** Idle connections whose link is lost are thrown away, newest first, until a good one is found. */
    method DropBroken()
      requires Valid() && !stopRequested
      modifies this`connsAlive, this`pool
      ensures Valid() && pool <= old(pool) && BackGood()
      ensures connsAlive == old(connsAlive) - (|old(pool)| - |pool|)
      ensures AllIn(old(Good()), pool)
    {
      while |pool| != 0 && !pool[|pool| - 1].ok
        invariant forall c :: c in old(pool) && c.ok ==> c in pool
        invariant Valid() && !stopRequested && pool <= old(pool)
          && connsAlive == old(connsAlive) - (|old(pool)| - |pool|)
      {
        connsAlive := connsAlive - 1;
        pool := pool[..|pool| - 1];
      }
    }

    /** Asks for a connection: the answer is a good one at once, or a place in the queue, or a rejection. */
    method GetConnection(now: int, outcomes: seq<bool>) returns (r: Request)
      requires Valid() && |outcomes| == connsDesired
      modifies this, requests`answer
      ensures Valid() && fresh(r) && stopRequested == old(stopRequested)
      ensures stopRequested ==> r.answer == Rejected
      ensures !stopRequested ==> r.number == old(made) && made == old(made) + 1 && lost == old(lost)
      ensures !stopRequested && r.answer == Rejected ==>
        connsAlive == 0 && Dealt(old(served), old(requests), served, requests)
      ensures !stopRequested && r.answer != Rejected ==> Dealt(old(served), old(requests) + [r], served, requests)
      ensures !stopRequested && r.answer.Given? ==>
        var c := r.answer.conn; c in lent && c !in old(lent) && c.ok && !c.inTransaction && (c in old(pool) || fresh(c))
      ensures !stopRequested && r.answer.Given? ==> requests == []
      ensures !stopRequested && r.answer == Pending ==> pool == [] && connsAlive > 0
      ensures !stopRequested ==> old(lent) <= lent && AllLent(old(given), given, lent)
      ensures !stopRequested && old(requests) == [] ==>
        lent == if r.answer.Given? then old(lent) + {r.answer.conn} else old(lent)
      ensures !stopRequested ==> NoneDropped(old(Good()), Idle(), Received(r))
      ensures lastFailure == old(lastFailure) || lastFailure == now
      ensures !stopRequested && old(Free(now)) && AllTrue(outcomes) ==> r.answer.Given?
      ensures !stopRequested && old(|lost| == connsDesired > 0) ==> r.answer == Pending
    {
      if stopRequested {
        r := new Request(0);
        r.answer := Rejected;
      } else {
        r := Ask(now, outcomes);
      }
    }

    /** The same while the pool is not stopped. */
    method Ask(now: int, outcomes: seq<bool>) returns (r: Request)
      requires Valid() && !stopRequested && |outcomes| == connsDesired
      modifies this, requests`answer
      ensures Valid() && fresh(r) && !stopRequested && r.number == old(made) && made == old(made) + 1
        && lost == old(lost)
      ensures if r.answer == Rejected then connsAlive == 0 && Dealt(old(served), old(requests), served, requests)
              else Dealt(old(served), old(requests) + [r], served, requests)
      ensures r.answer.Given? ==>
        var c := r.answer.conn; c in lent && c !in old(lent) && c.ok && !c.inTransaction && (c in old(pool) || fresh(c))
      ensures r.answer.Given? ==> requests == []
      ensures r.answer == Pending ==> pool == [] && connsAlive > 0
      ensures old(lent) <= lent && AllLent(old(given), given, lent)
      ensures old(requests) == [] ==> lent == if r.answer.Given? then old(lent) + {r.answer.conn} else old(lent)
      ensures NoneDropped(old(Good()), Idle(), Received(r))
      ensures lastFailure == old(lastFailure) || lastFailure == now
      ensures old(Free(now)) && AllTrue(outcomes) ==> r.answer.Given?
      ensures old(|lost| == connsDesired > 0) ==> r.answer == Pending
    {
      hide *;
      ghost var wasServed, wasRequests, wasGood, wasGiven := served, requests, Good(), given;
      Prepare(now, outcomes);
      // The future is local until it is answered or queued, so it is made here.
      r := new Request(made);
      ghost var s1, r1, idle, lent1, given1 := served, requests, Idle(), lent, given;
      AllLost();
      Answer(r);
      NoneDroppedTwice(wasGood, idle, Idle(), Received(r));
      LentTwice(wasGiven, given1, given, lent1, lent);
      if r.answer != Rejected {
        DealtMore(wasServed, wasRequests, s1, r1, r);
        DealtTwice(wasServed, wasRequests + [r], s1, r1 + [r], served, requests);
      }
    }

    /** Nobody waits, some connection is neither lent nor lost, and creating one was not tried in vain just now. */
    ghost predicate Free(now: int)
      reads this
    {
      requests == [] && |lent| + |lost| < connsDesired && now - lastFailure >= creationCooldown
    }

    /** Drops broken connections and makes up for the missing ones. */
    method Prepare(now: int, outcomes: seq<bool>)
      requires Valid() && !stopRequested && |outcomes| == connsDesired
      modifies this, requests`answer
      ensures Valid() && !stopRequested && lost == old(lost) && made == old(made) && old(lent) <= lent
      ensures Dealt(old(served), old(requests), served, requests) && BackGood() && AllLent(old(given), given, lent)
      ensures old(Free(now)) && AllTrue(outcomes) ==> pool != []
      ensures old(requests) == [] ==> requests == [] && lent == old(lent)
      ensures lastFailure == old(lastFailure) || lastFailure == now
      ensures pool != [] ==> var c := pool[|pool| - 1]; c in old(pool) || c in old(lent) || fresh(c)
      ensures NoneDropped(old(Good()), Idle(), {})
    {
      hide *;
      FreeMeans(now);
      Sum();
      DropBroken();
      Sum();
      ghost var dropped := Now();
      NowIs();
      Refill(now, outcomes);
      NowIs();
      GrowsIs(dropped, Now());
      StillIdle(old(Good()), dropped.pool);
    }

    /** Makes up for missing connections, if there are any. */
    method Refill(now: int, outcomes: seq<bool>)
      requires Valid() && !stopRequested && |outcomes| == connsDesired
      modifies this, requests`answer
      ensures Valid() && !stopRequested && Grows(old(Now()), Now())
      ensures AllTrue(outcomes) && now - old(lastFailure) >= creationCooldown ==> connsAlive == connsDesired
      ensures lastFailure == old(lastFailure) || lastFailure == now
      ensures forall c :: c in created ==> c in old(created) || fresh(c)
    {
      hide *;
      Sum();
      NothingFollows();
      if connsAlive != connsDesired {
        AllSucceed(outcomes, connsAlive);
        PopulatePool(now, outcomes);
      }
    }

    lemma FreeMeans(now: int)
      ensures Free(now) <==> requests == [] && |lent| + |lost| < connsDesired && now - lastFailure >= creationCooldown
    {
    }

    lemma StillIdle(good: set<Storage>, was: seq<Storage>)
      requires AllIn(good, was) && was <= pool
      ensures NoneDropped(good, Idle(), {})
    {
    }

    lemma Sum()
      requires Valid() && !stopRequested
      ensures connsAlive == |pool| + |lent| + |lost| <= connsDesired
    {
    }

    /** When every connection was lost in a failed rollback, nothing is idle and nothing can be created. */
    lemma AllLost()
      requires Valid() && !stopRequested
      ensures |lost| == connsDesired ==> pool == [] && connsAlive == connsDesired
    {
    }

    /** What a new request gets once the pool is filled up. */
    method Answer(r: Request)
      requires Valid() && !stopRequested && r.number == made && r.answer == Pending && BackGood()
      modifies this, r
      ensures Valid() && stopRequested == old(stopRequested) && lost == old(lost) && made == old(made) + 1
        && connsAlive == old(connsAlive)
      ensures lent == (if r.answer.Given? then old(lent) + {r.answer.conn} else old(lent))
        && AllLent(old(given), given, lent) && (old(pool) != [] ==> connsAlive > 0)
      ensures lastFailure == old(lastFailure) && (r.answer.Given? ==> requests == [])
      ensures r.answer == if connsAlive == 0 then Rejected else if old(pool) == [] then Pending
        else Given(old(pool)[|old(pool)| - 1])
      ensures if r.answer == Rejected then served == old(served) && requests == old(requests)
              else Dealt(old(served), old(requests) + [r], served, requests)
      ensures r.answer.Given? ==> var c := r.answer.conn; c in lent && c !in old(lent) && c.ok && !c.inTransaction
      ensures r.answer == Pending ==> pool == []
      ensures NoneDropped(old(Idle()), Idle(), Received(r))
    {
      hide Counted, InOrder, Increasing, Holding;
      Sum();
      if connsAlive == 0 {
        Reject(r);
      } else if pool == [] {
        Enqueue(r);
      } else {
        Lend(r);
      }
    }

    method Reject(r: Request)
      requires Valid() && !stopRequested && r.number == made
      modifies this`made, r
      ensures Valid() && r.answer == Rejected && made == old(made) + 1
    {
      Later(served + requests, made, r);
      NotQueued(r);
      made := made + 1;
      r.answer := Rejected;
    }

    method Enqueue(r: Request)
      requires Valid() && !stopRequested && r.number == made && r.answer == Pending && pool == []
      modifies this`requests, this`made
      ensures Valid() && requests == old(requests) + [r] && made == old(made) + 1 && pool == []
    {
      Later(served + requests, made, r);
      assert served + (requests + [r]) == served + requests + [r];
      requests := requests + [r];
      made := made + 1;
    }

    method Lend(r: Request)
      requires Valid() && !stopRequested && r.number == made && r.answer == Pending && pool != [] && BackGood()
      modifies this`pool, this`lent, this`served, this`given, this`made, r
      ensures Valid() && r.answer == Given(old(pool)[|old(pool)| - 1]) && served == old(served) + [r]
        && made == old(made) + 1
      ensures requests == [] && pool + [r.answer.conn] == old(pool)
      ensures var c := r.answer.conn;
        c !in old(lent) && lent == old(lent) + {c} && given == old(given) + [c] && c.ok && !c.inTransaction
    {
      hide Counted, InOrder;
      var conn := TakeIdle();
      assert forall c :: c in pool || c == conn ==> c in old(pool);
      ServeNew(r, conn);
    }

    /** The connection that came back last is lent. */
    method TakeIdle() returns (conn: Storage)
      requires Counted({}) && pool != []
      modifies this`pool, this`lent
      ensures Counted({}) && old(pool) == pool + [conn] && conn !in old(lent) && lent == old(lent) + {conn}
    {
      conn := pool[|pool| - 1];
      assert conn in pool;
      pool := pool[..|pool| - 1];
      lent := lent + {conn};
    }

    /** A new request is answered while nobody waits. */
    method ServeNew(r: Request, conn: Storage)
      requires InOrder() && requests == [] && r.number == made
      modifies this`served, this`given, this`made, r
      ensures InOrder() && r.answer == Given(conn)
      ensures served == old(served) + [r] && given == old(given) + [conn] && made == old(made) + 1
    {
      Later(served + requests, made, r);
      NotQueued(r);
      assert served + [r] + requests == served + requests + [r];
      r.answer := Given(conn);
      served := served + [r];
      given := given + [conn];
      made := made + 1;
    }

    lemma NotQueued(r: Request)
      requires Increasing(served + requests, made) && r.number == made
      ensures r !in served && r !in requests
    {
      IncreasingOrder(served + requests, made);
      forall k | 0 <= k < |served| ensures served[k] != r {
        assert (served + requests)[k] == served[k];
      }
      forall k | 0 <= k < |requests| ensures requests[k] != r {
        assert (served + requests)[|served| + k] == requests[k];
      }
    }

    /** Closes the idle connections and rejects the waiting requests. */
    method OnStop()
      requires Valid()
      modifies this, requests`answer
      ensures Valid() && stopRequested && pool == [] && requests == []
      ensures forall r :: r in old(requests) ==> r.answer == Rejected
    {
      stopRequested := true;
      pool := [];
      ghost var k := 0;
      while requests != []
        invariant stopRequested && pool == [] && 0 <= k <= |old(requests)| && requests == old(requests)[k..]
        invariant forall j :: 0 <= j < k ==> old(requests)[j].answer == Rejected
        decreases |requests|
      {
        requests[0].answer := Rejected;
        requests := requests[1..];
        k := k + 1;
      }
    }
  }

  /** Every connection of `was` is still idle or was given away. */
  ghost predicate NoneDropped(was: set<Storage>, idle: set<Storage>, given: set<Storage>) {
    was <= idle + given
  }

  ghost predicate AllIn(good: set<Storage>, pool: seq<Storage>) {
    forall c :: c in good ==> c in pool
  }

  lemma NoneDroppedTwice(s0: set<Storage>, s1: set<Storage>, s2: set<Storage>, given: set<Storage>)
    requires NoneDropped(s0, s1, {}) && NoneDropped(s1, s2, given)
    ensures NoneDropped(s0, s2, given)
  {
  }

  ghost function Received(r: Request): set<Storage>
    reads r
  {
    if r.answer.Given? then {r.answer.conn} else {}
  }

  lemma Later(queue: seq<Request>, made: nat, r: Request)
    requires Increasing(queue, made) && r.number == made
    ensures Increasing(queue, made + 1) && Increasing(queue + [r], made + 1)
  {
    assert (queue + [r])[..|queue|] == queue;
  }

  lemma NoneDealt(s: seq<Request>, r: seq<Request>)
    ensures Dealt(s, r, s, r)
  {
  }

  lemma DealtMore(s0: seq<Request>, r0: seq<Request>, s1: seq<Request>, r1: seq<Request>, r: Request)
    requires Dealt(s0, r0, s1, r1)
    ensures Dealt(s0, r0 + [r], s1, r1 + [r])
  {
    var k := |r0| - |r1|;
    assert (r0 + [r])[k..] == r0[k..] + [r] && (r0 + [r])[..k] == r0[..k];
  }

  /** A failed rollback destroys a connection that the pool goes on counting. */
  lemma CountIff(pool: Pool)
    requires pool.Valid() && !pool.stopRequested
    ensures pool.connsAlive == |pool.pool| + |pool.lent| <==> pool.lost == {}
  {
  }

  datatype Outcome = Done | Nested | Nothing | DbError

  /** A lent connection in the hands of a coroutine. */
  class Connection {
    const pool: Pool
    var conn: Storage?
    var hasActiveTransaction: bool

    /** The server has an open transaction only if the handle knows of one. */
    ghost predicate Valid()
      reads this, conn, pool, pool.pool, pool.requests, pool.served
    {
      && pool.Valid()
      && (conn != null ==> (!pool.stopRequested ==> conn in pool.lent) && (conn.inTransaction ==> hasActiveTransaction))
    }

    constructor (pool: Pool, conn: Storage)
      requires pool.Valid() && !pool.stopRequested && conn in pool.lent && !conn.inTransaction
      ensures Valid() && this.pool == pool && this.conn == conn && !hasActiveTransaction
    {
      this.pool := pool;
      this.conn := conn;
      hasActiveTransaction := false;
    }

    /** `ok` says whether the server accepts BEGIN. */
    method Transaction(ok: bool) returns (outcome: Outcome)
      requires Valid() && conn != null
      modifies this`hasActiveTransaction, conn`inTransaction
      ensures Valid() && outcome == if old(hasActiveTransaction) then Nested else if ok then Done else DbError
      ensures hasActiveTransaction == (old(hasActiveTransaction) || ok)
      ensures conn.inTransaction == if outcome == Done then true else old(conn.inTransaction)
    {
      if hasActiveTransaction {
        return Nested;
      }
      if !ok {
        return DbError;
      }
      InHand();
      conn.inTransaction := true;
      hasActiveTransaction := true;
      outcome := Done;
    }

    /** `ok` says whether the server accepts COMMIT; after an error it may have closed the transaction or not. */
    method Commit(ok: bool, ghost open: bool) returns (outcome: Outcome)
      requires Valid() && conn != null
      modifies this`hasActiveTransaction, conn`inTransaction
      ensures Valid() && outcome == if !old(hasActiveTransaction) then Nothing else if ok then Done else DbError
      ensures hasActiveTransaction == (outcome == DbError) && (outcome == Done ==> !conn.inTransaction)
    {
      outcome := Finish(ok, open);
    }

    method Rollback(ok: bool, ghost open: bool) returns (outcome: Outcome)
      requires Valid() && conn != null
      modifies this`hasActiveTransaction, conn`inTransaction
      ensures Valid() && outcome == if !old(hasActiveTransaction) then Nothing else if ok then Done else DbError
      ensures hasActiveTransaction == (outcome == DbError) && (outcome == Done ==> !conn.inTransaction)
    {
      outcome := Finish(ok, open);
    }

    method Finish(ok: bool, ghost open: bool) returns (outcome: Outcome)
      requires Valid() && conn != null
      modifies this`hasActiveTransaction, conn`inTransaction
      ensures Valid() && outcome == if !old(hasActiveTransaction) then Nothing else if ok then Done else DbError
      ensures hasActiveTransaction == (outcome == DbError) && (outcome == Done ==> !conn.inTransaction)
    {
      if !hasActiveTransaction {
        return Nothing;
      }
      InHand();
      if !ok {
        conn.inTransaction := conn.inTransaction && open;
        return DbError;
      }
      conn.inTransaction := false;
      hasActiveTransaction := false;
      outcome := Done;
    }

    lemma InHand()
      requires Valid() && conn != null
      ensures !pool.stopRequested ==> conn !in pool.pool
    {
    }

    /**
     * The end of the handle: without a transaction the connection goes back at once; otherwise it is
     * left to `RollbackAndReturn`, which runs later.
     */
    method Destroy(now: int, outcomes: seq<bool>) returns (rollBack: Storage?)
      requires Valid() && |outcomes| == pool.connsDesired
      modifies this, pool, pool.requests`answer
      ensures pool.Valid() && conn == null && pool.stopRequested == old(pool.stopRequested)
      ensures rollBack == if old(hasActiveTransaction) then old(conn) else null
      ensures rollBack != null && !pool.stopRequested ==>
        && rollBack in pool.lent && pool.lent == old(pool.lent) && pool.pool == old(pool.pool)
        && pool.requests == old(pool.requests)
      ensures old(conn) != null && !old(hasActiveTransaction) && !pool.stopRequested ==>
        Returned(old(conn), old(pool.requests), old(pool.pool), old(pool.lent), pool)
      ensures !pool.stopRequested ==> pool.lost == old(pool.lost)
    {
      rollBack := null;
      if conn != null {
        if !hasActiveTransaction {
          pool.TakeBack(conn, now, outcomes);
        } else {
          rollBack := conn;
        }
      }
      conn := null;
    }
  }

  /** `ok` says whether the server accepts ROLLBACK; if it does not, the connection never comes back. */
  method RollbackAndReturn(conn: Storage, pool: Pool, ok: bool, now: int, outcomes: seq<bool>)
    requires pool.Valid() && (!pool.stopRequested ==> conn in pool.lent) && |outcomes| == pool.connsDesired
    modifies pool, pool.requests`answer, conn`inTransaction
    ensures pool.Valid() && pool.stopRequested == old(pool.stopRequested)
    ensures !pool.stopRequested ==>
      if ok then
        && !conn.inTransaction && pool.lost == old(pool.lost)
        && Returned(conn, old(pool.requests), old(pool.pool), old(pool.lent), pool)
      else
        && pool.lost == old(pool.lost) + {conn} && pool.lent == old(pool.lent) - {conn} && pool.pool == old(pool.pool)
        && conn !in pool.pool
  {
    if !ok {
      if !pool.stopRequested {
        pool.Lose(conn);
      }
      return;
    }
    if !pool.stopRequested {
      pool.NotIdle(conn);
    }
    conn.inTransaction := false;
    pool.TakeBack(conn, now, outcomes);
  }

  lemma BothTrue()
    ensures AllTrue([true, true])
  {
  }

  lemma FreeIs(pool: Pool, now: int)
    requires pool.requests == [] && |pool.lent| + |pool.lost| < pool.connsDesired
    requires now - pool.lastFailure >= pool.creationCooldown
    ensures pool.Free(now)
  {
  }

  /** Both connections of a new pool are lent. */
  method LendBoth(now: int) returns (pool: Pool, a: Storage, b: Storage)
    ensures fresh(pool) && fresh(a) && a != b && !a.inTransaction
    ensures pool.Valid() && !pool.stopRequested && pool.connsDesired == 2 && pool.requests == []
    ensures pool.connsAlive == 2 && pool.lost == {} && pool.lent == {a, b} && pool.pool == []
  {
    hide *;
    pool := new Pool(2, 0, now);
    var outcomes := [true, true];
    BothTrue();
    FreeIs(pool, now);
    var first := pool.GetConnection(now, outcomes);
    a := first.answer.conn;
    assert pool.lent == {a};
    FreeIs(pool, now);
    var second := pool.GetConnection(now, outcomes);
    b := second.answer.conn;
    assert pool.lent == {a, b};
    pool.Sum();
  }

  /**
   * Two connections are lent, one of them with an open transaction. Its handle ends, the rollback fails,
   * and the pool counts it forever; the other one is still lent.
   */
  method LoseOne(now: int) returns (pool: Pool, kept: Storage)
    ensures fresh(pool) && pool.Valid() && !pool.stopRequested
    ensures pool.connsAlive == pool.connsDesired == 2 && |pool.lost| == 1 && pool.lent == {kept} && pool.pool == []
  {
    var conn;
    pool, conn, kept := LendBoth(now);
    var handle := new Connection(pool, conn);
    var outcome := handle.Transaction(true);
    var left := handle.Destroy(now, [true, true]);
    RollbackAndReturn(conn, pool, false, now, [true, true]);
  }
}
