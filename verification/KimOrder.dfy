/** The order of a KIM's tasks as its editor and the database see it. */
module KimOrder {
  import opened Shared
  import opened KimSpec

  // ---------- the order the client sees ----------

  /** The client's positions put the tasks in the same order as those of the database. */
  ghost predicate SameOrder(view: map<int, int>, rows: map<int, int>) {
    && (forall id :: id in view <==> id in rows)
    && forall a, b :: a in rows && b in rows ==> (view[a] < view[b] <==> rows[a] < rows[b])
  }

  /**
   * An update that a client with this view of the list may send: current positions are those of its
   * view, and it never gives a new task a position that some task has or may have had before.
   */
  predicate FromView(entries: seq<Entry>, view: map<int, int>) {
    && DistinctIds(entries) && DistinctSwaps(entries)
    && (forall i :: 0 <= i < |entries| ==> entries[i].currPos == if entries[i].id in view then view[entries[i].id]
         else -1)
    && forall i :: 0 <= i < |entries| && entries[i].swapPos != -1 ==>
         (exists j :: 0 <= j < |entries| && entries[j].currPos == entries[i].swapPos)
         || forall a :: a in view ==> view[a] < entries[i].swapPos
  }

  lemma FromViewWellformed(entries: seq<Entry>, view: map<int, int>, t: Table)
    requires Inv(t) && SameOrder(view, t.rows) && FromView(entries, view)
    ensures Wellformed(entries, t.rows)
  {
  }

  /** What the client's list looks like once its update is made. */
  function Requested(view: map<int, int>, entries: seq<Entry>): map<int, int> {
    if entries == [] then view
    else
      var e := entries[|entries| - 1];
      var v := Requested(view, entries[..|entries| - 1]);
      if e.swapPos == -1 then v - {e.id} else v[e.id := e.swapPos]
  }

  lemma {:induction false} RequestedAre(view: map<int, int>, entries: seq<Entry>)
    requires DistinctIds(entries)
    ensures var v := Requested(view, entries);
            && (forall i :: 0 <= i < |entries| ==>
                  (entries[i].id in v <==> Moves(entries[i]))
                    && (Moves(entries[i]) ==> v[entries[i].id] == entries[i].swapPos))
            && forall id :: (forall i :: 0 <= i < |entries| ==> entries[i].id != id) ==>
                 (id in v <==> id in view) && (id in v ==> v[id] == view[id])
  {
    if entries != [] {
      var n := |entries| - 1;
      var front := entries[..n];
      assert forall i :: 0 <= i < n ==> front[i] == entries[i];
      RequestedAre(view, front);
    }
  }

  /** The place of a task in the requested list and in the new table come from the same source. */
  lemma SamePlace(t: Table, entries: seq<Entry>, view: map<int, int>, id: int) returns (from: Option<int>, k: nat)
    requires Inv(t) && SameOrder(view, t.rows) && FromView(entries, view) && id in Updated(t, entries).rows
    requires forall a :: a in view ==> view[a] != -1
    ensures var news := Sort(Introduced(entries, Remap(entries, t.rows)));
            var row, wanted := Updated(t, entries).rows[id], Requested(view, entries);
            && id in wanted
            && (from.Some? ==>
                  && from.value in t.rows && row == t.rows[from.value]
                  && from.value in view && wanted[id] == view[from.value])
            && (from.None? ==>
                  && k < |news| && row == Base(t) + k && wanted[id] == news[k]
                  && forall a :: a in view ==> view[a] < news[k])
  {
    FromViewWellformed(entries, view, t);
    hide Updated, Requested, Introduced, Remap, Sort, Wellformed;
    RequestedAre(view, entries);
    var i;
    i, from, k := PlaceOf(t, entries, id);
  }

  predicate Increasing(m: map<int, int>) {
    forall p, q :: p in m && q in m && p < q ==> m[p] < m[q]
  }

  predicate AllBelow(view: map<int, int>, p: int) {
    forall a :: a in view ==> view[a] < p
  }

  lemma Below(view: map<int, int>, p: int, a: int)
    requires a in view
    ensures AllBelow(view, p) ==> view[a] < p
  {
  }

  /** Where a client position of the mapping comes from: the task that had it, or it is fresh number `k`. */
  lemma MappedFrom(t: Table, entries: seq<Entry>, view: map<int, int>, p: int) returns (from: Option<int>, k: nat)
    requires Inv(t) && SameOrder(view, t.rows) && FromView(entries, view) && p in Mapping(t, entries)
    requires forall a :: a in view ==> view[a] != -1
    ensures var news := Sort(Introduced(entries, Remap(entries, t.rows)));
            && (from.Some? ==> from.value in view && from.value in t.rows
                               && view[from.value] == p && Mapping(t, entries)[p] == t.rows[from.value])
            && (from.None? ==> k < |news| && news[k] == p && Mapping(t, entries)[p] == Base(t) + k
                               && AllBelow(view, p))
  {
    FromViewWellformed(entries, view, t);
    var m := Remap(entries, t.rows);
    var news := Sort(Introduced(entries, m));
    MappingAre(t, entries);
    ReserveAt(news, Base(t), m);
    hide Remap, Introduced, Sort, Inv, Mapping;
    RemapAre(entries, t.rows);
    IntroducedAre(entries, m);
    from, k := None, 0;
    if p in m {
      var i :| 0 <= i < |entries| && entries[i].currPos == p != -1;
      from := Some(entries[i].id);
    } else {
      assert p in news;
      k :| 0 <= k < |news| && news[k] == p;
      var i :| 0 <= i < |entries| && entries[i].swapPos == p;
    }
  }

  lemma OrderOf(view: map<int, int>, rows: map<int, int>, a: int, b: int)
    requires SameOrder(view, rows) && a in rows && b in rows
    ensures a in view && b in view && (view[a] < view[b] <==> rows[a] < rows[b])
  {
  }

  lemma StrictOrder(s: seq<int>, i: nat, j: nat)
    requires Strict(s) && i < |s| && j < |s|
    ensures s[i] < s[j] ==> i < j
  {
  }

  lemma BelowBase(t: Table, a: int)
    requires Inv(t) && a in t.rows
    ensures t.rows[a] < Base(t)
  {
  }

  /** Client positions, the introduced ones included, map to database positions in increasing order. */
  lemma MappingIncreasing(t: Table, entries: seq<Entry>, view: map<int, int>)
    requires Inv(t) && SameOrder(view, t.rows) && FromView(entries, view) && forall a :: a in view ==> view[a] != -1
    ensures Increasing(Mapping(t, entries))
  {
    FromViewWellformed(entries, view, t);
    MappingAre(t, entries);
    hide Mapping, Remap, Introduced, Sort, FromView, SameOrder, Inv, Base, AllBelow;
    var m := Mapping(t, entries);
    forall p, q | p in m && q in m && p < q ensures m[p] < m[q] {
      var from, k := MappedFrom(t, entries, view, p);
      var from', k' := MappedFrom(t, entries, view, q);
      if from'.Some? {
        Below(view, p, from'.value);
      }
      if from.None? && from'.None? {
        var news := Sort(Introduced(entries, Remap(entries, t.rows)));
        StrictOrder(news, k, k');
      } else if from.Some? && from'.None? {
        BelowBase(t, from.value);
      } else if from.Some? && from'.Some? {
        OrderOf(view, t.rows, from.value, from'.value);
      }
    }
  }

  /**
   * The table after an update has the order that the client asked for, and client positions still
   * map to database positions in increasing order.
   */
  lemma {:induction false} UpdateKeepsOrder(t: Table, entries: seq<Entry>, view: map<int, int>)
    requires Inv(t) && SameOrder(view, t.rows) && FromView(entries, view) && forall a :: a in view ==> view[a] != -1
    ensures SameOrder(Requested(view, entries), Updated(t, entries).rows)
    ensures Increasing(Mapping(t, entries))
  {
    hide Inv, FromView, Updated, Requested, Mapping;
    MappingIncreasing(t, entries, view);
    forall a, b | a in Updated(t, entries).rows && b in Updated(t, entries).rows
      ensures a in Requested(view, entries) && b in Requested(view, entries)
      ensures Requested(view, entries)[a] < Requested(view, entries)[b]
        <==> Updated(t, entries).rows[a] < Updated(t, entries).rows[b]
    {
      SamePlaces(t, entries, view, a, b);
    }
    SameTasks(t, entries, view);
  }

  lemma {:induction false} SamePlaces(t: Table, entries: seq<Entry>, view: map<int, int>, a: int, b: int)
    requires Inv(t) && SameOrder(view, t.rows) && FromView(entries, view) && forall a :: a in view ==> view[a] != -1
    requires a in Updated(t, entries).rows && b in Updated(t, entries).rows
    ensures a in Requested(view, entries) && b in Requested(view, entries)
    ensures Requested(view, entries)[a] < Requested(view, entries)[b]
      <==> Updated(t, entries).rows[a] < Updated(t, entries).rows[b]
  {
    hide FromView, Updated, Requested, Introduced, Sort, Remap;
    FromViewWellformed(entries, view, t);
    MappingAre(t, entries);
    var from, k := SamePlace(t, entries, view, a);
    var from', k' := SamePlace(t, entries, view, b);
    match (from, from') {
      case (None, None) =>
        var news := Sort(Introduced(entries, Remap(entries, t.rows)));
        assert k < k' ==> news[k] < news[k'];
        assert k' < k ==> news[k'] < news[k];
      case (Some(x), Some(y)) =>
        assert view[x] < view[y] <==> t.rows[x] < t.rows[y];
      case (Some(x), None) =>
        assert t.rows[x] < Base(t);
      case (None, Some(y)) =>
        assert t.rows[y] < Base(t);
    }
  }

  lemma {:induction false} SameTasks(t: Table, entries: seq<Entry>, view: map<int, int>)
    requires Inv(t) && SameOrder(view, t.rows) && FromView(entries, view) && forall a :: a in view ==> view[a] != -1
    ensures forall id :: id in Requested(view, entries) <==> id in Updated(t, entries).rows
  {
    FromViewWellformed(entries, view, t);
    hide Updated, Requested;
    RequestedAre(view, entries);
    RowsAfter(t, entries);
    var wanted, rows := Requested(view, entries), Updated(t, entries).rows;
    forall id ensures id in wanted <==> id in rows {
      if i :| 0 <= i < |entries| && entries[i].id == id {
        assert forall j :: 0 <= j < |entries| && entries[j].id == id ==> j == i;
        assert id in wanted <==> Moves(entries[i]);
        assert entries[i].currPos == if id in view then view[id] else -1;
      }
    }
  }

  // ---------- reading the list back ----------

  /** The tasks of a list in the order of their positions. */
  ghost predicate Listing(tasks: seq<int>, positions: map<int, int>) {
    && (forall i :: 0 <= i < |tasks| ==> tasks[i] in positions)
    && (forall id :: id in positions ==> id in tasks)
    && forall i, j :: 0 <= i < j < |tasks| ==> positions[tasks[i]] < positions[tasks[j]]
  }

  /** Reading by database position lists the tasks as the client does. */
  lemma SameListing(tasks: seq<int>, view: map<int, int>, rows: map<int, int>)
    requires SameOrder(view, rows)
    ensures Listing(tasks, view) <==> Listing(tasks, rows)
  {
    forall i | 0 <= i < |tasks| ensures tasks[i] in view <==> tasks[i] in rows {
      var id := tasks[i];
      assert id in view <==> id in rows;
    }
    if forall i :: 0 <= i < |tasks| ==> tasks[i] in rows {
      forall i, j | 0 <= i < j < |tasks| ensures view[tasks[i]] < view[tasks[j]] <==> rows[tasks[i]] < rows[tasks[j]] {
        var a, b := tasks[i], tasks[j];
        assert a in rows && b in rows;
      }
    }
  }

  /** There is only one such list. */
  lemma {:induction false} ListingUnique(a: seq<int>, b: seq<int>, positions: map<int, int>)
    requires Listing(a, positions) && Listing(b, positions)
    ensures a == b
    decreases |a|
  {
    if b != [] {
      var id := b[0];
      assert id in positions;
      assert id in a;
    }
    if a != [] {
      var id := a[0];
      assert id in positions;
      FirstIsLeast(a, positions);
      FirstIsLeast(b, positions);
      var other := b[0];
      assert other in positions;
      assert id == other;
      ListingRest(a, positions);
      ListingRest(b, positions);
      ListingUnique(a[1..], b[1..], positions - {a[0]});
    }
  }

  lemma FirstIsLeast(a: seq<int>, positions: map<int, int>)
    requires Listing(a, positions) && a != []
    ensures forall id :: id in positions && id != a[0] ==> positions[a[0]] < positions[id]
  {
    forall id | id in positions && id != a[0] ensures positions[a[0]] < positions[id] {
      var i :| 0 <= i < |a| && a[i] == id;
    }
  }

  lemma ListingRest(a: seq<int>, positions: map<int, int>)
    requires Listing(a, positions) && a != []
    ensures Listing(a[1..], positions - {a[0]})
  {
    assert a == [a[0]] + a[1..];
  }

  /** The client's own numbering of the list that it reads. */
  function Numbered(tasks: seq<int>): map<int, int> {
    if tasks == [] then map[] else Numbered(tasks[..|tasks| - 1])[tasks[|tasks| - 1] := |tasks| - 1]
  }

  lemma {:induction false} NumberedAre(tasks: seq<int>)
    requires NoDuplicates(tasks)
    ensures forall id :: id in Numbered(tasks) <==> id in tasks
    ensures forall i :: 0 <= i < |tasks| ==> Numbered(tasks)[tasks[i]] == i
  {
    if tasks != [] {
      var front := tasks[..|tasks| - 1];
      assert tasks == front + [tasks[|tasks| - 1]];
      NumberedAre(front);
      assert forall i :: 0 <= i < |front| ==> front[i] == tasks[i];
    }
  }

  /** A client that reads a list starts from a view in the order of the database. */
  lemma {:induction false} ReadView(tasks: seq<int>, rows: map<int, int>)
    requires Listing(tasks, rows)
    ensures SameOrder(Numbered(tasks), rows) && forall id :: id in Numbered(tasks) ==> Numbered(tasks)[id] != -1
  {
    assert forall i :: 0 <= i < |tasks| ==> tasks[i] in tasks;
    NumberedAre(tasks);
    forall id | id in Numbered(tasks) ensures Numbered(tasks)[id] != -1 {
      var i :| 0 <= i < |tasks| && tasks[i] == id;
    }
    forall a, b | a in rows && b in rows ensures Numbered(tasks)[a] < Numbered(tasks)[b] <==> rows[a] < rows[b] {
      var i :| 0 <= i < |tasks| && tasks[i] == a;
      var j :| 0 <= j < |tasks| && tasks[j] == b;
    }
  }

  // ---------- a client's session ----------

  /** One save of the list; `owner` says whether the session was given the id of the KIM. */
  datatype Request = Request(owner: bool, tasks: seq<Entry>)

  /** Each update is one that the client may send from the view it then has. */
  ghost predicate Sends(view: map<int, int>, requests: seq<Request>)
    decreases |requests|
  {
    || requests == []
    || (FromView(requests[0].tasks, view) && Sends(Requested(view, requests[0].tasks), requests[1..]))
  }

  ghost function ViewAfter(view: map<int, int>, requests: seq<Request>): map<int, int>
    decreases |requests|
  {
    if requests == [] then view else ViewAfter(Requested(view, requests[0].tasks), requests[1..])
  }

  function TableOf(t: Table, request: Request): Table {
    var r := Outcome(t, request.owner, request.tasks);
    if r.Committed? then r.table else t
  }

  /** The state after a sequence of update requests, those that fail included. */
  function TableAfter(t: Table, requests: seq<Request>): Table
    decreases |requests|
  {
    if requests == [] then t else TableAfter(TableOf(t, requests[0]), requests[1..])
  }

  lemma {:induction false} RequestedNamed(view: map<int, int>, entries: seq<Entry>)
    requires DistinctIds(entries) && forall a :: a in view ==> view[a] != -1
    ensures forall a :: a in Requested(view, entries) ==> Requested(view, entries)[a] != -1
  {
    RequestedAre(view, entries);
    forall a | a in Requested(view, entries) ensures Requested(view, entries)[a] != -1 {
      if i :| 0 <= i < |entries| && entries[i].id == a {
        assert Moves(entries[i]);
      }
    }
  }

  /** However many updates a client sends, reading the list back gives the order it asked for. */
  lemma {:induction false} SessionKeepsOrder(t: Table, view: map<int, int>, requests: seq<Request>)
    requires Inv(t) && SameOrder(view, t.rows) && Sends(view, requests)
    requires t.exists_ || requests == [] || requests[0].owner
    requires forall a :: a in view ==> view[a] != -1
    ensures var u := TableAfter(t, requests);
            && Inv(u) && SameOrder(ViewAfter(view, requests), u.rows)
            && forall tasks :: Listing(tasks, u.rows) <==> Listing(tasks, ViewAfter(view, requests))
    decreases |requests|
  {
    if requests != [] {
      var owner, entries := requests[0].owner, requests[0].tasks;
      FromViewWellformed(entries, view, t);
      UpdateKeepsInv(t, owner, entries);
      UpdateKeepsOrder(t, entries, view);
      RequestedNamed(view, entries);
      SessionKeepsOrder(Updated(t, entries), Requested(view, entries), requests[1..]);
    } else {
      forall tasks: seq<int> ensures Listing(tasks, t.rows) <==> Listing(tasks, view) {
        SameListing(tasks, view, t.rows);
      }
    }
  }

  // ---------- who creates a KIM ----------

  /** A KIM comes into being with a request of its owner; the ones before it have changed nothing. */
  lemma {:induction false} OnlyOwnersCreate(t: Table, requests: seq<Request>) returns (k: nat)
    requires !t.exists_ && TableAfter(t, requests).exists_
    ensures k < |requests| && requests[k].owner
    ensures TableAfter(t, requests[..k]) == t && TableAfter(t, requests[..k + 1]).exists_
    decreases |requests|
  {
    var u := TableOf(t, requests[0]);
    if u.exists_ {
      k := 0;
      assert requests[..1][0] == requests[0] && requests[..1][1..] == [];
    } else {
      k := OnlyOwnersCreate(u, requests[1..]);
      k := k + 1;
      assert requests[..k][1..] == requests[1..][..k - 1] && requests[..k + 1][1..] == requests[1..][..k];
    }
  }

  /** Whatever the others send, a KIM that is not there stays away, and one that is there stays. */
  lemma {:induction false} OthersCreateNothing(t: Table, requests: seq<Request>)
    ensures t.exists_ ==> TableAfter(t, requests).exists_
    ensures !t.exists_ && (forall r :: r in requests ==> !r.owner) ==> TableAfter(t, requests) == t
    decreases |requests|
  {
    if requests != [] {
      OthersCreateNothing(TableOf(t, requests[0]), requests[1..]);
    }
  }

  // ---------- tasks that are not in the list ----------

  /**
   * After the update the task has a place that stands for position 0: it takes the one of a task that
   * was there or is not in the list at all, or it was there and keeps it.
   */
  ghost predicate StandsForZero(t: Table, entries: seq<Entry>, id: int) {
    || (exists i, j :: 0 <= i < |entries| && 0 <= j < |entries| && entries[i].id == id && Takes(entries[i], entries[j])
          && At(t.rows, entries[j].id) == 0)
    || (&& id in t.rows && t.rows[id] == 0
        && forall i :: 0 <= i < |entries| && entries[i].id == id ==> !Moves(entries[i]) && !Removes(entries[i]))
  }

  predicate Takes(e: Entry, from: Entry) {
    Moves(e) && from.currPos == e.swapPos
  }

  lemma MoverRow(t: Table, entries: seq<Entry>, i: nat)
    requires Distinct(entries) && i < |entries| && entries[i].swapPos != -1
    ensures Moves(entries[i]) && entries[i].id in Updated(t, entries).rows && entries[i].swapPos in Mapping(t, entries)
    ensures Updated(t, entries).rows[entries[i].id] == Mapping(t, entries)[entries[i].swapPos]
  {
    hide Updated, Mapping, DistinctCurrs, DistinctSwaps;
    RowsAfter(t, entries);
    var k := RowOf(t, entries, entries[i].id);
  }

  lemma {:induction false} PlaceTaken(entries: seq<Entry>, rows: map<int, int>, j: nat)
    requires Distinct(entries) && j < |entries| && entries[j].currPos != -1
    ensures entries[j].currPos in Remap(entries, rows)
      && Remap(entries, rows)[entries[j].currPos] == At(rows, entries[j].id)
  {
    hide Remap;
    RemapAre(entries, rows);
  }

  lemma ZeroPlace(t: Table, entries: seq<Entry>, id: int)
    requires Distinct(entries) && StandsForZero(t, entries, id)
    ensures id in Updated(t, entries).rows && Updated(t, entries).rows[id] == 0
  {
    hide Updated, Mapping, Remap, Distinct;
    if i, j :| 0 <= i < |entries| && 0 <= j < |entries| && entries[i].id == id && Takes(entries[i], entries[j])
               && At(t.rows, entries[j].id) == 0 {
      MappingAre(t, entries);
      PlaceTaken(entries, t.rows, j);
      MoverRow(t, entries, i);
    } else {
      RowsAfter(t, entries);
      var k := RowOf(t, entries, id);
    }
  }

  /** Every other place is above 0, or that of a task that was below it. */
  lemma PlaceKind(t: Table, entries: seq<Entry>, id: int) returns (from: Option<int>, k: nat)
    requires Inv(t) && Distinct(entries) && id in Updated(t, entries).rows
    ensures var row, n := Updated(t, entries).rows[id], |Introduced(entries, Remap(entries, t.rows))|;
            && (from.None? ==> k < n && row == Base(t) + k)
            && (from.Some? ==> row == At(t.rows, from.value) && (row == 0 ==> StandsForZero(t, entries, id)))
  {
    hide Updated, Distinct, Introduced, Remap, Sort;
    var i;
    i, from, k := PlaceOf(t, entries, id);
    MappingAre(t, entries);
  }

  /** Different tasks get their places from different tasks, or have different fresh numbers. */
  lemma SourcesDiffer(t: Table, entries: seq<Entry>, a: int, b: int)
    requires Inv(t) && Distinct(entries) && a in Updated(t, entries).rows && b in Updated(t, entries).rows && a != b
    requires Updated(t, entries).rows[a] == Updated(t, entries).rows[b]
    ensures Updated(t, entries).rows[a] == 0
    ensures StandsForZero(t, entries, a) || StandsForZero(t, entries, b)
    ensures Base(t) == 0 || (StandsForZero(t, entries, a) && StandsForZero(t, entries, b))
  {
    hide Updated, Introduced, Remap, Sort;
    MappingAre(t, entries);
    var i, from, k := PlaceOf(t, entries, a);
    var j, from', k' := PlaceOf(t, entries, b);
  }

  /** The first fresh number is the base. */
  lemma FirstFresh(t: Table, entries: seq<Entry>) returns (i: nat)
    requires Distinct(entries) && Introduced(entries, Remap(entries, t.rows)) != []
    ensures i < |entries| && Moves(entries[i]) && entries[i].swapPos !in Remap(entries, t.rows)
    ensures entries[i].id in Updated(t, entries).rows && Updated(t, entries).rows[entries[i].id] == Base(t)
  {
    var m := Remap(entries, t.rows);
    MappingAre(t, entries);
    hide *;
    var p := Sort(Introduced(entries, m))[0];
    assert p in Sort(Introduced(entries, m));
    IntroducedAre(entries, m);
    i :| 0 <= i < |entries| && entries[i].swapPos == p;
    MoverRow(t, entries, i);
  }

  /** Position 0 is taken, or counted, if nothing was ever reserved. */
  lemma NothingReserved(t: Table, entries: seq<Entry>, id: int)
    requires Inv(t) && Distinct(entries) && StandsForZero(t, entries, id) && Base(t) == 0
    ensures !UniquePositions(Updated(t, entries).rows, Updated(t, entries).count)
  {
    hide Updated, StandsForZero, Introduced, Mapping, Remap, Sort, Distinct, UniquePositions;
    var u := Updated(t, entries);
    CountAfter(t, entries);
    ZeroPlace(t, entries, id);
    if Introduced(entries, Remap(entries, t.rows)) == [] {
      SameAsCount(u, id);
    } else {
      var i := FirstFresh(t, entries);
      FreshOrZero(t, entries, id, i);
      SamePosition(u, id, entries[i].id);
    }
  }

  lemma {:induction false} FreshOrZero(t: Table, entries: seq<Entry>, id: int, i: nat)
    requires Inv(t) && Base(t) == 0 && Distinct(entries) && StandsForZero(t, entries, id) && i < |entries|
    requires Moves(entries[i]) && entries[i].swapPos !in Remap(entries, t.rows)
    ensures entries[i].id != id
  {
    hide Remap;
    RemapAre(entries, t.rows);
  }

  lemma SameAsCount(u: Table, a: int)
    requires a in u.rows && u.count == Some(u.rows[a])
    ensures !UniquePositions(u.rows, u.count)
  {
  }

  lemma SamePosition(u: Table, a: int, b: int)
    requires a in u.rows && b in u.rows && a != b && u.rows[a] == u.rows[b]
    ensures !UniquePositions(u.rows, u.count)
  {
  }

  /** Only places that stand for position 0 ever collide. */
  lemma Collision(t: Table, entries: seq<Entry>)
    requires Inv(t) && Distinct(entries)
    requires !UniquePositions(Updated(t, entries).rows, Updated(t, entries).count)
    ensures (exists a, b :: a != b && StandsForZero(t, entries, a) && StandsForZero(t, entries, b))
            || (Base(t) == 0 && exists a :: StandsForZero(t, entries, a))
  {
    hide Updated, StandsForZero, Distinct, Introduced, Remap;
    var u := Updated(t, entries);
    CountAfter(t, entries);
    if a, b :| a in u.rows && b in u.rows && a != b && u.rows[a] == u.rows[b] {
      SourcesDiffer(t, entries, a, b);
    } else {
      var a :| a in u.rows && u.count.Some? && u.rows[a] == u.count.value;
      var from, k := PlaceKind(t, entries, a);
    }
  }

  /**
   * A current position claimed for a task that is not in the list stands for position 0. So an update
   * fails iff two places stand for position 0, or one does and no position was reserved before.
   */
  lemma AbsentTaskIff(t: Table, owner: bool, entries: seq<Entry>)
    requires Inv(t) && (t.exists_ || owner) && Distinct(entries)
    ensures Outcome(t, owner, entries) in {Committed(Updated(t, entries)), Failed(PositionTaken)}
    ensures Outcome(t, owner, entries) == Failed(PositionTaken) <==>
      (exists a, b :: a != b && StandsForZero(t, entries, a) && StandsForZero(t, entries, b))
      || (Base(t) == 0 && exists a :: StandsForZero(t, entries, a))
  {
    hide Updated, StandsForZero, UniquePositions, Swapped, Introduced, Remap;
    SwappedAre(entries);
    var u := Updated(t, entries);
    if !UniquePositions(u.rows, u.count) {
      Collision(t, entries);
    }
    if a, b :| a != b && StandsForZero(t, entries, a) && StandsForZero(t, entries, b) {
      ZeroPlace(t, entries, a);
      ZeroPlace(t, entries, b);
      SamePosition(u, a, b);
    } else if a :| Base(t) == 0 && StandsForZero(t, entries, a) {
      NothingReserved(t, entries, a);
    }
  }

  /** Two tasks that are not in the list, each said to be at a position of its own, collide. */
  lemma AbsentTasksCollide(t: Table, owner: bool, a: int, b: int)
    requires Inv(t) && (t.exists_ || owner) && a !in t.rows && b !in t.rows && a != b
    ensures Outcome(t, owner, [Entry(a, 5, 5), Entry(b, 6, 6)]) == Failed(PositionTaken)
  {
    hide Outcome, Inv;
    var entries := [Entry(a, 5, 5), Entry(b, 6, 6)];
    assert Takes(entries[0], entries[0]) && Takes(entries[1], entries[1]);
    assert StandsForZero(t, entries, a) && StandsForZero(t, entries, b);
    AbsentTaskIff(t, owner, entries);
  }
}
