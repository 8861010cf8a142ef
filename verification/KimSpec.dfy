/** What an update of a KIM's task list does to the positions of its tasks. */
module KimSpec {
  import opened Shared

  /** One entry of an update; -1 stands for "not in the list". */
  datatype Entry = Entry(id: int, currPos: int, swapPos: int)

  /** The rows of one KIM: a position for each task, and the row without a task that counts reserved positions. */
  datatype Table = Table(exists_: bool, rows: map<int, int>, count: Option<int>)

  datatype Failure = NotOwner | NoCountRecord | RowTwice | PositionTaken

  datatype Result = Committed(table: Table) | Failed(failure: Failure)

  // ---------- the mapping of positions ----------

  function At(rows: map<int, int>, id: int): int {
    if id in rows then rows[id] else 0
  }

  /** Client positions of the mentioned tasks, with their positions in the database. */
  function Remap(entries: seq<Entry>, rows: map<int, int>): map<int, int> {
    if entries == [] then map[]
    else
      var e := entries[|entries| - 1];
      var m := Remap(entries[..|entries| - 1], rows);
      if e.currPos != -1 then m[e.currPos := At(rows, e.id)] else m
  }

  /** Client positions that no mentioned task had. */
  function Introduced(entries: seq<Entry>, m: map<int, int>): seq<int> {
    if entries == [] then []
    else
      var e := entries[|entries| - 1];
      Introduced(entries[..|entries| - 1], m) + if e.swapPos != -1 && e.swapPos !in m then [e.swapPos] else []
  }

  function InsertSorted(x: int, s: seq<int>): seq<int> {
    if s == [] || x <= s[0] then [x] + s else [s[0]] + InsertSorted(x, s[1..])
  }

  function Sort(s: seq<int>): (r: seq<int>)
    ensures |r| == |s|
  {
    if s == [] then []
    else
      InsertedLength(s[0], Sort(s[1..]));
      InsertSorted(s[0], Sort(s[1..]))
  }

  lemma {:induction false} InsertedLength(x: int, s: seq<int>)
    ensures |InsertSorted(x, s)| == |s| + 1
  {
    if s != [] && x > s[0] {
      InsertedLength(x, s[1..]);
    }
  }

  /** Gives the positions, in order, the numbers from `start` on. */
  function Reserve(positions: seq<int>, start: int, m: map<int, int>): map<int, int> {
    if positions == [] then m
    else
      var n := |positions| - 1;
      Reserve(positions[..n], start, m)[positions[n] := start + n]
  }

  // ---------- the update ----------

  function Base(t: Table): int {
    if t.exists_ && t.count.Some? then t.count.value else 0
  }

  function Mapping(t: Table, entries: seq<Entry>): map<int, int> {
    var m := Remap(entries, t.rows);
    Reserve(Sort(Introduced(entries, m)), Base(t), m)
  }

  function Deletes(entries: seq<Entry>): set<int> {
    set i | 0 <= i < |entries| && entries[i].swapPos == -1 && entries[i].currPos != -1 :: entries[i].id
  }

  function Swapped(entries: seq<Entry>): seq<Entry> {
    if entries == [] then []
    else
      var e := entries[|entries| - 1];
      Swapped(entries[..|entries| - 1]) + if e.swapPos != -1 then [e] else []
  }

  predicate DistinctIds(entries: seq<Entry>) {
    forall i, j :: 0 <= i < j < |entries| ==> entries[i].id != entries[j].id
  }

  /** Upserts the swapped tasks at their mapped positions. */
  function Upsert(rows: map<int, int>, swapped: seq<Entry>, m: map<int, int>): map<int, int> {
    if swapped == [] then rows
    else
      var e := swapped[|swapped| - 1];
      Upsert(rows, swapped[..|swapped| - 1], m)[e.id := At(m, e.swapPos)]
  }

  /** The constraint that is checked at commit: no two rows of a KIM share a position. */
  predicate UniquePositions(rows: map<int, int>, count: Option<int>) {
    && (forall a, b :: a in rows && b in rows && a != b ==> rows[a] != rows[b])
    && forall a :: a in rows && count.Some? ==> rows[a] != count.value
  }

  function Updated(t: Table, entries: seq<Entry>): Table {
    var m := Remap(entries, t.rows);
    var cnt := |Introduced(entries, m)|;
    var rows := Upsert(t.rows - Deletes(entries), Swapped(entries), Mapping(t, entries));
    Table(true, rows, if t.exists_ && cnt == 0 then t.count else Some(Base(t) + cnt))
  }

  /** The outcome of the whole transaction: an error at any point rolls everything back. */
  function Outcome(t: Table, owner: bool, entries: seq<Entry>): Result {
    if !t.exists_ && !owner then Failed(NotOwner)
    else if t.exists_ && t.count.None? && Introduced(entries, Remap(entries, t.rows)) != [] then Failed(NoCountRecord)
    else if !DistinctIds(Swapped(entries)) then Failed(RowTwice)
    else
      var u := Updated(t, entries);
      if UniquePositions(u.rows, u.count) then Committed(u) else Failed(PositionTaken)
  }

  // ---------- what the mapping is ----------

  predicate Strict(s: seq<int>) {
    forall i, j :: 0 <= i < j < |s| ==> s[i] < s[j]
  }

  predicate NoDuplicates(s: seq<int>) {
    forall i, j :: 0 <= i < j < |s| ==> s[i] != s[j]
  }

  predicate Ascending(s: seq<int>) {
    forall i, j :: 0 <= i < j < |s| ==> s[i] <= s[j]
  }

  lemma {:induction false} InsertKeeps(x: int, s: seq<int>)
    ensures multiset(InsertSorted(x, s)) == multiset{x} + multiset(s)
  {
    if s != [] && x > s[0] {
      InsertKeeps(x, s[1..]);
      assert s == [s[0]] + s[1..];
    }
  }

  lemma {:induction false} InsertAscending(x: int, s: seq<int>)
    requires Ascending(s)
    ensures Ascending(InsertSorted(x, s))
  {
    if s != [] && x > s[0] {
      InsertAscending(x, s[1..]);
      InsertKeeps(x, s[1..]);
      var r := InsertSorted(x, s[1..]);
      forall j | 0 <= j < |r| ensures s[0] <= r[j] {
        assert r[j] in multiset(r);
        assert r[j] == x || r[j] in s[1..];
      }
    }
  }

  /** Sorting keeps every element as often as it was there and puts them in order. */
  lemma {:induction false} SortSorts(s: seq<int>)
    ensures Ascending(Sort(s)) && multiset(Sort(s)) == multiset(s)
  {
    if s != [] {
      SortSorts(s[1..]);
      InsertAscending(s[0], Sort(s[1..]));
      InsertKeeps(s[0], Sort(s[1..]));
      assert s == [s[0]] + s[1..];
    }
  }

  /** Distinct elements are strictly increasing afterwards. */
  lemma {:induction false} SortStrict(s: seq<int>)
    requires NoDuplicates(s)
    ensures Strict(Sort(s)) && forall y :: y in Sort(s) <==> y in s
  {
    SortSorts(s);
    var r := Sort(s);
    forall y ensures y in r <==> y in s {
      assert y in multiset(r) <==> y in multiset(s);
    }
    DistinctOnce(s);
    forall i, j | 0 <= i < j < |r| ensures r[i] < r[j] {
      TwiceThere(r, i, j);
    }
  }

  lemma {:induction false} DistinctOnce(s: seq<int>)
    requires NoDuplicates(s)
    ensures forall y :: multiset(s)[y] <= 1
  {
    if s != [] {
      var n := |s| - 1;
      DistinctOnce(s[..n]);
      assert s == s[..n] + [s[n]];
      assert s[n] !in s[..n];
      assert s[n] !in multiset(s[..n]);
    }
  }

  lemma TwiceThere(s: seq<int>, i: nat, j: nat)
    requires i < j < |s|
    ensures s[i] == s[j] ==> multiset(s)[s[i]] >= 2
  {
    assert s == s[..j] + s[j..];
    assert s[..j][i] in multiset(s[..j]) && s[j..][0] in multiset(s[j..]);
  }

  lemma {:induction false} ReserveAt(s: seq<int>, start: int, m: map<int, int>)
    requires Strict(s)
    ensures Reserve(s, start, m).Keys == m.Keys + set p | p in s
    ensures forall i :: 0 <= i < |s| ==> Reserve(s, start, m)[s[i]] == start + i
    ensures forall p :: p in m && p !in s ==> Reserve(s, start, m)[p] == m[p]
  {
    if s != [] {
      var n := |s| - 1;
      var front := s[..n];
      assert s == front + [s[n]];
      ReserveAt(front, start, m);
      forall i | 0 <= i < n ensures Reserve(s, start, m)[s[i]] == start + i {
        assert front[i] == s[i];
      }
    }
  }

  lemma {:induction false} IntroducedAre(entries: seq<Entry>, m: map<int, int>)
    ensures forall p :: p in Introduced(entries, m) <==>
      p !in m && p != -1 && exists i :: 0 <= i < |entries| && entries[i].swapPos == p
  {
    if entries != [] {
      var n := |entries| - 1;
      var front := entries[..n];
      IntroducedAre(front, m);
      forall p ensures p in Introduced(entries, m) <==>
        p !in m && p != -1 && exists i :: 0 <= i < |entries| && entries[i].swapPos == p
      {
        if i :| 0 <= i < |entries| && entries[i].swapPos == p {
          assert i < n ==> front[i] == entries[i];
        }
        if p in Introduced(front, m) {
          var i :| 0 <= i < n && front[i].swapPos == p;
          assert entries[i].swapPos == p;
        }
        assert entries[n].swapPos == p ==> exists i :: 0 <= i < |entries| && entries[i].swapPos == p;
      }
    }
  }

  /** No two entries ask for the same position. */
  predicate DistinctSwaps(entries: seq<Entry>) {
    forall i, j :: 0 <= i < j < |entries| && entries[i].swapPos != -1 ==> entries[i].swapPos != entries[j].swapPos
  }

  lemma {:induction false} IntroducedDistinct(entries: seq<Entry>, m: map<int, int>)
    requires DistinctSwaps(entries)
    ensures NoDuplicates(Introduced(entries, m))
  {
    if entries != [] {
      var n := |entries| - 1;
      var front := entries[..n];
      assert DistinctSwaps(front) by {
        assert forall i :: 0 <= i < n ==> front[i] == entries[i];
      }
      IntroducedDistinct(front, m);
      IntroducedAre(front, m);
      forall i | 0 <= i < n ensures front[i].swapPos != entries[n].swapPos || entries[n].swapPos == -1 {
        assert front[i] == entries[i];
      }
    }
  }

  /** No two entries claim the same current position. */
  predicate DistinctCurrs(entries: seq<Entry>) {
    forall i, j :: 0 <= i < j < |entries| && entries[i].currPos != -1 ==> entries[i].currPos != entries[j].currPos
  }

  lemma {:induction false} RemapAre(entries: seq<Entry>, rows: map<int, int>)
    requires DistinctCurrs(entries)
    ensures forall i :: 0 <= i < |entries| && entries[i].currPos != -1 ==>
      entries[i].currPos in Remap(entries, rows) && Remap(entries, rows)[entries[i].currPos] == At(rows, entries[i].id)
    ensures forall p :: p in Remap(entries, rows) ==> exists i :: 0 <= i < |entries| && entries[i].currPos == p != -1
  {
    if entries != [] {
      var n := |entries| - 1;
      var front := entries[..n];
      assert forall i :: 0 <= i < n ==> front[i] == entries[i];
      RemapAre(front, rows);
      forall p | p in Remap(entries, rows) ensures exists i :: 0 <= i < |entries| && entries[i].currPos == p != -1 {
        if p in Remap(front, rows) {
          var i :| 0 <= i < n && front[i].currPos == p != -1;
          assert entries[i].currPos == p;
        } else {
          assert entries[n].currPos == p;
        }
      }
    }
  }

  // ---------- when an update fails ----------

  /** Some entry wants a position that no entry has. */
  ghost predicate WantsNew(entries: seq<Entry>) {
    exists i :: 0 <= i < |entries| && entries[i].swapPos != -1
                && forall j :: 0 <= j < |entries| ==> entries[j].currPos != entries[i].swapPos
  }

  /** Two entries name places for one task. */
  predicate PlacesTwice(entries: seq<Entry>) {
    exists i, j :: 0 <= i < j < |entries| && entries[i].id == entries[j].id
                   && entries[i].swapPos != -1 && entries[j].swapPos != -1
  }

  lemma {:induction false} RemapKeys(entries: seq<Entry>, rows: map<int, int>)
    ensures forall p :: p in Remap(entries, rows) <==>
      p != -1 && exists i :: 0 <= i < |entries| && entries[i].currPos == p
  {
    if entries != [] {
      var n := |entries| - 1;
      var front := entries[..n];
      RemapKeys(front, rows);
      forall p ensures p in Remap(entries, rows) <==>
        p != -1 && exists i :: 0 <= i < |entries| && entries[i].currPos == p
      {
        if p in Remap(front, rows) {
          var i :| 0 <= i < n && front[i].currPos == p;
          assert entries[i].currPos == p;
        }
        if i :| p != -1 && 0 <= i < |entries| && entries[i].currPos == p {
          assert i < n ==> front[i] == entries[i];
        }
        assert entries[n].currPos == p ==> exists i :: 0 <= i < |entries| && entries[i].currPos == p;
      }
    }
  }

  lemma {:induction false} IntroducedIff(entries: seq<Entry>, rows: map<int, int>)
    ensures Introduced(entries, Remap(entries, rows)) != [] <==> WantsNew(entries)
  {
    var m := Remap(entries, rows);
    var introduced := Introduced(entries, m);
    RemapKeys(entries, rows);
    IntroducedAre(entries, m);
    hide Remap, Introduced;
    if introduced != [] {
      assert introduced[0] in introduced;
    }
    if WantsNew(entries) {
      var i :| 0 <= i < |entries| && entries[i].swapPos != -1
        && forall j :: 0 <= j < |entries| ==> entries[j].currPos != entries[i].swapPos;
      assert entries[i].swapPos in introduced;
    }
  }

  lemma {:induction false} SwappedDistinctIff(entries: seq<Entry>)
    ensures DistinctIds(Swapped(entries)) <==> !PlacesTwice(entries)
  {
    hide DistinctIds, PlacesTwice;
    if entries != [] {
      var n := |entries| - 1;
      var front, last := entries[..n], entries[n];
      SwappedDistinctIff(front);
      LastTwice(entries);
      LastDistinct(Swapped(front), last);
      SwappedPlaced(front, last.id);
      hide Placed;
      assert Swapped(entries) == if last.swapPos != -1 then Swapped(front) + [last] else Swapped(front);
    } else {
      NoneTwice();
    }
  }

  lemma NoneTwice()
    ensures DistinctIds([]) && !PlacesTwice([])
  {
  }

  lemma {:induction false} SwappedPlaced(entries: seq<Entry>, id: int)
    ensures (exists s :: s in Swapped(entries) && s.id == id) <==> Placed(entries, id)
  {
    if entries != [] {
      var n := |entries| - 1;
      var front, last := entries[..n], entries[n];
      SwappedPlaced(front, id);
      assert forall k :: 0 <= k < n ==> front[k] == entries[k];
      if Placed(front, id) {
        var k :| 0 <= k < n && front[k].id == id && front[k].swapPos != -1;
        assert entries[k].id == id;
        var s :| s in Swapped(front) && s.id == id;
        assert s in Swapped(entries);
      }
      if last.id == id && last.swapPos != -1 {
        assert last in Swapped(entries);
      }
    }
  }

  predicate Placed(entries: seq<Entry>, id: int) {
    exists k :: 0 <= k < |entries| && entries[k].id == id && entries[k].swapPos != -1
  }

  lemma LastTwice(entries: seq<Entry>)
    requires entries != []
    ensures var n := |entries| - 1; var front := entries[..n];
            PlacesTwice(entries) <==> (PlacesTwice(front) || (entries[n].swapPos != -1 && Placed(front, entries[n].id)))
  {
    var n := |entries| - 1;
    var front := entries[..n];
    forall k | 0 <= k < n ensures front[k] == entries[k] {
    }
    if PlacesTwice(entries) {
      var i, j :| 0 <= i < j < |entries| && entries[i].id == entries[j].id
        && entries[i].swapPos != -1 && entries[j].swapPos != -1;
      assert front[i].swapPos != -1;
      assert j < n ==> front[j].swapPos != -1;
    }
  }

  lemma LastDistinct(swapped: seq<Entry>, e: Entry)
    ensures DistinctIds(swapped + [e]) <==> DistinctIds(swapped) && forall s :: s in swapped ==> s.id != e.id
  {
    var both := swapped + [e];
    if DistinctIds(both) {
      forall k | 0 <= k < |swapped| ensures swapped[k].id != e.id {
        assert both[k] == swapped[k] && both[|swapped|] == e;
      }
      forall i, j | 0 <= i < j < |swapped| ensures swapped[i].id != swapped[j].id {
        assert both[i] == swapped[i] && both[j] == swapped[j];
      }
    }
  }

  /** What makes an update fail, but for positions that are taken. */
  lemma FailsIff(t: Table, owner: bool, entries: seq<Entry>)
    ensures var r := Outcome(t, owner, entries);
            && (r == Failed(NotOwner) <==> !t.exists_ && !owner)
            && (r == Failed(NoCountRecord) <==> t.exists_ && t.count.None? && WantsNew(entries))
            && (r == Failed(RowTwice) <==> r.Failed? && r.failure !in {NotOwner, NoCountRecord} && PlacesTwice(entries))
            && (r.Committed? ==> !PlacesTwice(entries) && r.table.exists_)
  {
    IntroducedIff(entries, t.rows);
    SwappedDistinctIff(entries);
    hide Introduced, Remap, Swapped, WantsNew, PlacesTwice, DistinctIds, UniquePositions;
  }

  lemma {:induction false} SwappedAre(entries: seq<Entry>)
    requires DistinctIds(entries)
    ensures DistinctIds(Swapped(entries))
    ensures forall e :: e in Swapped(entries) <==> e in entries && e.swapPos != -1
  {
    if entries != [] {
      var n := |entries| - 1;
      var front := entries[..n];
      assert entries == front + [entries[n]];
      SwappedAre(front);
      forall e | e in Swapped(front) ensures e.id != entries[n].id {
        var i :| 0 <= i < n && front[i] == e;
        assert entries[i] == e;
      }
    }
  }

  lemma {:induction false} UpsertOther(rows: map<int, int>, swapped: seq<Entry>, m: map<int, int>, id: int)
    requires forall k :: 0 <= k < |swapped| ==> swapped[k].id != id
    ensures var u := Upsert(rows, swapped, m); (id in u <==> id in rows) && (id in u ==> u[id] == rows[id])
  {
    if swapped != [] {
      UpsertOther(rows, swapped[..|swapped| - 1], m, id);
    }
  }

  lemma {:induction false} UpsertAt(rows: map<int, int>, swapped: seq<Entry>, m: map<int, int>, k: nat)
    requires DistinctIds(swapped) && k < |swapped|
    ensures var u := Upsert(rows, swapped, m); swapped[k].id in u && u[swapped[k].id] == At(m, swapped[k].swapPos)
  {
    var n := |swapped| - 1;
    if k < n {
      assert swapped[..n][k] == swapped[k];
      UpsertAt(rows, swapped[..n], m, k);
    }
  }

  /** The upsert places exactly the swapped tasks and leaves the others where they are. */
  lemma {:induction false} UpsertAre(rows: map<int, int>, swapped: seq<Entry>, m: map<int, int>)
    requires DistinctIds(swapped)
    ensures forall e :: e in swapped ==>
      e.id in Upsert(rows, swapped, m) && Upsert(rows, swapped, m)[e.id] == At(m, e.swapPos)
    ensures forall id :: id in Upsert(rows, swapped, m) ==>
      (exists e :: e in swapped && e.id == id) || (id in rows && Upsert(rows, swapped, m)[id] == rows[id])
    ensures forall id :: id in rows ==> id in Upsert(rows, swapped, m)
  {
    hide *;
    forall e | e in swapped ensures e.id in Upsert(rows, swapped, m)
      && Upsert(rows, swapped, m)[e.id] == At(m, e.swapPos) {
      var k :| 0 <= k < |swapped| && swapped[k] == e;
      UpsertAt(rows, swapped, m, k);
    }
    forall id
      ensures id in Upsert(rows, swapped, m) ==>
        (exists e :: e in swapped && e.id == id) || (id in rows && Upsert(rows, swapped, m)[id] == rows[id])
      ensures id in rows ==> id in Upsert(rows, swapped, m)
    {
      if k :| 0 <= k < |swapped| && swapped[k].id == id {
        var e := swapped[k];
        assert e in swapped;
      } else {
        UpsertOther(rows, swapped, m, id);
      }
    }
  }

  // ---------- the invariant ----------

  /** Positions are distinct and below the count; a KIM that does not exist has no tasks. */
  predicate Inv(t: Table) {
    && (t.exists_ <==> t.count.Some?) && (!t.exists_ ==> t.rows == map[])
    && (t.count.Some? ==> t.count.value >= 0)
    && (forall a :: a in t.rows ==> t.count.Some? && t.rows[a] < t.count.value)
    && forall a, b :: a in t.rows && b in t.rows && a != b ==> t.rows[a] != t.rows[b]
  }

  /** Entries name distinct tasks, distinct current positions and distinct wanted positions. */
  predicate Distinct(entries: seq<Entry>) {
    DistinctIds(entries) && DistinctCurrs(entries) && DistinctSwaps(entries)
  }

  /** Current positions are claimed only for tasks that are there. */
  predicate Wellformed(entries: seq<Entry>, rows: map<int, int>) {
    && Distinct(entries)
    && forall i :: 0 <= i < |entries| && entries[i].currPos != -1 ==> entries[i].id in rows
  }

  /** A wanted position that was not current gets a fresh number, in order; others get the number of the task that was
      there. */
  lemma {:induction false} MappingAre(t: Table, entries: seq<Entry>)
    requires Distinct(entries)
    ensures var m := Remap(entries, t.rows);
            var news := Sort(Introduced(entries, m));
            var all := Mapping(t, entries);
            && Strict(news) && |news| == |Introduced(entries, m)|
            && (forall p :: p in news <==> p in Introduced(entries, m))
            && (forall i :: 0 <= i < |news| ==> news[i] in all && all[news[i]] == Base(t) + i)
            && (forall p :: p in m ==> p in all && all[p] == m[p])
  {
    var m := Remap(entries, t.rows);
    IntroducedDistinct(entries, m);
    SortStrict(Introduced(entries, m));
    ReserveAt(Sort(Introduced(entries, m)), Base(t), m);
    IntroducedAre(entries, m);
  }

  /** The number that entry `i` is given: that of the task `from` whose place it takes, or fresh number `k`. */
  lemma WantedNumber(t: Table, entries: seq<Entry>, i: nat) returns (from: Option<nat>, k: nat)
    requires Distinct(entries) && i < |entries| && entries[i].swapPos != -1
    ensures var p := entries[i].swapPos;
            var news := Sort(Introduced(entries, Remap(entries, t.rows)));
            var all := Mapping(t, entries);
            p in all && match from
            case Some(j) => j < |entries| && entries[j].currPos == p && all[p] == At(t.rows, entries[j].id)
            case None => k < |news| && news[k] == p && all[p] == Base(t) + k
                         && forall j :: 0 <= j < |entries| ==> entries[j].currPos != p
  {
    var p := entries[i].swapPos;
    var m := Remap(entries, t.rows);
    var news := Sort(Introduced(entries, m));
    MappingAre(t, entries);
    RemapAre(entries, t.rows);
    IntroducedAre(entries, m);
    k := 0;
    if p in m {
      var j :| 0 <= j < |entries| && entries[j].currPos == p != -1;
      from := Some(j);
    } else {
      from := None;
      assert p in news;
      k :| 0 <= k < |news| && news[k] == p;
    }
  }

  predicate Moves(e: Entry) {
    e.swapPos != -1
  }

  predicate Removes(e: Entry) {
    e.swapPos == -1 && e.currPos != -1
  }

  /** A task that is in the list afterwards was either moved by its entry, or stayed and was not removed. */
  lemma RowOf(t: Table, entries: seq<Entry>, id: int) returns (i: Option<nat>)
    requires Distinct(entries) && id in Updated(t, entries).rows
    ensures match i
            case Some(i) => i < |entries| && entries[i].id == id && Moves(entries[i])
                            && entries[i].swapPos in Mapping(t, entries)
                            && Updated(t, entries).rows[id] == Mapping(t, entries)[entries[i].swapPos]
            case None => id in t.rows && Updated(t, entries).rows[id] == t.rows[id]
                         && forall j :: 0 <= j < |entries| && entries[j].id == id ==>
                              !Moves(entries[j]) && !Removes(entries[j])
  {
    SwappedAre(entries);
    UpsertAre(t.rows - Deletes(entries), Swapped(entries), Mapping(t, entries));
    if e :| e in Swapped(entries) && e.id == id {
      var j :| 0 <= j < |entries| && entries[j] == e;
      var from, k := WantedNumber(t, entries, j);
      i := Some(j);
    } else {
      i := None;
      forall j | 0 <= j < |entries| && entries[j].id == id ensures !Moves(entries[j]) && !Removes(entries[j]) {
        var e := entries[j];
        assert e in entries;
        assert Moves(e) ==> e in Swapped(entries);
      }
    }
  }

  /** Which tasks are in the list after an update. */
  lemma RowsAfter(t: Table, entries: seq<Entry>)
    requires Distinct(entries)
    ensures forall id :: id in Updated(t, entries).rows <==>
      (exists i :: 0 <= i < |entries| && entries[i].id == id && Moves(entries[i]))
      || (id in t.rows && forall i :: 0 <= i < |entries| && entries[i].id == id ==> !Removes(entries[i]))
  {
    var rows := Updated(t, entries).rows;
    SwappedAre(entries);
    UpsertAre(t.rows - Deletes(entries), Swapped(entries), Mapping(t, entries));
    forall id | id in rows
      ensures (exists i :: 0 <= i < |entries| && entries[i].id == id && Moves(entries[i]))
              || (id in t.rows && forall i :: 0 <= i < |entries| && entries[i].id == id ==> !Removes(entries[i]))
    {
      var i := RowOf(t, entries, id);
    }
    forall i | 0 <= i < |entries| && Moves(entries[i]) ensures entries[i].id in rows {
      assert entries[i] in Swapped(entries);
    }
    forall id | id in t.rows && forall i :: 0 <= i < |entries| && entries[i].id == id ==> !Removes(entries[i])
      ensures id in rows
    {
      assert id !in Deletes(entries);
    }
  }

  /** Where the place of a task comes from: it took or kept the place of task `from`, or fresh number `k`. */
  lemma PlaceOf(t: Table, entries: seq<Entry>, id: int) returns (i: Option<nat>, from: Option<int>, k: nat)
    requires Distinct(entries) && id in Updated(t, entries).rows
    ensures var news := Sort(Introduced(entries, Remap(entries, t.rows)));
            var row := Updated(t, entries).rows[id];
            && (from.Some? ==> row == At(t.rows, from.value))
            && (from.None? ==> k < |news| && row == Base(t) + k)
            && match i
               case None => from == Some(id) && id in t.rows
                            && forall j :: 0 <= j < |entries| && entries[j].id == id ==>
                                 !Moves(entries[j]) && !Removes(entries[j])
               case Some(i) => i < |entries| && entries[i].id == id && Moves(entries[i])
                               && (from.None? ==> news[k] == entries[i].swapPos && forall j :: 0 <= j < |entries| ==>
                                    entries[j].currPos != news[k])
                               && (from.Some? ==> exists j ::
                                     0 <= j < |entries| && entries[j].id == from.value
                                       && entries[j].currPos == entries[i].swapPos)
  {
    i := RowOf(t, entries, id);
    from, k := None, 0;
    if i.None? {
      from := Some(id);
    } else {
      var at;
      at, k := WantedNumber(t, entries, i.value);
      if at.Some? {
        from := Some(entries[at.value].id);
      }
    }
  }

  /** Every well-formed update is committed and keeps positions distinct and below the count. */
  lemma UpdateKeepsInv(t: Table, owner: bool, entries: seq<Entry>)
    requires Inv(t) && Wellformed(entries, t.rows) && (t.exists_ || owner)
    ensures Outcome(t, owner, entries) == Committed(Updated(t, entries)) && Inv(Updated(t, entries))
    ensures forall id :: id in t.rows && (forall i :: 0 <= i < |entries| ==> entries[i].id != id) ==>
      id in Updated(t, entries).rows && Updated(t, entries).rows[id] == t.rows[id]
  {
    hide Updated, Wellformed, Swapped, Introduced, Remap;
    WellformedIds(entries, t.rows);
    SwappedAre(entries);
    CountAfter(t, entries);
    var u := Updated(t, entries);
    forall a | a in u.rows ensures u.rows[a] < u.count.value {
      BelowCount(t, entries, a);
    }
    forall id | id in t.rows && forall i :: 0 <= i < |entries| ==> entries[i].id != id
      ensures id in u.rows && u.rows[id] == t.rows[id]
    {
      NotMoved(t, entries, id);
    }
    forall a, b | a in u.rows && b in u.rows && a != b ensures u.rows[a] != u.rows[b] {
      PlacesDiffer(t, entries, a, b);
    }
  }

  lemma WellformedIds(entries: seq<Entry>, rows: map<int, int>)
    requires Wellformed(entries, rows)
    ensures DistinctIds(entries)
  {
  }

  /** The count record moves on by the number of fresh positions. */
  lemma {:induction false} CountAfter(t: Table, entries: seq<Entry>)
    requires Inv(t)
    ensures var u := Updated(t, entries);
            u.exists_ && u.count == Some(Base(t) + |Introduced(entries, Remap(entries, t.rows))|) && Base(t) >= 0
  {
  }

  lemma {:induction false} BelowCount(t: Table, entries: seq<Entry>, a: int)
    requires Inv(t) && Wellformed(entries, t.rows) && a in Updated(t, entries).rows
    ensures Updated(t, entries).rows[a] < Base(t) + |Introduced(entries, Remap(entries, t.rows))|
  {
    hide Updated, DistinctIds, DistinctCurrs, DistinctSwaps, Introduced, Remap;
    MappingAre(t, entries);
    var i, from, k := PlaceOf(t, entries, a);
  }

  lemma NotMoved(t: Table, entries: seq<Entry>, id: int)
    requires Wellformed(entries, t.rows) && id in t.rows && forall i :: 0 <= i < |entries| ==> entries[i].id != id
    ensures id in Updated(t, entries).rows && Updated(t, entries).rows[id] == t.rows[id]
  {
    hide Updated, Distinct;
    RowsAfter(t, entries);
    var i := RowOf(t, entries, id);
  }

  lemma PlacesDiffer(t: Table, entries: seq<Entry>, a: int, b: int)
    requires Inv(t) && Wellformed(entries, t.rows)
    requires a in Updated(t, entries).rows && b in Updated(t, entries).rows && a != b
    ensures Updated(t, entries).rows[a] != Updated(t, entries).rows[b]
  {
    var i, from, k := PlaceOf(t, entries, a);
    var j, from', k' := PlaceOf(t, entries, b);
  }
}
