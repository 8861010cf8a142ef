/** The handlers of a KIM's task list, statement by statement. */
module KimUpdate {
  import opened Shared
  import opened KimSpec
  import opened KimOrder

  /** The rows of one KIM in the database, changed by the statements of a transaction. */
  class KimTasks {
    var exists_: bool
    var rows: map<int, int>
    var count: Option<int>

    function Table(): KimSpec.Table
      reads this
    {
      KimSpec.Table.Table(exists_, rows, count)
    }

    constructor ()
      ensures Table() == KimSpec.Table.Table(false, map[], None) && Inv(Table())
    {
      exists_ := false;
      rows := map[];
      count := None;
    }

    method InsertOrUpdateKim() returns (inserted: bool)
      modifies this`exists_
      ensures exists_ && inserted == !old(exists_)
    {
      inserted := !exists_;
      exists_ := true;
    }

    method LockMentionedTasks(ids: seq<int>) returns (positions: map<int, int>)
      ensures positions == map id | id in rows && id in ids :: rows[id]
    {
      positions := map id | id in rows && id in ids :: rows[id];
    }

    method UpdateTaskCount(introduced: int) returns (end: Option<int>)
      modifies this`count
      ensures end == count && count == if old(count).Some? then Some(old(count).value + introduced) else None
    {
      if count.Some? {
        count := Some(count.value + introduced);
      }
      end := count;
    }

    method DeleteTasks(ids: seq<int>)
      modifies this`rows
      ensures rows == old(rows) - set id | id in ids
    {
      rows := rows - set id | id in ids;
    }

    /** One statement that inserts rows or moves the ones that are there; it cannot touch a row twice. */
    method InsertAndSwapTasks(ids: seq<int>, positions: seq<int>, ghost swapped: seq<Entry>, ghost m: map<int, int>)
      returns (ok: bool)
      requires |ids| == |positions| == |swapped|
      requires forall i :: 0 <= i < |ids| ==> ids[i] == swapped[i].id && positions[i] == At(m, swapped[i].swapPos)
      modifies this`rows
      ensures ok <==> DistinctIds(swapped)
      ensures ok ==> rows == Upsert(old(rows), swapped, m)
    {
      var touched: set<int> := {};
      ok := true;
      assert swapped[..0] == [];
      for i := 0 to |ids|
        invariant ok && rows == Upsert(old(rows), swapped[..i], m)
        invariant touched == set j | 0 <= j < i :: ids[j]
        invariant DistinctIds(swapped[..i])
      {
        if ids[i] in touched {
          return false;
        }
        touched := touched + {ids[i]};
        rows := rows[ids[i] := positions[i]];
        assert swapped[..i + 1][..i] == swapped[..i];
      }
      assert swapped[..|ids|] == swapped;
    }

    /** The constraint on positions, checked when the transaction commits. */
    method Commit() returns (ok: bool)
      ensures ok == UniquePositions(rows, count)
    {
      ok := (forall a, b :: a in rows && b in rows && a != b ==> rows[a] != rows[b])
            && forall a :: a in rows && count.Some? ==> rows[a] != count.value;
    }

    method Update(owner: bool, tasks: seq<Entry>) returns (failure: Option<Failure>)
      modifies this
      ensures match Outcome(old(Table()), owner, tasks)
              case Committed(t) => failure.None? && Table() == t
              case Failed(f) => failure == Some(f) && Table() == old(Table())
      ensures failure == Some(NotOwner) <==> !old(exists_) && !owner
      ensures failure == Some(NoCountRecord) <==> old(exists_) && old(count).None? && WantsNew(tasks)
      ensures failure == Some(RowTwice) <==> failure !in {Some(NotOwner), Some(NoCountRecord)} && PlacesTwice(tasks)
      ensures if failure.None? then exists_ else Table() == old(Table())
    {
      FailsIff(Table(), owner, tasks);
      var wasThere, wereRows, wasCount := exists_, rows, count;
      failure := UpdateInTransaction(owner, tasks);
      if failure.Some? {
        exists_, rows, count := wasThere, wereRows, wasCount;
      }
    }

    method UpdateInTransaction(owner: bool, tasks: seq<Entry>) returns (failure: Option<Failure>)
      modifies this
      ensures match Outcome(old(Table()), owner, tasks)
              case Committed(t) => failure.None? && Table() == t
              case Failed(f) => failure == Some(f)
    {
      hide Remap, Introduced, Reserve, Sort, UniquePositions, Swapped;
      ghost var t := Table();
      failure := None;
      var inserted := InsertOrUpdateKim();
      if inserted && !owner {
        return Some(NotOwner);
      }
      var remap := MapCurrentPositions(tasks);
      var introduced := IntroducedPositions(tasks, remap);
      introduced := Sort(introduced);
      var newStart := -1;
      if inserted {
        newStart := 0;
        count := Some(|introduced|);
      } else if |introduced| != 0 {
        var newEnd := UpdateTaskCount(|introduced|);
        if newEnd.None? {
          return Some(NoCountRecord);
        }
        newStart := newEnd.value - |introduced|;
      }
      var mapping := ReservePositions(introduced, newStart, remap);
      var deleteIds, swapIds, swapPositions := Split(tasks, mapping);
      assert newStart == Base(t) || introduced == [];
      ReserveNone(newStart, Base(t), remap);
      assert mapping == Mapping(t, tasks);
      if |deleteIds| != 0 {
        DeleteTasks(deleteIds);
      }
      assert rows == t.rows - Deletes(tasks);
      if |swapIds| != 0 {
        var ok := InsertAndSwapTasks(swapIds, swapPositions, Swapped(tasks), mapping);
        if !ok {
          return Some(RowTwice);
        }
      }
      assert rows == Updated(t, tasks).rows && count == Updated(t, tasks).count;
      var ok := Commit();
      if !ok {
        failure := Some(PositionTaken);
      }
    }

    method MapCurrentPositions(tasks: seq<Entry>) returns (remap: map<int, int>)
      ensures remap == Remap(tasks, rows)
    {
      var ids: seq<int> := [];
      for i := 0 to |tasks|
        invariant forall j :: 0 <= j < i && tasks[j].currPos != -1 ==> tasks[j].id in ids
      {
        if tasks[i].currPos != -1 {
          ids := ids + [tasks[i].id];
        }
      }
      var positions := LockMentionedTasks(ids);
      remap := map[];
      assert tasks[..0] == [];
      for i := 0 to |tasks|
        invariant remap == Remap(tasks[..i], rows)
      {
        if tasks[i].currPos != -1 {
          remap := remap[tasks[i].currPos := At(positions, tasks[i].id)];
        }
        assert tasks[..i + 1][..i] == tasks[..i];
      }
      assert tasks[..|tasks|] == tasks;
    }
  }

  lemma {:induction false} ReserveNone(start: int, other: int, m: map<int, int>)
    ensures Reserve([], start, m) == Reserve([], other, m)
  {
  }

  method IntroducedPositions(tasks: seq<Entry>, remap: map<int, int>) returns (introduced: seq<int>)
    ensures introduced == Introduced(tasks, remap)
  {
    introduced := [];
    assert tasks[..0] == [];
    for i := 0 to |tasks|
      invariant introduced == Introduced(tasks[..i], remap)
    {
      var pos := tasks[i].swapPos;
      if pos != -1 && pos !in remap {
        introduced := introduced + [pos];
      }
      assert tasks[..i + 1][..i] == tasks[..i];
    }
    assert tasks[..|tasks|] == tasks;
  }

  method ReservePositions(introduced: seq<int>, start: int, remap: map<int, int>) returns (mapping: map<int, int>)
    ensures mapping == Reserve(introduced, start, remap)
  {
    mapping := remap;
    var next := start;
    assert introduced[..0] == [];
    for i := 0 to |introduced|
      invariant mapping == Reserve(introduced[..i], start, remap) && next == start + i
    {
      mapping := mapping[introduced[i] := next];
      next := next + 1;
      assert introduced[..i + 1][..i] == introduced[..i];
    }
    assert introduced[..|introduced|] == introduced;
  }

  /** Sorts the entries into tasks to delete and tasks to place; an entry that says neither is skipped. */
  method Split(tasks: seq<Entry>, mapping: map<int, int>)
    returns (deleteIds: seq<int>, swapIds: seq<int>, swapPositions: seq<int>)
    ensures (set id | id in deleteIds) == Deletes(tasks)
    ensures |swapIds| == |swapPositions| == |Swapped(tasks)|
    ensures forall i :: 0 <= i < |swapIds| ==>
      swapIds[i] == Swapped(tasks)[i].id && swapPositions[i] == At(mapping, Swapped(tasks)[i].swapPos)
  {
    deleteIds, swapIds, swapPositions := [], [], [];
    assert tasks[..0] == [];
    for i := 0 to |tasks|
      invariant forall id :: id in deleteIds <==> exists j :: 0 <= j < i && tasks[j].id == id && Removes(tasks[j])
      invariant |swapIds| == |swapPositions| == |Swapped(tasks[..i])|
      invariant forall j :: 0 <= j < |swapIds| ==>
        swapIds[j] == Swapped(tasks[..i])[j].id && swapPositions[j] == At(mapping, Swapped(tasks[..i])[j].swapPos)
    {
      if tasks[i].swapPos == -1 {
        if tasks[i].currPos != -1 {
          deleteIds := deleteIds + [tasks[i].id];
        }
      } else {
        swapIds := swapIds + [tasks[i].id];
        swapPositions := swapPositions + [At(mapping, tasks[i].swapPos)];
      }
      assert tasks[..i + 1][..i] == tasks[..i];
    }
    assert tasks[..|tasks|] == tasks;
    forall id ensures id in deleteIds <==> id in Deletes(tasks) {
      if id in Deletes(tasks) {
        var j :| 0 <= j < |tasks| && tasks[j].id == id && tasks[j].swapPos == -1 && tasks[j].currPos != -1;
        assert Removes(tasks[j]);
      }
    }
  }

  /** Numbers the tasks of a list, read in the order of their positions, from 0 on. */
  method GetEditable(sorted: seq<int>, ghost rows: map<int, int>) returns (tasks: seq<Entry>)
    requires Listing(sorted, rows)
    ensures |tasks| == |sorted| && SameOrder(Numbered(sorted), rows)
    ensures forall i :: 0 <= i < |sorted| ==>
      sorted[i] in Numbered(sorted) && tasks[i]
        == Entry(sorted[i], Numbered(sorted)[sorted[i]], Numbered(sorted)[sorted[i]]) == Entry(sorted[i], i, i)
  {
    tasks := [];
    var index := 0;
    ReadView(sorted, rows);
    NumberedAre(sorted);
    for i := 0 to |sorted|
      invariant index == i == |tasks|
      invariant forall j :: 0 <= j < i ==> tasks[j] == Entry(sorted[j], j, j)
    {
      tasks := tasks + [Entry(sorted[i], index, index)];
      index := index + 1;
    }
    forall i | 0 <= i < |sorted| ensures sorted[i] in Numbered(sorted) {
      var id := sorted[i];
      assert id in sorted;
    }
  }
}
