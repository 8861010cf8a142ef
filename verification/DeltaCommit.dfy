/** Snapshots of a delta, and committing one after arbitrary edits. */
module DeltaCommit {
  import opened Shared
  import opened DeltaSpec

  /** A cloned delta: the scalars it holds and, for each listed set, the deltas of its listed elements. */
  datatype Snap = Snap(slots: seq<Option<Scalar>>, sets: seq<SetSnap>)

  datatype SetSnap = Absent | Present(entries: seq<Entry>)

  datatype Entry = Entry(id: int, snap: Snap)

  ghost function Snapshot(m: Msg): Snap
    decreases m, 1, 0
  {
    Snap(seq(|m.slots|, k requires 0 <= k < |m.slots| => m.slots[k].delta),
         seq(|m.sets|, i requires 0 <= i < |m.sets| =>
           if i < |m.listed| && m.listed[i] then Present(SnapSet(m.sets[i], m.sets[i].listed)) else Absent))
  }

  ghost function SnapSet(c: Coll, ids: seq<int>): seq<Entry>
    decreases c, 0, |ids|
  {
    if ids == [] then []
    else (if ids[0] in c.elements then [Entry(ids[0], Snapshot(c.elements[ids[0]]))] else []) + SnapSet(c, ids[1..])
  }

  /** Plain data with the contents of a delta written over it. */
  ghost function Overlay(p: Plain, d: Snap): Plain
    decreases d, 1
  {
    Plain(seq(|p.scalars|, k requires 0 <= k < |p.scalars| =>
            if k < |d.slots| && d.slots[k].Some? then d.slots[k].value else p.scalars[k]),
          seq(|p.sets|, i requires 0 <= i < |p.sets| =>
            if i < |d.sets| && d.sets[i].Present? then OverlayEntries(p.sets[i], d.sets[i].entries) else p.sets[i]))
  }

  ghost function OverlayEntries(p: PlainSet, es: seq<Entry>): PlainSet
    decreases es, 0
  {
    if es == [] then p else OverlayEntries(OverlayEntry(p, es[0]), es[1..])
  }

  ghost function OverlayEntry(p: PlainSet, e: Entry): (q: PlainSet)
    ensures q.elements.Keys == p.elements.Keys
    decreases e, 2
  {
    if e.id in p.elements then PlainSet(p.elements[e.id := Overlay(p.elements[e.id], e.snap)]) else p
  }

  // ---------- committing ----------

  /** The generated commit of one scalar field. */
  function CommitSlot(m: Msg, k: nat, value: Scalar): Msg
    requires k < |m.slots|
  {
    var s := m.slots[k].(remote := value);
    if s.delta.None? then m.(slots := m.slots[k := s.(delta := Some(s.local))], fields := m.fields + 1)
    else if s.local == s.remote then m.(slots := m.slots[k := s.(delta := None)], fields := m.fields - 1)
    else m.(slots := m.slots[k := s])
  }

  function CommitSlots(m: Msg, ds: seq<Option<Scalar>>, k: nat): Msg
    decreases |ds| - k
  {
    if k >= |ds| || k >= |m.slots| then m
    else CommitSlots(if ds[k].Some? then CommitSlot(m, k, ds[k].value) else m, ds, k + 1)
  }

  /** The event of a commit: propagation is held back until its end. */
  function CommitEvent(f0: int, f1: int): Event {
    if f1 != f0 then Changed(f1, f1 - f0) else Silent
  }

  function Commit(m: Msg, d: Snap): (Msg, Event)
    decreases d, 2, 0
  {
    var m' := CommitSets(CommitSlots(m, d.slots, 0), d.sets, 0);
    (m', CommitEvent(m.fields, m'.fields))
  }

  function CommitSets(m: Msg, ds: seq<SetSnap>, i: nat): Msg
    decreases ds, 1, |ds| - i
  {
    if i >= |ds| || i >= |m.sets| || i >= |m.listed| then m
    else if ds[i].Absent? then CommitSets(m, ds, i + 1)
    else
      var c := CommitEntries(m.sets[i], ds[i].entries);
      CommitSets(OnSetEvent(m.(sets := m.sets[i := c]), i, CommitEvent(m.sets[i].fields, c.fields)).0, ds, i + 1)
  }

  function CommitEntries(c: Coll, es: seq<Entry>): Coll
    decreases es, 0, 0
  {
    if es == [] then c else CommitEntries(CommitEntry(c, es[0]), es[1..])
  }

  function CommitEntry(c: Coll, e: Entry): Coll
    decreases e, 3, 0
  {
    if e.id in c.elements then
      var (m, ev) := Commit(c.elements[e.id], e.snap);
      OnElementEvent(c.(elements := c.elements[e.id := m]), e.id, ev).0
    else c
  }

  /** A snapshot that a commit may carry: it matches the message, and every scalar in it differs from
      the current remote value. */
  ghost predicate Fits(m: Msg, d: Snap)
    decreases d, 2, 0
  {
    && |d.slots| == |m.slots| && |d.sets| == |m.sets|
    && (forall k :: 0 <= k < |d.slots| && d.slots[k].Some? ==> d.slots[k].value != m.slots[k].remote)
    && (forall i :: 0 <= i < |d.sets| && d.sets[i].Present? ==> FitsSet(m.sets[i], d.sets[i].entries))
  }

  ghost predicate FitsSet(c: Coll, es: seq<Entry>)
    decreases es, 0, 0
  {
    && (forall k :: 0 <= k < |es| ==> FitsEntry(c, es[k]))
    && (forall j, k :: 0 <= j < k < |es| ==> es[j].id != es[k].id)
  }

  ghost predicate FitsEntry(c: Coll, e: Entry)
    decreases e, 3, 0
  {
    e.id in c.elements && Fits(c.elements[e.id], e.snap)
  }

  // ---------- a snapshot is the difference ----------

  /** Every scalar of a fresh snapshot differs from the remote copy. */
  lemma {:induction false} SnapshotFits(m: Msg)
    requires Exact(m)
    ensures Fits(m, Snapshot(m))
    decreases m, 1, 0
  {
    hide Distinct;
    var d := Snapshot(m);
    forall i | 0 <= i < |d.sets| && d.sets[i].Present? ensures FitsSet(m.sets[i], d.sets[i].entries) {
      SnapSetFits(m.sets[i], m.sets[i].listed);
    }
  }

  lemma {:induction false} SnapSetFits(c: Coll, ids: seq<int>)
    requires ExactSet(c) && Distinct(ids) && forall id :: id in ids ==> id in c.elements
    ensures FitsSet(c, SnapSet(c, ids))
    ensures |SnapSet(c, ids)| == |ids| && forall k :: 0 <= k < |ids| ==> SnapSet(c, ids)[k].id == ids[k]
    decreases c, 0, |ids|
  {
    hide Exact, Fits, Snapshot;
    if ids != [] {
      assert ids[0] in ids;
      ElementExact(c, ids[0]);
      SnapshotFits(c.elements[ids[0]]);
      forall i, j | 0 <= i < j < |ids[1..]| ensures ids[1..][i] != ids[1..][j] {
        assert ids[i + 1] != ids[j + 1];
      }
      SnapSetFits(c, ids[1..]);
    }
  }

  /** Writing a snapshot over the remote copy gives the local copy. */
  lemma {:induction false} SnapshotIsDifference(m: Msg)
    requires Exact(m)
    ensures Overlay(Remote(m), Snapshot(m)) == Local(m)
    decreases m, 1, 0
  {
    hide Distinct, ExactSet, SnapSet, OverlayEntries, LocalSet, RemoteSet;
    var d, p, q := Snapshot(m), Remote(m), Local(m);
    var o := Overlay(p, d);
    assert o.scalars == q.scalars;
    forall i | 0 <= i < |m.sets| ensures o.sets[i] == q.sets[i] {
      SnapSetIsDifference(m.sets[i]);
      CleanSetIff(m.sets[i]);
    }
    assert o.sets == q.sets;
  }

  lemma {:induction false} SnapSetIsDifference(c: Coll)
    requires ExactSet(c)
    ensures OverlayEntries(RemoteSet(c), SnapSet(c, c.listed)) == LocalSet(c)
    decreases c, 0, 0
  {
    hide Exact, Overlay, Snapshot, SnapSet, Local, Remote, Distinct;
    forall id | id in c.elements ensures Overlay(Remote(c.elements[id]), Snapshot(c.elements[id]))
      == Local(c.elements[id])
    {
      ElementExact(c, id);
      SnapshotIsDifference(c.elements[id]);
    }
    OverlayListed(c, RemoteSet(c), c.listed);
    var o := OverlayEntries(RemoteSet(c), SnapSet(c, c.listed));
    forall id | id in c.elements ensures o.elements[id] == LocalSet(c).elements[id] {
      if id !in c.listed {
        ElementExact(c, id);
        CleanIff(c.elements[id]);
      }
    }
    assert o.elements == LocalSet(c).elements;
  }

  lemma {:induction false} OverlayListed(c: Coll, p: PlainSet, ids: seq<int>)
    requires p.elements.Keys == c.elements.Keys && Distinct(ids)
    requires forall id :: id in ids ==> id in c.elements && p.elements[id] == Remote(c.elements[id])
    ensures var o := OverlayEntries(p, SnapSet(c, ids));
      && o.elements.Keys == c.elements.Keys
      && forall id :: id in c.elements ==>
           o.elements[id] == if id in ids then Overlay(Remote(c.elements[id]), Snapshot(c.elements[id]))
             else p.elements[id]
    decreases |ids|
  {
    hide Overlay, Snapshot, Remote;
    if ids != [] {
      var e := Entry(ids[0], Snapshot(c.elements[ids[0]]));
      assert ids[0] in ids && SnapSet(c, ids) == [e] + SnapSet(c, ids[1..]);
      assert ([e] + SnapSet(c, ids[1..]))[1..] == SnapSet(c, ids[1..]);
      forall id | id in ids[1..] ensures id in ids && id != ids[0] {
      }
      OverlayListed(c, OverlayEntry(p, e), ids[1..]);
    }
  }

  // ---------- commits keep the bookkeeping exact ----------

  lemma {:induction false} CommitSlotExact(m: Msg, k: nat, v: Scalar)
    requires Exact(m) && k < |m.slots| && v != m.slots[k].remote
    ensures var m' := CommitSlot(m, k, v);
      && Exact(m') && m'.sets == m.sets && |m'.slots| == |m.slots|
      && (forall j :: 0 <= j < |m.slots| ==> m'.slots[j].local == m.slots[j].local)
      && (forall j :: 0 <= j < |m.slots| ==> m'.slots[j].remote == if j == k then v else m.slots[j].remote)
  {
    hide ExactSet;
    CountSlotsUpdate(m.slots, k, CommitSlot(m, k, v).slots[k]);
  }

  lemma {:induction false} CommitSlotsExact(m: Msg, ds: seq<Option<Scalar>>, k: nat)
    requires Exact(m) && |ds| == |m.slots| && k <= |ds|
    requires forall j :: k <= j < |ds| && ds[j].Some? ==> ds[j].value != m.slots[j].remote
    ensures var m' := CommitSlots(m, ds, k);
      && Exact(m') && m'.sets == m.sets && |m'.slots| == |m.slots|
      && (forall j :: 0 <= j < |m.slots| ==> m'.slots[j].local == m.slots[j].local)
      && (forall j :: 0 <= j < |m.slots| ==>
            m'.slots[j].remote == if k <= j && ds[j].Some? then ds[j].value else m.slots[j].remote)
    decreases |ds| - k
  {
    hide Exact, CommitSlot;
    if k < |ds| {
      if ds[k].Some? {
        CommitSlotExact(m, k, ds[k].value);
        CommitSlotsExact(CommitSlot(m, k, ds[k].value), ds, k + 1);
      } else {
        CommitSlotsExact(m, ds, k + 1);
      }
    }
  }

  lemma CommitEventTruthful(f0: int, f1: int)
    ensures Truthful(f0, f1, CommitEvent(f0, f1))
  {
  }

  /** Committing a fitting snapshot keeps everything exact, leaves the local copy alone and writes exactly
      the snapshot into the remote copy. */
  lemma {:induction false} CommitExact(m: Msg, d: Snap)
    requires Exact(m) && Fits(m, d)
    ensures var (m', ev) := Commit(m, d);
      && Exact(m') && Truthful(m.fields, m'.fields, ev)
      && Local(m') == Local(m) && Remote(m') == Overlay(Remote(m), d)
    decreases d, 2, 0
  {
    hide Exact, FitsSet, CommitSets, CommitSlots, LocalSet, RemoteSet, OverlayEntries;
    var m1 := CommitSlots(m, d.slots, 0);
    CommitSlotsExact(m, d.slots, 0);
    CommitSetsExact(m1, d.sets, 0);
    var m2 := CommitSets(m1, d.sets, 0);
    CommitEventTruthful(m.fields, m2.fields);
    forall i | 0 <= i < |m.sets|
      ensures LocalSet(m2.sets[i]) == LocalSet(m.sets[i]) && RemoteSet(m2.sets[i]) == Overlay(Remote(m), d).sets[i]
    {
    }
    assert Local(m2).scalars == Local(m).scalars && Local(m2).sets == Local(m).sets;
    assert Remote(m2).scalars == Overlay(Remote(m), d).scalars && Remote(m2).sets == Overlay(Remote(m), d).sets;
  }

  lemma {:induction false} CommitSetsExact(m: Msg, ds: seq<SetSnap>, i: nat)
    requires Exact(m) && |ds| == |m.sets| && i <= |ds|
    requires forall j :: i <= j < |ds| && ds[j].Present? ==> FitsSet(m.sets[j], ds[j].entries)
    ensures var m' := CommitSets(m, ds, i);
      && Exact(m') && m'.slots == m.slots && |m'.sets| == |m.sets|
      && (forall j :: 0 <= j < |ds| ==> LocalSet(m'.sets[j]) == LocalSet(m.sets[j]))
      && (forall j :: 0 <= j < |ds| ==>
            RemoteSet(m'.sets[j]) ==
              if i <= j && ds[j].Present? then OverlayEntries(RemoteSet(m.sets[j]), ds[j].entries)
                                     else RemoteSet(m.sets[j]))
    decreases ds, 1, |ds| - i
  {
    hide Exact, ExactSet, FitsSet, LocalSet, RemoteSet, OverlayEntries, CommitEntries, OnSetEvent;
    if i < |ds| {
      ListedPositive(m, i);
      if ds[i].Absent? {
        CommitSetsExact(m, ds, i + 1);
      } else {
        CommitEntriesExact(m.sets[i], ds[i].entries);
        var c := CommitEntries(m.sets[i], ds[i].entries);
        var ev := CommitEvent(m.sets[i].fields, c.fields);
        CommitEventTruthful(m.sets[i].fields, c.fields);
        OnSetEventExact(m, i, c, ev);
        CommitSetsExact(OnSetEvent(m.(sets := m.sets[i := c]), i, ev).0, ds, i + 1);
      }
    }
  }

  lemma {:induction false} CommitEntriesExact(c: Coll, es: seq<Entry>)
    requires ExactSet(c) && FitsSet(c, es)
    ensures var c' := CommitEntries(c, es);
      && ExactSet(c') && LocalSet(c') == LocalSet(c) && RemoteSet(c') == OverlayEntries(RemoteSet(c), es)
    decreases es, 0, 0
  {
    hide Exact, ExactSet, Fits, LocalSet, RemoteSet, OverlayEntry, CommitEntry;
    if es != [] {
      CommitEntryExact(c, es[0]);
      var c1 := CommitEntry(c, es[0]);
      forall k | 0 <= k < |es[1..]| ensures FitsEntry(c1, es[1..][k]) {
        assert es[1..][k] == es[k + 1] && FitsEntry(c, es[k + 1]);
      }
      CommitEntriesExact(c1, es[1..]);
    }
  }

  lemma {:induction false} CommitEntryExact(c: Coll, e: Entry)
    requires ExactSet(c) && FitsEntry(c, e)
    ensures var c' := CommitEntry(c, e);
      && ExactSet(c') && LocalSet(c') == LocalSet(c) && RemoteSet(c') == OverlayEntry(RemoteSet(c), e)
      && c'.elements.Keys == c.elements.Keys
      && forall id :: id in c.elements && id != e.id ==> c'.elements[id] == c.elements[id]
    decreases e, 3, 0
  {
    hide Exact, ExactSet, Fits, Commit, Overlay, Local, Remote, OnElementEvent;
    ElementExact(c, e.id);
    CommitExact(c.elements[e.id], e.snap);
    var (m, ev) := Commit(c.elements[e.id], e.snap);
    NonnegativeFields(m);
    OnElementEventExact(c, e.id, m, ev);
    var c' := CommitEntry(c, e);
    assert LocalSet(c').elements == LocalSet(c).elements;
    assert RemoteSet(c').elements == OverlayEntry(RemoteSet(c), e).elements;
  }

  /** Right after its snapshot a commit leaves no difference at all. */
  lemma {:induction false} CommitOfSnapshot(m: Msg)
    requires Exact(m)
    ensures var m' := Commit(m, Snapshot(m)).0; m'.fields == 0 && Local(m') == Remote(m') == Local(m)
  {
    hide Exact, Fits, Commit, Snapshot, Overlay, Local, Remote;
    SnapshotFits(m);
    CommitExact(m, Snapshot(m));
    SnapshotIsDifference(m);
    CleanIff(Commit(m, Snapshot(m)).0);
  }

  // ---------- edits leave snapshots committable ----------

  lemma {:induction false} ApplyFits(m: Msg, e: Edit, d: Snap)
    requires Exact(m) && Quiet(m, e) && Fits(m, d)
    ensures Fits(Apply(m, e).0, d)
    decreases e, 1
  {
    hide Exact, FitsSet, SetSlot, OnSetEvent, ApplyAll, ApplyElement, WithElement, QuietAll, QuietElement;
    match e {
      case SetField(k, v) =>
        if k < |m.slots| {
          SetSlotExact(m, k, v);
        }
      case In(i, x) =>
        if i < |m.sets| {
          ListedPositive(m, i);
          var (c, ev) := ApplyElement(m.sets[i], x);
          if d.sets[i].Present? {
            ApplyElementFits(m.sets[i], x, d.sets[i].entries);
          }
          OnSetEventData(m.(sets := m.sets[i := c]), i, ev);
        }
      case Atomic(i, es) =>
        if i < |m.sets| {
          ListedPositive(m, i);
          var (c, called) := ApplyAll(m.sets[i], es);
          if d.sets[i].Present? {
            ApplyAllFits(m.sets[i], es, d.sets[i].entries);
          }
          OnSetEventData(m.(sets := m.sets[i := c]), i, BlockEvent(m.sets[i].fields, c.fields, called));
        }
      case Add(i, id, data, es) =>
        if i < |m.sets| {
          ListedPositive(m, i);
          WithElementExact(m.sets[i], id, data);
          var c0 := WithElement(m.sets[i], id, data);
          var (c, called) := ApplyAll(c0, es);
          if d.sets[i].Present? {
            WithElementFits(m.sets[i], id, data, d.sets[i].entries);
            ApplyAllFits(c0, es, d.sets[i].entries);
          }
          OnSetEventData(m.(sets := m.sets[i := c]), i, BlockEvent(m.sets[i].fields, c.fields, called));
        }
    }
  }

  lemma {:induction false} WithElementFits(c: Coll, id: int, data: Plain, es: seq<Entry>)
    requires FitsSet(c, es) && id !in c.elements
    ensures FitsSet(WithElement(c, id, data), es)
  {
    hide Fits, Mounted;
    forall k | 0 <= k < |es| ensures FitsEntry(WithElement(c, id, data), es[k]) {
      assert FitsEntry(c, es[k]);
    }
  }

  lemma {:induction false} ApplyElementFits(c: Coll, x: ElementEdit, es: seq<Entry>)
    requires ExactSet(c) && QuietElement(c, x) && FitsSet(c, es)
    ensures FitsSet(ApplyElement(c, x).0, es)
    decreases x, 2
  {
    hide Exact, ExactSet, Apply, Fits, OnElementEvent, Quiet;
    if x.id in c.elements {
      ElementExact(c, x.id);
      var (m, ev) := Apply(c.elements[x.id], x.edit);
      OnElementEventData(c.(elements := c.elements[x.id := m]), x.id, ev);
      forall k | 0 <= k < |es| ensures FitsEntry(ApplyElement(c, x).0, es[k]) {
        assert FitsEntry(c, es[k]);
        if es[k].id == x.id {
          ApplyFits(c.elements[x.id], x.edit, es[k].snap);
        }
      }
    }
  }

  lemma {:induction false} ApplyAllFits(c: Coll, xs: seq<ElementEdit>, es: seq<Entry>)
    requires ExactSet(c) && QuietAll(c, xs) && FitsSet(c, es)
    ensures FitsSet(ApplyAll(c, xs).0, es)
    decreases xs, 0
  {
    hide ExactSet, ApplyElement, FitsSet, QuietElement;
    if xs != [] {
      ApplyElementExact(c, xs[0]);
      ApplyElementFits(c, xs[0], es);
      ApplyAllFits(ApplyElement(c, xs[0]).0, xs[1..], es);
    }
  }

  // ---------- whole runs ----------

  /** One message tree and the last snapshot that was taken of it and not committed yet. */
  datatype State = State(m: Msg, last: Option<Snap>)

  datatype Action = Do(edit: Edit) | TakeSnapshot | CommitLast

  ghost predicate Enabled(s: State, a: Action) {
    match a
    case Do(e) => Quiet(s.m, e)
    case TakeSnapshot => true
    case CommitLast => s.last.Some?
  }

  ghost function Next(s: State, a: Action): State
    requires Enabled(s, a)
  {
    match a
    case Do(e) => s.(m := Apply(s.m, e).0)
    case TakeSnapshot => s.(last := Some(Snapshot(s.m)))
    case CommitLast => State(Commit(s.m, s.last.value).0, None)
  }

  ghost predicate Runs(s: State, actions: seq<Action>)
    decreases |actions|
  {
    actions == [] || (Enabled(s, actions[0]) && Runs(Next(s, actions[0]), actions[1..]))
  }

  ghost function After(s: State, actions: seq<Action>): State
    requires Runs(s, actions)
    decreases |actions|
  {
    if actions == [] then s else After(Next(s, actions[0]), actions[1..])
  }

  ghost predicate Good(s: State) {
    Exact(s.m) && (s.last.Some? ==> Fits(s.m, s.last.value))
  }

  lemma StepGood(s: State, a: Action)
    requires Good(s) && Enabled(s, a)
    ensures Good(Next(s, a))
  {
    hide Exact, Fits, Apply, Commit, Snapshot, Quiet;
    match a {
      case Do(e) =>
        ApplyExact(s.m, e);
        if s.last.Some? {
          ApplyFits(s.m, e, s.last.value);
        }
      case TakeSnapshot => SnapshotFits(s.m);
      case CommitLast => CommitExact(s.m, s.last.value);
    }
  }

  /** Delta exactness: from a freshly mounted message, after any run of edits, snapshots and commits of
      the last snapshot, the whole tree is exact. */
  lemma {:induction false} RunExact(data: Plain, actions: seq<Action>)
    requires Runs(State(Mounted(data), None), actions)
    ensures var m := After(State(Mounted(data), None), actions).m;
      Exact(m) && (m.fields == 0 <==> Local(m) == Remote(m)) && Overlay(Remote(m), Snapshot(m)) == Local(m)
  {
    hide Exact, Mounted, Runs, After, Snapshot, Overlay, Local, Remote;
    var s := State(Mounted(data), None);
    MountedExact(data);
    RunGood(s, actions);
    CleanIff(After(s, actions).m);
    SnapshotIsDifference(After(s, actions).m);
  }

  lemma {:induction false} RunGood(s: State, actions: seq<Action>)
    requires Good(s) && Runs(s, actions)
    ensures Good(After(s, actions))
    decreases |actions|
  {
    hide Good, Enabled, Next;
    if actions != [] {
      StepGood(s, actions[0]);
      RunGood(Next(s, actions[0]), actions[1..]);
    }
  }
}
