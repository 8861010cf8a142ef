/** The diffable objects themselves: messages and sets that update their own counters and deltas. */
module Diffable {
  import opened Shared
  import opened DeltaSpec
  import opened DeltaCommit

  /** A local message mounted on its remote copy. Its setters and commits return the call of
      `onDeltaChange` that they make; the owner's handler runs on it at once. */
  class Message {
    var slots: seq<Slot>
    var sets: seq<MessageSet>
    var listed: seq<bool>
    var fields: int
    var supressPropagation: bool
    ghost var Repr: set<object>

    ghost predicate Valid()
      reads this, Repr
      decreases Repr, 1
    {
      && this in Repr && |listed| == |sets|
      && (forall i :: 0 <= i < |sets| ==>
            sets[i] in Repr && sets[i].Repr <= Repr && this !in sets[i].Repr && sets[i].Valid()
              && !sets[i].supressPropagation)
      && (forall i, j :: 0 <= i < j < |sets| ==> sets[i].Repr !! sets[j].Repr)
    }

    ghost function Value(): (m: Msg)
      requires Valid()
      reads this, Repr
      decreases Repr, 1
    {
      Msg(slots, seq(|sets|, i requires Valid() && 0 <= i < |sets| reads this, Repr => sets[i].Value()), listed, fields)
    }

    lemma {:induction false} ValueIs()
      requires Valid()
      ensures var m := Value();
              m.slots == slots && m.listed == listed && m.fields == fields && |m.sets| == |sets| == |listed|
      ensures forall i :: 0 <= i < |sets| ==> Value().sets[i] == sets[i].Value()
    {
    }

    /** Changing only this object leaves the sets and their values as they were. */
    twostate lemma {:induction false} SetsKept()
      requires old(Valid()) && Repr == old(Repr) && sets == old(sets) && |listed| == |sets|
      requires forall i :: 0 <= i < |sets| ==> unchanged(sets[i]) && unchanged(sets[i].Repr)
      ensures Valid() && Value().sets == old(Value().sets)
    {
      forall i | 0 <= i < |sets| ensures sets[i].Valid() && sets[i].Value() == old(sets[i].Value()) {
      }
    }

    /** Creates a message with a local and a remote copy of the same data. */
    constructor Mount(data: Plain)
      ensures Valid() && fresh(Repr) && Value() == Mounted(data) && !supressPropagation
      decreases data, 1
    {
      slots := seq(|data.scalars|, k requires 0 <= k < |data.scalars| => Slot(data.scalars[k], data.scalars[k], None));
      sets, listed, fields, supressPropagation := [], [], 0, false;
      Repr := {this};
      new;
      for i := 0 to |data.sets|
        invariant Valid() && fresh(Repr)
        invariant slots == Mounted(data).slots && fields == 0 && |sets| == i && !supressPropagation
        invariant forall j :: 0 <= j < i ==> sets[j].Value() == MountedSet(data.sets[j]) && !listed[j]
      {
        AppendSet(data.sets[i]);
      }
      assert Value().sets == Mounted(data).sets && Value().listed == Mounted(data).listed;
    }

    method AppendSet(data: PlainSet)
      requires Valid()
      modifies this
      ensures Valid() && fresh(Repr - old(Repr))
      ensures unchanged(`slots) && unchanged(`fields) && unchanged(`supressPropagation)
      ensures listed == old(listed) + [false] && |sets| == |old(sets)| + 1
      ensures forall j :: 0 <= j < |old(sets)| ==> sets[j] == old(sets[j]) && sets[j].Value() == old(sets[j].Value())
      ensures sets[|sets| - 1].Value() == MountedSet(data)
      decreases data, 2
    {
      var s := new MessageSet.Mount(data);
      sets, listed, Repr := sets + [s], listed + [false], Repr + s.Repr;
    }

    method SetField(k: nat, v: Scalar) returns (ev: Event)
      requires Valid() && k < |slots|
      modifies this
      ensures Valid() && Repr == old(Repr) && unchanged(`supressPropagation)
      ensures Value() == SetSlot(old(Value()), k, v).0 && ev == SetSlot(old(Value()), k, v).1
    {
      ev := Silent;
      var s := slots[k].(local := v);
      if s.remote == v {
        if s.delta.Some? {
          s := s.(delta := None);
          fields := fields - 1;
          ev := Changed(fields, -1);
        }
      } else if s.delta.None? {
        s := s.(delta := Some(v));
        fields := fields + 1;
        ev := Changed(fields, 1);
      } else {
        s := s.(delta := Some(v));
        ev := Changed(fields, 0);
      }
      slots := slots[k := s];
      SetsKept();
    }

    /** The callback handed to set `i`. */
    method HandleSetEvent(i: nat, ev: Event) returns (up: Event)
      requires Valid() && i < |sets|
      modifies this
      ensures Valid() && Repr == old(Repr) && sets == old(sets) && unchanged(`supressPropagation)
      ensures Value() == OnSetEvent(old(Value()), i, ev).0
      ensures up == if supressPropagation then Silent else OnSetEvent(old(Value()), i, ev).1
    {
      up := Silent;
      match ev {
        case Silent =>
        case Changed(f, d) =>
          if f == 0 && d < 0 {
            listed := listed[i := false];
            fields := fields - 1;
            up := if supressPropagation then Silent else Changed(fields, -1);
          } else if f == d {
            listed := listed[i := true];
            fields := fields + 1;
            up := if supressPropagation then Silent else Changed(fields, 1);
          } else {
            up := if supressPropagation then Silent else Changed(fields, 0);
          }
      }
      SetsKept();
    }

    /** Set `i` has changed below; this object and its other sets have not. */
    twostate lemma {:induction false} SetChanged(i: nat)
      requires old(Valid()) && unchanged(`slots) && unchanged(`sets) && unchanged(`listed) && unchanged(`fields)
      requires i < |sets| && sets[i].Valid() && !sets[i].supressPropagation && fresh(sets[i].Repr - old(sets[i].Repr))
        && this !in sets[i].Repr
      requires Repr == old(Repr) + sets[i].Repr
      requires forall j :: 0 <= j < |sets| && j != i ==> unchanged(sets[j]) && unchanged(old(sets[j].Repr))
      ensures Valid() && Value() == old(Value()).(sets := old(Value()).sets[i := sets[i].Value()])
    {
      forall j | 0 <= j < |sets|
        ensures sets[j].Valid() && this !in sets[j].Repr
        ensures j != i ==> sets[j].Value() == old(sets[j].Value()) && sets[j].Repr == old(sets[j].Repr)
      {
      }
      forall j, k | 0 <= j < k < |sets| ensures sets[j].Repr !! sets[k].Repr {
        assert old(sets[j].Repr) !! old(sets[k].Repr);
      }
      assert Value().sets == old(Value()).sets[i := sets[i].Value()];
    }

    /** What a valid message knows about its set `i` and the others. */
    lemma {:induction false} OfSet(i: nat)
      requires Valid() && i < |sets|
      ensures |listed| == |sets| && this in Repr && sets[i] in Repr && sets[i].Repr <= Repr && this !in sets[i].Repr
      ensures sets[i].Valid() && !sets[i].supressPropagation
      ensures forall j :: 0 <= j < |sets| && j != i ==>
        this !in sets[j].Repr && sets[j] !in sets[i].Repr && sets[j].Repr !! sets[i].Repr
    {
      forall j | 0 <= j < |sets| && j != i ensures sets[j] !in sets[i].Repr && sets[j].Repr !! sets[i].Repr {
        assert sets[j].Valid() && sets[j] in sets[j].Repr;
        assert if i < j then sets[i].Repr !! sets[j].Repr else sets[j].Repr !! sets[i].Repr;
      }
    }

    /** Any edit below this message, with the handlers of every level it passes. */
    method Perform(e: Edit) returns (ev: Event)
      requires Valid() && !supressPropagation
      modifies Repr
      ensures Valid() && fresh(Repr - old(Repr)) && !supressPropagation
      ensures Value() == Apply(old(Value()), e).0 && ev == Apply(old(Value()), e).1
      decreases e, 1
    {
      hide SetSlot, OnSetEvent, ApplyAll, ApplyElement, BlockEvent;
      ev := Silent;
      match e {
        case SetField(k, v) =>
          if k < |slots| {
            ev := SetField(k, v);
          }
        case In(i, x) =>
          if i < |sets| {
            ev := PerformInSet(i, x);
          }
        case Atomic(i, es) =>
          if i < |sets| {
            ev := PerformAtomic(i, es);
          }
        case Add(i, id, data, es) =>
          if i < |sets| {
            ev := PerformAdd(i, id, data, es);
          }
      }
    }

    method PerformInSet(i: nat, x: ElementEdit) returns (ev: Event)
      requires Valid() && !supressPropagation && i < |sets|
      modifies Repr
      ensures Valid() && fresh(Repr - old(Repr)) && !supressPropagation
      ensures Value() == Apply(old(Value()), In(i, x)).0 && ev == Apply(old(Value()), In(i, x)).1
      decreases x, 3
    {
      hide *;
      OfSet(i);
      ValueIs();
      ApplyInIs(Value(), i, x);
      var below := sets[i].PerformIn(x);
      Repr := Repr + sets[i].Repr;
      SetChanged(i);
      ev := HandleSetEvent(i, below);
    }

    method PerformAtomic(i: nat, es: seq<ElementEdit>) returns (ev: Event)
      requires Valid() && !supressPropagation && i < |sets|
      modifies Repr
      ensures Valid() && fresh(Repr - old(Repr)) && !supressPropagation
      ensures Value() == Apply(old(Value()), Atomic(i, es)).0 && ev == Apply(old(Value()), Atomic(i, es)).1
      decreases es, 3
    {
      hide *;
      OfSet(i);
      ValueIs();
      ApplyAtomicIs(Value(), i, es);
      var below := sets[i].AsAtomicChange(es);
      Repr := Repr + sets[i].Repr;
      SetChanged(i);
      ev := HandleSetEvent(i, below);
    }

    method PerformAdd(i: nat, id: int, data: Plain, es: seq<ElementEdit>) returns (ev: Event)
      requires Valid() && !supressPropagation && i < |sets|
      modifies Repr
      ensures Valid() && fresh(Repr - old(Repr)) && !supressPropagation
      ensures Value() == Apply(old(Value()), Add(i, id, data, es)).0
        && ev == Apply(old(Value()), Add(i, id, data, es)).1
      decreases es, 3
    {
      hide *;
      OfSet(i);
      ValueIs();
      ApplyAddIs(Value(), i, id, data, es);
      var below := sets[i].AddElement(id, data, es);
      Repr := Repr + sets[i].Repr;
      SetChanged(i);
      ev := HandleSetEvent(i, below);
    }

    /** The generated commit of scalar `k`. */
    method CommitField(k: nat, value: Scalar)
      requires Valid() && k < |slots|
      modifies this
      ensures Valid() && Repr == old(Repr) && unchanged(`supressPropagation)
      ensures Value() == CommitSlot(old(Value()), k, value)
    {
      var s := slots[k].(remote := value);
      if s.delta.None? {
        fields := fields + 1;
        s := s.(delta := Some(s.local));
      } else if s.local == s.remote {
        fields := fields - 1;
        s := s.(delta := None);
      }
      slots := slots[k := s];
      SetsKept();
    }

    method CommitFields(ds: seq<Option<Scalar>>)
      requires Valid()
      modifies this
      ensures Valid() && Repr == old(Repr) && unchanged(`supressPropagation)
      ensures Value() == CommitSlots(old(Value()), ds, 0)
    {
      hide CommitSlot;
      var k := 0;
      while k < |ds| && k < |slots|
        invariant Valid() && Repr == old(Repr) && unchanged(`supressPropagation)
        invariant CommitSlots(old(Value()), ds, 0) == CommitSlots(Value(), ds, k)
      {
        if ds[k].Some? {
          CommitField(k, ds[k].value);
        }
        k := k + 1;
      }
    }

    /** The commit of set `i`, whose event this message's handler takes without passing it on. */
    method CommitSet(i: nat, es: seq<Entry>)
      requires Valid() && supressPropagation && i < |sets|
      modifies Repr
      ensures Valid() && fresh(Repr - old(Repr)) && supressPropagation
      ensures
        var m := old(Value());
        var c := CommitEntries(m.sets[i], es);
        Value() == OnSetEvent(m.(sets := m.sets[i := c]), i, CommitEvent(m.sets[i].fields, c.fields)).0
      decreases es, 2
    {
      hide *;
      OfSet(i);
      ValueIs();
      var below := sets[i].Commit(es);
      Repr := Repr + sets[i].Repr;
      SetChanged(i);
      var up := HandleSetEvent(i, below);
    }

    method CommitAllSets(ds: seq<SetSnap>)
      requires Valid() && supressPropagation
      modifies Repr
      ensures Valid() && fresh(Repr - old(Repr)) && supressPropagation
      ensures Value() == CommitSets(old(Value()), ds, 0)
      decreases ds, 1
    {
      hide OnSetEvent, CommitEntries;
      var i := 0;
      while i < |ds| && i < |sets|
        invariant Valid() && fresh(Repr - old(Repr)) && supressPropagation
        invariant CommitSets(old(Value()), ds, 0) == CommitSets(Value(), ds, i)
        decreases |ds| - i
      {
        if ds[i].Present? {
          CommitSet(i, ds[i].entries);
        }
        i := i + 1;
      }
    }

    /** The generated commit: every field of the snapshot, then one event if the counter has changed. */
    method Commit(d: Snap) returns (ev: Event)
      requires Valid() && !supressPropagation
      modifies Repr
      ensures Valid() && fresh(Repr - old(Repr)) && !supressPropagation
      ensures Value() == DeltaCommit.Commit(old(Value()), d).0 && ev == DeltaCommit.Commit(old(Value()), d).1
      decreases d, 3
    {
      hide CommitSlots, CommitSets;
      var saveFields := fields;
      supressPropagation := true;
      SetsKept();
      CommitFields(d.slots);
      CommitAllSets(d.sets);
      label done:
      supressPropagation := false;
      SetsKept@done();
      ev := Silent;
      if fields != saveFields {
        ev := Changed(fields, fields - saveFields);
      }
    }

    /** `synchronize`: nothing when nothing has changed, otherwise a clone of the delta. */
    method Synchronize() returns (d: Option<Snap>)
      requires Valid()
      ensures d == if fields == 0 then None else Some(Snapshot(Value()))
    {
      if fields == 0 {
        return None;
      }
      var clone := CloneDelta();
      return Some(clone);
    }

    method CloneDelta() returns (d: Snap)
      requires Valid()
      ensures d == Snapshot(Value())
      decreases Repr, 1
    {
      hide *;
      ValueIs();
      SnapshotIs(Value());
      var slotSnaps := seq(|slots|, k requires 0 <= k < |slots| reads this => slots[k].delta);
      var setSnaps: seq<SetSnap> := [];
      for i := 0 to |sets|
        invariant |setSnaps| == i
        invariant forall j :: 0 <= j < i ==> setSnaps[j] == Snapshot(Value()).sets[j]
      {
        OfSet(i);
        if listed[i] {
          var entries := sets[i].CloneDelta();
          setSnaps := setSnaps + [Present(entries)];
        } else {
          setSnaps := setSnaps + [Absent];
        }
      }
      d := Snap(slotSnaps, setSnaps);
      assert d.slots == Snapshot(Value()).slots && d.sets == Snapshot(Value()).sets;
    }
  }

  class MessageSet {
    var elements: map<int, Message>
    var listed: seq<int>
    var fields: int
    var supressPropagation: bool
    var deltaCalled: nat
    ghost var Repr: set<object>

    ghost predicate Valid()
      reads this, Repr
      decreases Repr, 1
    {
      && this in Repr
      && (forall id :: id in elements ==>
            && elements[id] in Repr && elements[id].Repr <= Repr && this !in elements[id].Repr
            && elements[id].Valid() && !elements[id].supressPropagation)
      && (forall a, b :: a in elements && b in elements && a != b ==> elements[a].Repr !! elements[b].Repr)
    }

    constructor Mount(data: PlainSet)
      ensures Valid() && fresh(Repr) && Value() == MountedSet(data) && !supressPropagation
      decreases data, 0
    {
      elements, listed, fields, supressPropagation, deltaCalled := map[], [], 0, false, 0;
      Repr := {this};
      new;
      var left := data.elements.Keys;
      FilledEnds(data);
      while left != {}
        invariant Valid() && fresh(Repr) && left <= data.elements.Keys && !supressPropagation
        invariant Value() == Filled(data, left)
        decreases left
      {
        hide Filled, WithElement;
        SomeMember(left);
        var id :| id in left;
        FilledStep(data, left, id);
        SetElement(id, data.elements[id]);
        left := left - {id};
      }
    }

    method SetElement(id: int, data: Plain)
      requires Valid()
      modifies this
      ensures Valid() && fresh(Repr - old(Repr)) && unchanged(`supressPropagation) && unchanged(`deltaCalled)
      ensures Value() == WithElement(old(Value()), id, data)
      decreases data, 2
    {
      var m := new Message.Mount(data);
      elements := elements[id := m];
      Repr := Repr + m.Repr;
      ElementChanged(id);
    }

    ghost function Value(): (c: Coll)
      requires Valid()
      reads this, Repr
      ensures c.listed == listed && c.fields == fields && c.elements.Keys == elements.Keys
      ensures forall id :: id in elements ==> c.elements[id] == elements[id].Value()
      decreases Repr, 0
    {
      Coll(map id | id in elements :: elements[id].Value(), listed, fields)
    }

    twostate lemma {:induction false} ElementsKept()
      requires old(Valid()) && Repr == old(Repr) && elements == old(elements)
      requires forall id :: id in elements ==> unchanged(elements[id]) && unchanged(elements[id].Repr)
      ensures Valid() && Value().elements == old(Value().elements)
    {
      forall id | id in elements ensures elements[id].Valid() && elements[id].Value() == old(elements[id].Value()) {
      }
    }

    /** The callback handed to element `id`. */
    method HandleElementEvent(id: int, ev: Event) returns (up: Event)
      requires Valid()
      modifies this
      ensures Valid() && Repr == old(Repr) && elements == old(elements) && supressPropagation == old(supressPropagation)
      ensures Value() == OnElementEvent(old(Value()), id, ev).0
      ensures up == if supressPropagation then Silent else OnElementEvent(old(Value()), id, ev).1
      ensures deltaCalled == old(deltaCalled) + if ev.Changed? then 1 else 0
    {
      up := Silent;
      match ev {
        case Silent =>
        case Changed(f, d) =>
          deltaCalled := deltaCalled + 1;
          if f == 0 && d < 0 {
            listed := Without(listed, id);
            fields := fields - 1;
            up := if supressPropagation then Silent else Changed(fields, -1);
          } else if f == d {
            listed := With(listed, id);
            fields := fields + 1;
            up := if supressPropagation then Silent else Changed(fields, 1);
          } else {
            up := if supressPropagation then Silent else Changed(fields, 0);
          }
      }
      ElementsKept();
    }

    /** An element that nothing below has changed. */
    twostate lemma {:induction false} OtherElement(a: int)
      requires old(Valid()) && a in old(elements) && a in elements && elements[a] == old(elements)[a]
      requires unchanged(elements[a]) && unchanged(old(elements[a].Repr))
      ensures elements[a].Valid() && elements[a].Value() == old(elements[a].Value())
        && elements[a].Repr == old(elements[a].Repr)
      ensures elements[a].Repr <= old(Repr) && elements[a] in old(Repr) && this !in elements[a].Repr
      ensures elements[a].Value() == old(Value()).elements[a]
    {
    }

    /** Element `id` is new or has changed below; the other elements have not. */
    twostate lemma {:induction false} ElementChanged(id: int)
      requires old(Valid()) && unchanged(`listed) && unchanged(`fields)
      requires id in elements && elements == old(elements)[id := elements[id]]
      requires elements[id].Valid() && this !in elements[id].Repr && !elements[id].supressPropagation
      requires id in old(elements) && elements[id] == old(elements)[id] ==>
        fresh(elements[id].Repr - old(elements[id].Repr))
      requires id !in old(elements) || elements[id] != old(elements)[id] ==> fresh(elements[id].Repr)
      requires Repr == old(Repr) + elements[id].Repr
      requires forall a :: a in old(elements) && a != id ==>
        unchanged(old(elements[a])) && unchanged(old(elements[a].Repr))
      ensures Valid() && Value() == old(Value()).(elements := old(Value()).elements[id := elements[id].Value()])
    {
      hide *;
      ElementChangedValid(id);
      forall a | a in elements && a != id ensures elements[a].Value() == old(Value()).elements[a] {
        OtherElement(a);
      }
      assert Value().elements == old(Value()).elements[id := elements[id].Value()];
    }

    twostate lemma {:induction false} ElementChangedValid(id: int)
      requires old(Valid())
      requires id in elements && elements == old(elements)[id := elements[id]]
      requires elements[id].Valid() && this !in elements[id].Repr && !elements[id].supressPropagation
      requires id in old(elements) && elements[id] == old(elements)[id] ==>
        fresh(elements[id].Repr - old(elements[id].Repr))
      requires id !in old(elements) || elements[id] != old(elements)[id] ==> fresh(elements[id].Repr)
      requires Repr == old(Repr) + elements[id].Repr
      requires forall a :: a in old(elements) && a != id ==>
        unchanged(old(elements[a])) && unchanged(old(elements[a].Repr))
      ensures Valid()
    {
      InItsRepr(elements[id]);
      forall a | a in elements
        ensures elements[a].Valid() && this !in elements[a].Repr && elements[a] in Repr && elements[a].Repr <= Repr
        ensures a != id ==>
          a in old(elements) && elements[a].Repr == old(elements[a].Repr) && elements[a].Repr !! elements[id].Repr
      {
        if a != id {
          OtherElement(a);
          if id in old(elements) {
            assert old(elements[a].Repr) !! old(elements[id].Repr);
          }
        }
      }
      forall a, b | a in elements && b in elements && a != b ensures elements[a].Repr !! elements[b].Repr {
        if a != id && b != id {
          assert old(elements[a].Repr) !! old(elements[b].Repr);
        }
      }
    }

    static lemma {:induction false} InItsRepr(m: Message)
      requires m.Valid()
      ensures m in m.Repr
    {
    }

    /** What a valid set knows about its element `id` and the others. */
    lemma {:induction false} OfElement(id: int)
      requires Valid() && id in elements
      ensures this in Repr && elements[id] in Repr && elements[id].Repr <= Repr && this !in elements[id].Repr
      ensures elements[id].Valid() && !elements[id].supressPropagation
      ensures forall a :: a in elements && a != id ==>
        this !in elements[a].Repr && elements[a] !in elements[id].Repr && elements[a].Repr !! elements[id].Repr
    {
      forall a | a in elements && a != id ensures elements[a] !in elements[id].Repr {
        InItsRepr(elements[a]);
        assert elements[a].Repr !! elements[id].Repr;
      }
    }

    /** An edit of one element, and this set's handler on what it calls. */
    method PerformIn(x: ElementEdit) returns (ev: Event)
      requires Valid()
      modifies Repr
      ensures Valid() && fresh(Repr - old(Repr)) && supressPropagation == old(supressPropagation)
      ensures Value() == ApplyElement(old(Value()), x).0
      ensures ev == if supressPropagation then Silent else ApplyElement(old(Value()), x).1
      ensures deltaCalled == old(deltaCalled) + if ApplyElement(old(Value()), x).1.Changed? then 1 else 0
      decreases x, 2
    {
      hide *;
      ApplyElementIs(Value(), x);
      ev := Silent;
      if x.id in elements {
        var m := elements[x.id];
        OfElement(x.id);
        var below := m.Perform(x.edit);
        Repr := Repr + m.Repr;
        assert elements[x.id := m] == elements;
        ElementChanged(x.id);
        OnElementEventChanged(Value(), x.id, below);
        ev := HandleElementEvent(x.id, below);
      }
    }

    /** The edits of a block, one after another. */
    method PerformAll(es: seq<ElementEdit>)
      requires Valid() && supressPropagation
      modifies Repr
      ensures Valid() && fresh(Repr - old(Repr)) && supressPropagation
      ensures Value() == ApplyAll(old(Value()), es).0
      ensures deltaCalled != old(deltaCalled) <==> ApplyAll(old(Value()), es).1
      decreases es, 1
    {
      hide ApplyElement;
      assert es[0..] == es;
      for k := 0 to |es|
        invariant Valid() && fresh(Repr - old(Repr)) && supressPropagation
        invariant ApplyAll(old(Value()), es).0 == ApplyAll(Value(), es[k..]).0
        invariant deltaCalled >= old(deltaCalled)
        invariant ApplyAll(old(Value()), es).1 <==> deltaCalled != old(deltaCalled) || ApplyAll(Value(), es[k..]).1
      {
        assert es[k..][0] == es[k] && es[k..][1..] == es[k + 1..];
        var ev := PerformIn(es[k]);
      }
    }

    /** `asAtomicChange`: one event at the end, if any edit of the block called back. Inside another block
        of the same set the edits just become part of that one. */
    method AsAtomicChange(es: seq<ElementEdit>) returns (ev: Event)
      requires Valid()
      modifies Repr
      ensures Valid() && fresh(Repr - old(Repr)) && supressPropagation == old(supressPropagation)
      ensures Value() == ApplyAll(old(Value()), es).0
      ensures ev == if supressPropagation then Silent else BlockEvent(old(fields), fields, ApplyAll(old(Value()), es).1)
      ensures deltaCalled != old(deltaCalled) <==> ApplyAll(old(Value()), es).1
      decreases es, 2
    {
      hide ApplyAll;
      if supressPropagation {
        PerformAll(es);
        ev := Silent;
      } else {
        var deltaEpoch, saveFields := deltaCalled, fields;
        supressPropagation := true;
        ElementsKept();
        PerformAll(es);
        label done:
        supressPropagation := false;
        ElementsKept@done();
        ev := Silent;
        if deltaCalled != deltaEpoch {
          ev := Changed(fields, fields - saveFields);
        }
      }
    }

    /** `add`: mounts a new element inside an atomic block and lets the block edit it. */
    method AddElement(id: int, data: Plain, es: seq<ElementEdit>) returns (ev: Event)
      requires Valid()
      modifies Repr
      ensures Valid() && fresh(Repr - old(Repr)) && supressPropagation == old(supressPropagation)
      ensures Value() == ApplyAll(WithElement(old(Value()), id, data), es).0
      ensures ev == if supressPropagation then Silent
                    else BlockEvent(old(fields), fields, ApplyAll(WithElement(old(Value()), id, data), es).1)
      ensures deltaCalled != old(deltaCalled) <==> ApplyAll(WithElement(old(Value()), id, data), es).1
      decreases es, 2
    {
      hide ApplyAll, WithElement;
      if supressPropagation {
        SetElement(id, data);
        PerformAll(es);
        ev := Silent;
      } else {
        var deltaEpoch, saveFields := deltaCalled, fields;
        supressPropagation := true;
        ElementsKept();
        SetElement(id, data);
        PerformAll(es);
        label done:
        supressPropagation := false;
        ElementsKept@done();
        ev := Silent;
        if deltaCalled != deltaEpoch {
          ev := Changed(fields, fields - saveFields);
        }
      }
    }

    method CommitOne(e: Entry)
      requires Valid() && supressPropagation
      modifies Repr
      ensures Valid() && fresh(Repr - old(Repr)) && supressPropagation
      ensures Value() == CommitEntry(old(Value()), e)
      decreases e, 4
    {
      hide *;
      CommitEntryIs(Value(), e);
      if e.id in elements {
        var m := elements[e.id];
        OfElement(e.id);
        var below := m.Commit(e.snap);
        Repr := Repr + m.Repr;
        assert elements[e.id := m] == elements;
        ElementChanged(e.id);
        var up := HandleElementEvent(e.id, below);
      }
    }

    /** The commit of a set: each element of the snapshot, then one event if the counter has changed. */
    method Commit(es: seq<Entry>) returns (ev: Event)
      requires Valid() && !supressPropagation
      modifies Repr
      ensures Valid() && fresh(Repr - old(Repr)) && !supressPropagation
      ensures Value() == CommitEntries(old(Value()), es)
      ensures ev == CommitEvent(old(fields), fields)
      decreases es, 1
    {
      hide CommitEntry;
      var saveFields := fields;
      supressPropagation := true;
      ElementsKept();
      assert es[0..] == es;
      for k := 0 to |es|
        invariant Valid() && fresh(Repr - old(Repr)) && supressPropagation
        invariant CommitEntries(old(Value()), es) == CommitEntries(Value(), es[k..])
      {
        assert es[k..][0] == es[k] && es[k..][1..] == es[k + 1..];
        CommitOne(es[k]);
      }
      label done:
      supressPropagation := false;
      ElementsKept@done();
      ev := Silent;
      if fields != saveFields {
        ev := Changed(fields, fields - saveFields);
      }
    }

    method CloneDelta() returns (es: seq<Entry>)
      requires Valid()
      ensures es == SnapSet(Value(), listed)
      decreases Repr, 0
    {
      es := [];
      ghost var c := Value();
      assert listed[0..] == listed;
      for k := 0 to |listed|
        invariant SnapSet(c, listed) == es + SnapSet(c, listed[k..])
      {
        hide Snapshot, SnapSet;
        SnapSetStep(c, listed, k);
        if listed[k] in elements {
          var d := elements[listed[k]].CloneDelta();
          es := es + [Entry(listed[k], d)];
        }
      }
      assert listed[|listed|..] == [];
    }
  }

  lemma {:induction false} SnapshotIs(m: Msg)
    requires |m.sets| == |m.listed|
    ensures var d := Snapshot(m);
            && |d.slots| == |m.slots| && (forall k :: 0 <= k < |m.slots| ==> d.slots[k] == m.slots[k].delta)
            && |d.sets| == |m.sets|
            && forall i :: 0 <= i < |m.sets| ==>
                 d.sets[i] == if m.listed[i] then Present(SnapSet(m.sets[i], m.sets[i].listed)) else Absent
  {
  }

  lemma {:induction false} SnapSetStep(c: Coll, ids: seq<int>, k: nat)
    requires k < |ids|
    ensures SnapSet(c, ids[k..]) ==
            (if ids[k] in c.elements then [Entry(ids[k], Snapshot(c.elements[ids[k]]))] else [])
              + SnapSet(c, ids[k + 1..])
  {
    assert ids[k..][0] == ids[k] && ids[k..][1..] == ids[k + 1..];
  }

  /** A set that holds the mounted elements outside `left`. */
  function Filled(data: PlainSet, left: set<int>): Coll {
    Coll(map id | id in data.elements && id !in left :: Mounted(data.elements[id]), [], 0)
  }

  lemma {:induction false} FilledEnds(data: PlainSet)
    ensures Filled(data, data.elements.Keys) == Coll(map[], [], 0)
    ensures Filled(data, {}) == MountedSet(data)
  {
    hide Mounted;
    assert Filled(data, data.elements.Keys).elements == map[];
    assert Filled(data, {}).elements == MountedSet(data).elements;
  }

  lemma FilledStep(data: PlainSet, left: set<int>, id: int)
    requires id in left && left <= data.elements.Keys
    ensures WithElement(Filled(data, left), id, data.elements[id]) == Filled(data, left - {id})
  {
    hide Mounted;
    assert WithElement(Filled(data, left), id, data.elements[id]).elements == Filled(data, left - {id}).elements;
  }

  lemma {:induction false} ApplyInIs(m: Msg, i: nat, x: ElementEdit)
    requires i < |m.sets| == |m.listed|
    ensures
      var (c, ev) := ApplyElement(m.sets[i], x);
      Apply(m, In(i, x)) == OnSetEvent(m.(sets := m.sets[i := c]), i, ev)
  {
  }

  lemma {:induction false} ApplyAtomicIs(m: Msg, i: nat, es: seq<ElementEdit>)
    requires i < |m.sets| == |m.listed|
    ensures
      var (c, called) := ApplyAll(m.sets[i], es);
      Apply(m, Atomic(i, es)) == OnSetEvent(m.(sets := m.sets[i := c]), i,
        BlockEvent(m.sets[i].fields, c.fields, called))
  {
  }

  lemma {:induction false} ApplyAddIs(m: Msg, i: nat, id: int, data: Plain, es: seq<ElementEdit>)
    requires i < |m.sets| == |m.listed|
    ensures
      var (c, called) := ApplyAll(WithElement(m.sets[i], id, data), es);
      Apply(m, Add(i, id, data, es)) == OnSetEvent(m.(sets := m.sets[i := c]), i,
        BlockEvent(m.sets[i].fields, c.fields, called))
  {
  }

  lemma {:induction false} ApplyElementIs(c: Coll, x: ElementEdit)
    ensures ApplyElement(c, x) ==
      if x.id in c.elements then
        var (m, ev) := Apply(c.elements[x.id], x.edit);
        OnElementEvent(c.(elements := c.elements[x.id := m]), x.id, ev)
      else (c, Silent)
  {
  }

  lemma {:induction false} CommitEntryIs(c: Coll, e: Entry)
    ensures CommitEntry(c, e) ==
      if e.id in c.elements then
        var (m, ev) := DeltaCommit.Commit(c.elements[e.id], e.snap);
        OnElementEvent(c.(elements := c.elements[e.id := m]), e.id, ev).0
      else c
  {
  }

  lemma SomeMember(s: set<int>)
    ensures s == {} || exists id :: id in s
  {
    if forall id :: id !in s {
      assert s == {};
    }
  }

  lemma OnElementEventChanged(c: Coll, id: int, ev: Event)
    ensures OnElementEvent(c, id, ev).1.Changed? <==> ev.Changed?
  {
  }
}
