/** Local copies, remote copies and their deltas: the bookkeeping of one diffable message tree, on values. */
module DeltaSpec {
  import opened Shared

  /** The value of a scalar field; byte arrays are compared by content. */
  datatype Scalar = Number(n: int) | Text(s: string) | Flag(b: bool) | Bytes(bytes: seq<int>)

  /** A scalar field of a mounted message: its value, the remote value and its delta entry. */
  datatype Slot = Slot(local: Scalar, remote: Scalar, delta: Option<Scalar>)

  /** A mounted message with its scalar fields and its set fields in declaration order. `listed[i]` says
      whether the delta has an entry for set `i`; `fields` counts the entries of the delta. */
  datatype Msg = Msg(slots: seq<Slot>, sets: seq<Coll>, listed: seq<bool>, fields: int)

  /** A mounted set of messages; `listed` are the ids of its delta in the order of their insertion. */
  datatype Coll = Coll(elements: map<int, Msg>, listed: seq<int>, fields: int)

  /** A call of `onDeltaChange`, if there is one. */
  datatype Event = Silent | Changed(fields: int, delta: int)

  // ---------- plain data ----------

  /** A message without bookkeeping. */
  datatype Plain = Plain(scalars: seq<Scalar>, sets: seq<PlainSet>)

  datatype PlainSet = PlainSet(elements: map<int, Plain>)

  ghost function Local(m: Msg): Plain
    decreases m, 1
  {
    Plain(seq(|m.slots|, k requires 0 <= k < |m.slots| => m.slots[k].local),
          seq(|m.sets|, i requires 0 <= i < |m.sets| => LocalSet(m.sets[i])))
  }

  ghost function LocalSet(c: Coll): (p: PlainSet)
    ensures p.elements.Keys == c.elements.Keys
    decreases c, 0
  {
    PlainSet(map id | id in c.elements :: Local(c.elements[id]))
  }

  ghost function Remote(m: Msg): Plain
    decreases m, 1
  {
    Plain(seq(|m.slots|, k requires 0 <= k < |m.slots| => m.slots[k].remote),
          seq(|m.sets|, i requires 0 <= i < |m.sets| => RemoteSet(m.sets[i])))
  }

  ghost function RemoteSet(c: Coll): (p: PlainSet)
    ensures p.elements.Keys == c.elements.Keys
    decreases c, 0
  {
    PlainSet(map id | id in c.elements :: Remote(c.elements[id]))
  }

  /** Mounting a message on a copy of itself: no delta anywhere. */
  function Mounted(p: Plain): (m: Msg)
    decreases p, 1
  {
    Msg(seq(|p.scalars|, k requires 0 <= k < |p.scalars| => Slot(p.scalars[k], p.scalars[k], None)),
        seq(|p.sets|, i requires 0 <= i < |p.sets| => MountedSet(p.sets[i])),
        seq(|p.sets|, _ => false), 0)
  }

  function MountedSet(p: PlainSet): (c: Coll)
    decreases p, 0
  {
    Coll(map id | id in p.elements :: Mounted(p.elements[id]), [], 0)
  }

  // ---------- exactness ----------

  function CountSlots(slots: seq<Slot>): nat {
    if slots == [] then 0 else CountSlots(slots[..|slots| - 1]) + if slots[|slots| - 1].delta.Some? then 1 else 0
  }

  function CountListed(listed: seq<bool>): nat {
    if listed == [] then 0 else CountListed(listed[..|listed| - 1]) + if listed[|listed| - 1] then 1 else 0
  }

  predicate SlotExact(s: Slot) {
    s.delta == if s.local == s.remote then None else Some(s.local)
  }

  /** The delta has exactly the scalars that differ, with the local value, and exactly the sets with a
      changed element; the counter is the number of its entries; and so on down the tree. */
  ghost predicate Exact(m: Msg)
    decreases m, 1
  {
    && |m.listed| == |m.sets|
    && (forall k :: 0 <= k < |m.slots| ==> SlotExact(m.slots[k]))
    && (forall i :: 0 <= i < |m.sets| ==> ExactSet(m.sets[i]) && (m.listed[i] <==> m.sets[i].fields > 0))
    && m.fields == CountSlots(m.slots) + CountListed(m.listed)
  }

  ghost predicate ExactSet(c: Coll)
    decreases c, 0
  {
    && (forall id :: id in c.elements ==> Exact(c.elements[id]))
    && Distinct(c.listed)
    && (forall id :: id in c.listed <==> id in c.elements && c.elements[id].fields > 0)
    && c.fields == |c.listed|
  }

  ghost predicate Distinct(ids: seq<int>) {
    forall i, j :: 0 <= i < j < |ids| ==> ids[i] != ids[j]
  }

  // ---------- counting ----------

  lemma {:induction false} CountSlotsUpdate(slots: seq<Slot>, k: nat, s: Slot)
    requires k < |slots|
    ensures CountSlots(slots[k := s]) == CountSlots(slots)
      + (if s.delta.Some? then 1 else 0) - if slots[k].delta.Some? then 1 else 0
  {
    var n := |slots| - 1;
    if k == n {
      assert slots[k := s][..n] == slots[..n];
    } else {
      CountSlotsUpdate(slots[..n], k, s);
      assert slots[k := s][..n] == slots[..n][k := s];
    }
  }

  lemma {:induction false} CountListedUpdate(listed: seq<bool>, k: nat, b: bool)
    requires k < |listed|
    ensures CountListed(listed[k := b]) == CountListed(listed) + (if b then 1 else 0) - if listed[k] then 1 else 0
  {
    var n := |listed| - 1;
    if k == n {
      assert listed[k := b][..n] == listed[..n];
    } else {
      CountListedUpdate(listed[..n], k, b);
      assert listed[k := b][..n] == listed[..n][k := b];
    }
  }

  lemma {:induction false} CountSlotsPositive(slots: seq<Slot>, k: nat)
    requires k < |slots| && slots[k].delta.Some?
    ensures CountSlots(slots) > 0
  {
    if k < |slots| - 1 {
      CountSlotsPositive(slots[..|slots| - 1], k);
    }
  }

  lemma {:induction false} CountListedPositive(listed: seq<bool>, k: nat)
    requires k < |listed| && listed[k]
    ensures CountListed(listed) > 0
  {
    if k < |listed| - 1 {
      CountListedPositive(listed[..|listed| - 1], k);
    }
  }

  lemma {:induction false} CountSlotsZero(slots: seq<Slot>)
    requires forall k :: 0 <= k < |slots| ==> slots[k].delta.None?
    ensures CountSlots(slots) == 0
  {
    if slots != [] {
      CountSlotsZero(slots[..|slots| - 1]);
    }
  }

  lemma {:induction false} CountListedZero(listed: seq<bool>)
    requires forall k :: 0 <= k < |listed| ==> !listed[k]
    ensures CountListed(listed) == 0
  {
    if listed != [] {
      CountListedZero(listed[..|listed| - 1]);
    }
  }

  /** A counter is zero exactly when the local copy equals the remote one. */
  lemma {:induction false} CleanIff(m: Msg)
    requires Exact(m)
    ensures m.fields >= 0 && (m.fields == 0 <==> Local(m) == Remote(m))
    decreases m, 1
  {
    hide Distinct;
    var l, r := Local(m), Remote(m);
    forall i | 0 <= i < |m.sets| ensures m.sets[i].fields >= 0 && (m.sets[i].fields == 0 <==> l.sets[i] == r.sets[i]) {
      CleanSetIff(m.sets[i]);
    }
    if m.fields == 0 {
      forall k | 0 <= k < |m.slots| ensures l.scalars[k] == r.scalars[k] {
        if m.slots[k].delta.Some? {
          CountSlotsPositive(m.slots, k);
        }
      }
      forall i | 0 <= i < |m.sets| ensures l.sets[i] == r.sets[i] {
        if m.listed[i] {
          CountListedPositive(m.listed, i);
        }
      }
      assert l.scalars == r.scalars && l.sets == r.sets;
    }
    if l == r {
      forall k | 0 <= k < |m.slots| ensures m.slots[k].delta.None? {
        assert l.scalars[k] == r.scalars[k];
      }
      CountSlotsZero(m.slots);
      forall i | 0 <= i < |m.sets| ensures !m.listed[i] {
        assert l.sets[i] == r.sets[i];
      }
      CountListedZero(m.listed);
    }
  }

  lemma {:induction false} CleanSetIff(c: Coll)
    requires ExactSet(c)
    ensures c.fields >= 0 && (c.fields == 0 <==> LocalSet(c) == RemoteSet(c))
    decreases c, 0
  {
    hide Exact, Local, Remote;
    forall id | id in c.elements
      ensures c.elements[id].fields >= 0
      ensures c.elements[id].fields == 0 <==> LocalSet(c).elements[id] == RemoteSet(c).elements[id]
    {
      CleanIff(c.elements[id]);
    }
    if c.fields == 0 {
      forall id | id in c.elements ensures LocalSet(c).elements[id] == RemoteSet(c).elements[id] {
        assert id !in c.listed;
      }
      assert LocalSet(c).elements == RemoteSet(c).elements;
    } else {
      var id := c.listed[0];
      assert id in c.listed;
      assert id in c.elements && LocalSet(c).elements[id] != RemoteSet(c).elements[id];
    }
  }

  lemma {:induction false} MountedClean(p: Plain)
    ensures Mounted(p).fields == 0
  {
  }

  /** A freshly mounted message is exact and holds the same data on both sides. */
  lemma {:induction false} MountedExact(p: Plain)
    ensures Exact(Mounted(p)) && Local(Mounted(p)) == p && Remote(Mounted(p)) == p
    decreases p, 1
  {
    var m := Mounted(p);
    CountSlotsZero(m.slots);
    CountListedZero(m.listed);
    forall i | 0 <= i < |p.sets|
      ensures ExactSet(MountedSet(p.sets[i])) && LocalSet(MountedSet(p.sets[i])) == p.sets[i]
        && RemoteSet(MountedSet(p.sets[i])) == p.sets[i]
    {
      MountedSetExact(p.sets[i]);
    }
    assert Local(m).scalars == p.scalars && Local(m).sets == p.sets;
    assert Remote(m).scalars == p.scalars && Remote(m).sets == p.sets;
  }

  lemma {:induction false} MountedSetExact(p: PlainSet)
    ensures ExactSet(MountedSet(p)) && LocalSet(MountedSet(p)) == p && RemoteSet(MountedSet(p)) == p
    decreases p, 0
  {
    hide Exact, Local, Remote, Mounted;
    var es := p.elements;
    forall id | id in es ensures Exact(Mounted(es[id])) && Local(Mounted(es[id])) == es[id]
      && Remote(Mounted(es[id])) == es[id] {
      MountedExact(es[id]);
    }
    forall id | id in es ensures Mounted(es[id]).fields == 0 {
      MountedClean(es[id]);
    }
    assert LocalSet(MountedSet(p)).elements == es;
    assert RemoteSet(MountedSet(p)).elements == es;
  }

  // ---------- events ----------

  /** The generated setter of scalar `k`. */
  function SetSlot(m: Msg, k: nat, v: Scalar): (Msg, Event)
    requires k < |m.slots|
  {
    var s := m.slots[k].(local := v);
    if s.remote == v then
      if s.delta.Some? then
        (m.(slots := m.slots[k := s.(delta := None)], fields := m.fields - 1), Changed(m.fields - 1, -1))
      else (m.(slots := m.slots[k := s]), Silent)
    else if s.delta.None? then
      (m.(slots := m.slots[k := s.(delta := Some(v))], fields := m.fields + 1), Changed(m.fields + 1, 1))
    else (m.(slots := m.slots[k := s.(delta := Some(v))]), Changed(m.fields, 0))
  }

  /** The callback that a message hands to its set `i`. */
  function OnSetEvent(m: Msg, i: nat, ev: Event): (Msg, Event)
    requires i < |m.listed|
  {
    match ev
    case Silent => (m, Silent)
    case Changed(f, d) =>
      if f == 0 && d < 0 then (m.(listed := m.listed[i := false], fields := m.fields - 1), Changed(m.fields - 1, -1))
      else if f == d then (m.(listed := m.listed[i := true], fields := m.fields + 1), Changed(m.fields + 1, 1))
      else (m, Changed(m.fields, 0))
  }

  function Without(ids: seq<int>, id: int): seq<int> {
    if ids == [] then [] else if ids[0] == id then Without(ids[1..], id) else [ids[0]] + Without(ids[1..], id)
  }

  /** Setting a key of an insertion-ordered map. */
  function With(ids: seq<int>, id: int): seq<int> {
    if id in ids then ids else ids + [id]
  }

  /** The callback that a set hands to its element `id`. */
  function OnElementEvent(c: Coll, id: int, ev: Event): (Coll, Event) {
    match ev
    case Silent => (c, Silent)
    case Changed(f, d) =>
      if f == 0 && d < 0 then (c.(listed := Without(c.listed, id), fields := c.fields - 1), Changed(c.fields - 1, -1))
      else if f == d then (c.(listed := With(c.listed, id), fields := c.fields + 1), Changed(c.fields + 1, 1))
      else (c, Changed(c.fields, 0))
  }

  /** An event that tells a parent the truth about a counter that went from `f0` to `f1`. The pair
      (0, 0), which a parent would take for an addition, is not among them. */
  predicate Truthful(f0: int, f1: int, ev: Event) {
    match ev
    case Silent => f0 == f1
    case Changed(f, d) => f == f1 && d == f1 - f0 && !(f0 == 0 && f1 == 0)
  }

  lemma {:induction false} SlotOf(m: Msg, k: nat)
    requires Exact(m) && k < |m.slots|
    ensures SlotExact(m.slots[k]) && m.fields == CountSlots(m.slots) + CountListed(m.listed)
  {
  }

  lemma {:induction false} SlotUpdated(m: Msg, k: nat, m': Msg)
    requires Exact(m) && k < |m.slots| == |m'.slots|
      && m' == m.(slots := m.slots[k := m'.slots[k]], fields := m'.fields)
    requires SlotExact(m'.slots[k]) && m'.fields == CountSlots(m'.slots) + CountListed(m.listed)
    ensures Exact(m')
  {
    hide ExactSet, SlotExact, CountSlots, CountListed;
  }

  lemma {:induction false} SetSlotExact(m: Msg, k: nat, v: Scalar)
    requires Exact(m) && k < |m.slots|
    ensures var (m', ev) := SetSlot(m, k, v);
      && Exact(m') && Truthful(m.fields, m'.fields, ev)
      && m'.sets == m.sets && |m'.slots| == |m.slots|
      && (forall j :: 0 <= j < |m.slots| ==> m'.slots[j].remote == m.slots[j].remote)
      && (forall j :: 0 <= j < |m.slots| ==> m'.slots[j].local == if j == k then v else m.slots[j].local)
  {
    hide Exact, ExactSet, CountSlots, CountListed;
    SlotOf(m, k);
    CountSlotsUpdate(m.slots, k, SetSlot(m, k, v).0.slots[k]);
    CountsNonnegative(m);
    if m.slots[k].delta.Some? {
      CountSlotsPositive(m.slots, k);
    }
    SlotUpdated(m, k, SetSlot(m, k, v).0);
  }

  lemma CountsNonnegative(m: Msg)
    ensures CountSlots(m.slots) >= 0 && CountListed(m.listed) >= 0
  {
  }

  function WithSet(m: Msg, i: nat, c: Coll, b: bool): Msg
    requires i < |m.sets| == |m.listed|
  {
    m.(sets := m.sets[i := c], listed := m.listed[i := b],
       fields := m.fields + (if b then 1 else 0) - if m.listed[i] then 1 else 0)
  }

  lemma WithSetExact(m: Msg, i: nat, c: Coll)
    requires Exact(m) && i < |m.sets| && ExactSet(c)
    ensures Exact(WithSet(m, i, c, c.fields > 0))
  {
    hide SlotExact, ExactSet, CountSlots, CountListed;
    CountListedUpdate(m.listed, i, c.fields > 0);
  }

  lemma {:induction false} ListedPositive(m: Msg, i: nat)
    requires Exact(m) && i < |m.sets|
    ensures |m.listed| == |m.sets| && (m.listed[i] <==> m.sets[i].fields > 0)
    ensures m.fields >= 0 && (m.listed[i] ==> m.fields > 0)
    ensures ExactSet(m.sets[i]) && m.sets[i].fields >= 0
  {
    if m.listed[i] {
      CountListedPositive(m.listed, i);
    }
    CountsNonnegative(m);
  }

  /** A truthful event of a changed set keeps its message exact. */
  lemma {:induction false} OnSetEventExact(m: Msg, i: nat, c: Coll, ev: Event)
    requires Exact(m) && i < |m.sets| && ExactSet(c) && Truthful(m.sets[i].fields, c.fields, ev)
    ensures i < |m.listed|
    ensures var (m', ev') := OnSetEvent(m.(sets := m.sets[i := c]), i, ev);
      Exact(m') && Truthful(m.fields, m'.fields, ev') && m'.slots == m.slots && m'.sets == m.sets[i := c]
  {
    hide Exact, ExactSet, OnSetEvent, WithSet;
    ListedPositive(m, i);
    FieldsNonnegative(c);
    WithSetExact(m, i, c);
    OnSetEventIs(m, i, c, ev);
    WithSetFields(m, i, c);
    ListedPositive(WithSet(m, i, c, c.fields > 0), i);
  }

  lemma WithSetFields(m: Msg, i: nat, c: Coll)
    requires i < |m.sets| == |m.listed|
    ensures var w := WithSet(m, i, c, c.fields > 0);
      && w.slots == m.slots && w.sets == m.sets[i := c] && (w.listed[i] <==> c.fields > 0)
      && w.fields == m.fields + (if c.fields > 0 then 1 else 0) - if m.listed[i] then 1 else 0
  {
  }

  lemma OnSetEventIs(m: Msg, i: nat, c: Coll, ev: Event)
    requires i < |m.sets| == |m.listed| && m.sets[i].fields >= 0 && c.fields >= 0
    requires (m.listed[i] <==> m.sets[i].fields > 0) && Truthful(m.sets[i].fields, c.fields, ev)
    ensures var w := WithSet(m, i, c, c.fields > 0);
      OnSetEvent(m.(sets := m.sets[i := c]), i, ev)
        == (w, if ev.Silent? then Silent else Changed(w.fields, w.fields - m.fields))
  {
    var w := WithSet(m, i, c, c.fields > 0);
    var r := OnSetEvent(m.(sets := m.sets[i := c]), i, ev).0;
    assert r.listed == w.listed;
  }

  lemma {:induction false} FieldsNonnegative(c: Coll)
    requires ExactSet(c)
    ensures c.fields >= 0
  {
  }

  lemma {:induction false} WithoutHas(ids: seq<int>, id: int)
    ensures forall x :: x in Without(ids, id) <==> x in ids && x != id
    ensures Distinct(ids) ==> Distinct(Without(ids, id)) && |Without(ids, id)| == |ids| - if id in ids then 1 else 0
  {
    if ids != [] {
      WithoutHas(ids[1..], id);
      assert ids == [ids[0]] + ids[1..];
      var rest := Without(ids[1..], id);
      if Distinct(ids) {
        assert ids[0] !in ids[1..];
        forall i, j | 0 <= i < j < |ids[1..]| ensures ids[1..][i] != ids[1..][j] {
          assert ids[i + 1] != ids[j + 1];
        }
      }
    }
  }

  lemma WithHas(ids: seq<int>, id: int)
    ensures forall x :: x in With(ids, id) <==> x in ids || x == id
    ensures Distinct(ids) ==> Distinct(With(ids, id)) && |With(ids, id)| == |ids| + if id in ids then 0 else 1
  {
  }

  /** A truthful event of a changed or new element keeps its set exact. */
  lemma {:induction false} OnElementEventExact(c: Coll, id: int, m: Msg, ev: Event)
    requires ExactSet(c) && Exact(m) && m.fields >= 0
    requires id in c.elements ==> c.elements[id].fields >= 0
    requires Truthful(if id in c.elements then c.elements[id].fields else 0, m.fields, ev)
    ensures var (c', ev') := OnElementEvent(c.(elements := c.elements[id := m]), id, ev);
      ExactSet(c') && Truthful(c.fields, c'.fields, ev') && c'.elements == c.elements[id := m]
  {
    hide Exact, Distinct;
    WithoutHas(c.listed, id);
    WithHas(c.listed, id);
    if c.listed == [] {
      assert id !in c.listed;
    }
  }

  // ---------- edits ----------

  /** What a page does to the local copy: set a field, edit an element of a set, run several edits of one
      set as an atomic block, or add a new element (which is a block that mounts it and edits it). */
  datatype Edit =
    | SetField(slot: nat, value: Scalar)
    | In(set_: nat, at: ElementEdit)
    | Atomic(set_: nat, edits: seq<ElementEdit>)
    | Add(set_: nat, id: int, data: Plain, init: seq<ElementEdit>)

  datatype ElementEdit = ElementEdit(id: int, edit: Edit)

  /** The event at the end of a block that found the counter at `f0`. */
  function BlockEvent(f0: int, f1: int, called: bool): Event {
    if called then Changed(f1, f1 - f0) else Silent
  }

  function Apply(m: Msg, e: Edit): (Msg, Event)
    decreases e, 1
  {
    match e
    case SetField(k, v) => if k < |m.slots| then SetSlot(m, k, v) else (m, Silent)
    case In(i, x) =>
      if i < |m.sets| && i < |m.listed| then
        var (c, ev) := ApplyElement(m.sets[i], x);
        OnSetEvent(m.(sets := m.sets[i := c]), i, ev)
      else (m, Silent)
    case Atomic(i, es) =>
      if i < |m.sets| && i < |m.listed| then
        var (c, called) := ApplyAll(m.sets[i], es);
        OnSetEvent(m.(sets := m.sets[i := c]), i, BlockEvent(m.sets[i].fields, c.fields, called))
      else (m, Silent)
    case Add(i, id, data, es) =>
      if i < |m.sets| && i < |m.listed| then
        var (c, called) := ApplyAll(WithElement(m.sets[i], id, data), es);
        OnSetEvent(m.(sets := m.sets[i := c]), i, BlockEvent(m.sets[i].fields, c.fields, called))
      else (m, Silent)
  }

  function WithElement(c: Coll, id: int, data: Plain): Coll {
    c.(elements := c.elements[id := Mounted(data)])
  }

  function ApplyElement(c: Coll, x: ElementEdit): (Coll, Event)
    decreases x, 2
  {
    if x.id in c.elements then
      var (m, ev) := Apply(c.elements[x.id], x.edit);
      OnElementEvent(c.(elements := c.elements[x.id := m]), x.id, ev)
    else (c, Silent)
  }

  /** The edits of a block, without propagation, and whether any of them called back. */
  function ApplyAll(c: Coll, es: seq<ElementEdit>): (Coll, bool)
    decreases es, 0
  {
    if es == [] then (c, false)
    else
      var (c1, ev) := ApplyElement(c, es[0]);
      var (c2, called) := ApplyAll(c1, es[1..]);
      (c2, ev.Changed? || called)
  }

  /** A block inside a block of the same set is part of it. */
  lemma {:induction false} ApplyAllConcat(c: Coll, a: seq<ElementEdit>, b: seq<ElementEdit>)
    ensures ApplyAll(c, a + b).0 == ApplyAll(ApplyAll(c, a).0, b).0
    ensures ApplyAll(c, a + b).1 == (ApplyAll(c, a).1 || ApplyAll(ApplyAll(c, a).0, b).1)
    decreases a
  {
    hide ApplyElement;
    if a == [] {
      assert a + b == b;
    } else {
      ApplyAllConcat(ApplyElement(c, a[0]).0, a[1..], b);
      assert (a + b)[1..] == a[1..] + b;
    }
  }

  /** Added ids are new, and no block that calls back both finds and leaves its set clean: such a block
      would report the pair (0, 0). */
  ghost predicate Quiet(m: Msg, e: Edit)
    decreases e, 1
  {
    match e
    case SetField(_, _) => true
    case In(i, x) => i < |m.sets| ==> QuietElement(m.sets[i], x)
    case Atomic(i, es) =>
      i < |m.sets| ==>
        var (c, called) := ApplyAll(m.sets[i], es);
        QuietAll(m.sets[i], es) && !(called && m.sets[i].fields == 0 && c.fields == 0)
    case Add(i, id, data, es) =>
      i < |m.sets| ==>
        var (c, called) := ApplyAll(WithElement(m.sets[i], id, data), es);
        id !in m.sets[i].elements && QuietAll(WithElement(m.sets[i], id, data), es)
        && !(called && m.sets[i].fields == 0 && c.fields == 0)
  }

  ghost predicate QuietElement(c: Coll, x: ElementEdit)
    decreases x, 2
  {
    x.id in c.elements ==> Quiet(c.elements[x.id], x.edit)
  }

  ghost predicate QuietAll(c: Coll, es: seq<ElementEdit>)
    decreases es, 0
  {
    es == [] ||
    (&& QuietElement(c, es[0])
     && QuietAll(ApplyElement(c, es[0]).0, es[1..]))
  }

  lemma {:induction false} ApplyExact(m: Msg, e: Edit)
    requires Exact(m) && Quiet(m, e)
    ensures Exact(Apply(m, e).0) && Truthful(m.fields, Apply(m, e).0.fields, Apply(m, e).1)
    decreases e, 1
  {
    hide Exact, ExactSet, SetSlot, OnSetEvent, OnElementEvent, ApplyAll, WithElement;
    match e {
      case SetField(k, v) =>
        if k < |m.slots| {
          SetSlotExact(m, k, v);
        }
      case In(i, x) =>
        if i < |m.sets| {
          ListedPositive(m, i);
          ApplyElementExact(m.sets[i], x);
          OnSetEventExact(m, i, ApplyElement(m.sets[i], x).0, ApplyElement(m.sets[i], x).1);
        }
      case Atomic(i, es) =>
        if i < |m.sets| {
          ListedPositive(m, i);
          ApplyAllExact(m.sets[i], es);
          BlockExact(m, i, m.sets[i], es);
        }
      case Add(i, id, data, es) =>
        if i < |m.sets| {
          ListedPositive(m, i);
          WithElementExact(m.sets[i], id, data);
          ApplyAllExact(WithElement(m.sets[i], id, data), es);
          BlockExact(m, i, WithElement(m.sets[i], id, data), es);
        }
    }
  }

  lemma {:induction false} WithElementExact(c: Coll, id: int, data: Plain)
    requires ExactSet(c) && id !in c.elements
    ensures ExactSet(WithElement(c, id, data)) && WithElement(c, id, data).fields == c.fields
  {
    hide Exact, Distinct, Mounted;
    MountedExact(data);
    MountedClean(data);
  }

  lemma {:induction false} BlockExact(m: Msg, i: nat, c: Coll, es: seq<ElementEdit>)
    requires Exact(m) && i < |m.sets| && c.fields == m.sets[i].fields
    requires var (c', called) := ApplyAll(c, es);
      ExactSet(c') && (!called ==> c'.fields == c.fields) && !(called && c.fields == 0 && c'.fields == 0)
    ensures i < |m.listed|
    ensures
      var (c', called) := ApplyAll(c, es);
      var (m', ev) := OnSetEvent(m.(sets := m.sets[i := c']), i, BlockEvent(c.fields, c'.fields, called));
      Exact(m') && Truthful(m.fields, m'.fields, ev)
  {
    hide Exact, ExactSet, OnSetEvent, ApplyAll;
    var (c', called) := ApplyAll(c, es);
    OnSetEventExact(m, i, c', BlockEvent(c.fields, c'.fields, called));
  }

  lemma {:induction false} ApplyElementExact(c: Coll, x: ElementEdit)
    requires ExactSet(c) && QuietElement(c, x)
    ensures ExactSet(ApplyElement(c, x).0)
    ensures Truthful(c.fields, ApplyElement(c, x).0.fields, ApplyElement(c, x).1)
    decreases x, 2
  {
    hide Exact, ExactSet, OnElementEvent, Apply;
    if x.id in c.elements {
      ElementExact(c, x.id);
      ApplyExact(c.elements[x.id], x.edit);
      var (m, ev) := Apply(c.elements[x.id], x.edit);
      NonnegativeFields(m);
      OnElementEventExact(c, x.id, m, ev);
    }
  }

  lemma {:induction false} ElementExact(c: Coll, id: int)
    requires ExactSet(c) && id in c.elements
    ensures Exact(c.elements[id]) && c.elements[id].fields >= 0
  {
    CountsNonnegative(c.elements[id]);
  }

  lemma {:induction false} NonnegativeFields(m: Msg)
    requires Exact(m)
    ensures m.fields >= 0
  {
    CountsNonnegative(m);
  }

  lemma {:induction false} ApplyAllExact(c: Coll, es: seq<ElementEdit>)
    requires ExactSet(c) && QuietAll(c, es)
    ensures ExactSet(ApplyAll(c, es).0)
    ensures !ApplyAll(c, es).1 ==> ApplyAll(c, es).0.fields == c.fields
    decreases es, 0
  {
    hide ExactSet, ApplyElement, QuietElement;
    if es != [] {
      ApplyElementExact(c, es[0]);
      ApplyAllExact(ApplyElement(c, es[0]).0, es[1..]);
    }
  }

  lemma {:induction false} RemoteUpdate(m: Msg, m': Msg, i: nat, c: Coll)
    requires i < |m.sets| && m'.slots == m.slots && m'.sets == m.sets[i := c]
    ensures Remote(m') == Remote(m).(sets := Remote(m).sets[i := RemoteSet(c)])
  {
    hide RemoteSet;
    assert Remote(m').scalars == Remote(m).scalars;
    assert Remote(m').sets == Remote(m).sets[i := RemoteSet(c)];
  }

  // ---------- what an edit does to the data ----------

  /** The same edit on plain data. */
  ghost function PlainApply(p: Plain, e: Edit): Plain
    decreases e, 1
  {
    match e
    case SetField(k, v) => if k < |p.scalars| then p.(scalars := p.scalars[k := v]) else p
    case In(i, x) => if i < |p.sets| then p.(sets := p.sets[i := PlainElement(p.sets[i], x)]) else p
    case Atomic(i, es) => if i < |p.sets| then p.(sets := p.sets[i := PlainAll(p.sets[i], es)]) else p
    case Add(i, id, data, es) =>
      if i < |p.sets| then p.(sets := p.sets[i := PlainAll(PlainSet(p.sets[i].elements[id := data]), es)]) else p
  }

  ghost function PlainElement(p: PlainSet, x: ElementEdit): PlainSet
    decreases x, 2
  {
    if x.id in p.elements then PlainSet(p.elements[x.id := PlainApply(p.elements[x.id], x.edit)]) else p
  }

  ghost function PlainAll(p: PlainSet, es: seq<ElementEdit>): PlainSet
    decreases es, 0
  {
    if es == [] then p else PlainAll(PlainElement(p, es[0]), es[1..])
  }

  lemma OnSetEventData(m: Msg, i: nat, ev: Event)
    requires i < |m.listed|
    ensures OnSetEvent(m, i, ev).0.slots == m.slots && OnSetEvent(m, i, ev).0.sets == m.sets
  {
  }

  lemma OnElementEventData(c: Coll, id: int, ev: Event)
    ensures OnElementEvent(c, id, ev).0.elements == c.elements
  {
  }

  lemma LocalSetUpdate(c: Coll, id: int, m: Msg)
    ensures LocalSet(c.(elements := c.elements[id := m])).elements == LocalSet(c).elements[id := Local(m)]
  {
    hide Local;
  }

  lemma {:induction false} LocalSetData(c: Coll, d: Coll)
    requires c.elements == d.elements
    ensures LocalSet(c) == LocalSet(d)
  {
    hide Local;
  }

  lemma {:induction false} LocalUpdate(m: Msg, m': Msg, i: nat, c: Coll)
    requires i < |m.sets| && m'.slots == m.slots && m'.sets == m.sets[i := c]
    ensures Local(m') == Local(m).(sets := Local(m).sets[i := LocalSet(c)])
  {
    hide LocalSet;
    assert Local(m').scalars == Local(m).scalars;
    assert Local(m').sets == Local(m).sets[i := LocalSet(c)];
  }

  /** The bookkeeping never gets in the way of the data: editing the local copy is editing plain data. */
  lemma {:induction false} ApplyLocal(m: Msg, e: Edit)
    requires Exact(m) && Quiet(m, e)
    ensures Local(Apply(m, e).0) == PlainApply(Local(m), e)
    decreases e, 1
  {
    hide Exact, ExactSet, SetSlot, OnSetEvent, OnElementEvent, ApplyAll, WithElement, PlainAll, PlainElement, Local,
      LocalSet;
    LocalShape(m);
    match e {
      case SetField(k, v) =>
        if k < |m.slots| {
          SetSlotLocal(m, k, v);
        }
      case In(i, x) =>
        if i < |m.sets| {
          ListedPositive(m, i);
          var (c, ev) := ApplyElement(m.sets[i], x);
          ApplyElementLocal(m.sets[i], x);
          OnSetEventData(m.(sets := m.sets[i := c]), i, ev);
          LocalUpdate(m, Apply(m, e).0, i, c);
        }
      case Atomic(i, es) =>
        if i < |m.sets| {
          ListedPositive(m, i);
          var (c, called) := ApplyAll(m.sets[i], es);
          ApplyAllLocal(m.sets[i], es);
          OnSetEventData(m.(sets := m.sets[i := c]), i, BlockEvent(m.sets[i].fields, c.fields, called));
          LocalUpdate(m, Apply(m, e).0, i, c);
        }
      case Add(i, id, data, es) =>
        if i < |m.sets| {
          ListedPositive(m, i);
          WithElementExact(m.sets[i], id, data);
          WithElementLocal(m.sets[i], id, data);
          var (c, called) := ApplyAll(WithElement(m.sets[i], id, data), es);
          ApplyAllLocal(WithElement(m.sets[i], id, data), es);
          OnSetEventData(m.(sets := m.sets[i := c]), i, BlockEvent(m.sets[i].fields, c.fields, called));
          LocalUpdate(m, Apply(m, e).0, i, c);
        }
    }
  }

  lemma {:induction false} LocalShape(m: Msg)
    ensures |Local(m).scalars| == |m.slots| && |Local(m).sets| == |m.sets|
    ensures forall i :: 0 <= i < |m.sets| ==> Local(m).sets[i] == LocalSet(m.sets[i])
  {
  }

  lemma {:induction false} SetSlotLocal(m: Msg, k: nat, v: Scalar)
    requires k < |m.slots|
    ensures Local(SetSlot(m, k, v).0) == Local(m).(scalars := Local(m).scalars[k := v])
  {
    var m' := SetSlot(m, k, v).0;
    assert Local(m').scalars == Local(m).scalars[k := v];
    assert Local(m').sets == Local(m).sets;
  }

  lemma {:induction false} WithElementLocal(c: Coll, id: int, data: Plain)
    ensures LocalSet(WithElement(c, id, data)) == PlainSet(LocalSet(c).elements[id := data])
  {
    hide Mounted, Local;
    MountedExact(data);
    LocalSetUpdate(c, id, Mounted(data));
  }

  lemma {:induction false} ApplyElementLocal(c: Coll, x: ElementEdit)
    requires ExactSet(c) && QuietElement(c, x)
    ensures LocalSet(ApplyElement(c, x).0) == PlainElement(LocalSet(c), x)
    decreases x, 2
  {
    hide Exact, ExactSet, OnElementEvent, Apply, Local, PlainApply;
    if x.id in c.elements {
      ElementExact(c, x.id);
      var (m, ev) := Apply(c.elements[x.id], x.edit);
      ApplyLocal(c.elements[x.id], x.edit);
      var d := c.(elements := c.elements[x.id := m]);
      OnElementEventData(d, x.id, ev);
      LocalSetData(OnElementEvent(d, x.id, ev).0, d);
      LocalSetUpdate(c, x.id, m);
    }
  }

  lemma {:induction false} ApplyAllLocal(c: Coll, es: seq<ElementEdit>)
    requires ExactSet(c) && QuietAll(c, es)
    ensures LocalSet(ApplyAll(c, es).0) == PlainAll(LocalSet(c), es)
    decreases es, 0
  {
    hide ExactSet, ApplyElement, QuietElement, PlainElement, LocalSet;
    if es != [] {
      ApplyElementExact(c, es[0]);
      ApplyElementLocal(c, es[0]);
      ApplyAllLocal(ApplyElement(c, es[0]).0, es[1..]);
    }
  }

  // ---------- what an edit does to the remote copy ----------

  /** What an edit adds to the remote copy: new elements only. */
  ghost function Grow(p: Plain, e: Edit): Plain
    decreases e, 1
  {
    match e
    case SetField(k, v) => p
    case In(i, x) => if i < |p.sets| then p.(sets := p.sets[i := GrowElement(p.sets[i], x)]) else p
    case Atomic(i, es) => if i < |p.sets| then p.(sets := p.sets[i := GrowAll(p.sets[i], es)]) else p
    case Add(i, id, data, es) =>
      if i < |p.sets| then p.(sets := p.sets[i := GrowAll(PlainSet(p.sets[i].elements[id := data]), es)]) else p
  }

  ghost function GrowElement(p: PlainSet, x: ElementEdit): PlainSet
    decreases x, 2
  {
    if x.id in p.elements then PlainSet(p.elements[x.id := Grow(p.elements[x.id], x.edit)]) else p
  }

  ghost function GrowAll(p: PlainSet, es: seq<ElementEdit>): PlainSet
    decreases es, 0
  {
    if es == [] then p else GrowAll(GrowElement(p, es[0]), es[1..])
  }

  lemma RemoteSetUpdate(c: Coll, id: int, m: Msg)
    ensures RemoteSet(c.(elements := c.elements[id := m])).elements == RemoteSet(c).elements[id := Remote(m)]
  {
    hide Remote;
  }

  lemma {:induction false} RemoteSetData(c: Coll, d: Coll)
    requires c.elements == d.elements
    ensures RemoteSet(c) == RemoteSet(d)
  {
    hide Remote;
  }

  lemma {:induction false} RemoteShape(m: Msg)
    ensures |Remote(m).scalars| == |m.slots| && |Remote(m).sets| == |m.sets|
    ensures forall i :: 0 <= i < |m.sets| ==> Remote(m).sets[i] == RemoteSet(m.sets[i])
  {
  }

  lemma {:induction false} SetSlotRemote(m: Msg, k: nat, v: Scalar)
    requires k < |m.slots|
    ensures Remote(SetSlot(m, k, v).0) == Remote(m)
  {
    assert Remote(SetSlot(m, k, v).0).scalars == Remote(m).scalars;
    assert Remote(SetSlot(m, k, v).0).sets == Remote(m).sets;
  }

  lemma {:induction false} ApplyRemote(m: Msg, e: Edit)
    requires Exact(m) && Quiet(m, e)
    ensures Remote(Apply(m, e).0) == Grow(Remote(m), e)
    decreases e, 1
  {
    hide Exact, ExactSet, SetSlot, OnSetEvent, OnElementEvent, ApplyAll, WithElement, GrowAll, GrowElement, Remote,
      RemoteSet;
    RemoteShape(m);
    match e {
      case SetField(k, v) =>
        if k < |m.slots| {
          SetSlotRemote(m, k, v);
        }
      case In(i, x) =>
        if i < |m.sets| {
          ListedPositive(m, i);
          var (c, ev) := ApplyElement(m.sets[i], x);
          ApplyElementRemote(m.sets[i], x);
          OnSetEventData(m.(sets := m.sets[i := c]), i, ev);
          RemoteUpdate(m, Apply(m, e).0, i, c);
        }
      case Atomic(i, es) =>
        if i < |m.sets| {
          ListedPositive(m, i);
          var (c, called) := ApplyAll(m.sets[i], es);
          ApplyAllRemote(m.sets[i], es);
          OnSetEventData(m.(sets := m.sets[i := c]), i, BlockEvent(m.sets[i].fields, c.fields, called));
          RemoteUpdate(m, Apply(m, e).0, i, c);
        }
      case Add(i, id, data, es) =>
        if i < |m.sets| {
          ListedPositive(m, i);
          WithElementExact(m.sets[i], id, data);
          WithElementRemote(m.sets[i], id, data);
          var (c, called) := ApplyAll(WithElement(m.sets[i], id, data), es);
          ApplyAllRemote(WithElement(m.sets[i], id, data), es);
          OnSetEventData(m.(sets := m.sets[i := c]), i, BlockEvent(m.sets[i].fields, c.fields, called));
          RemoteUpdate(m, Apply(m, e).0, i, c);
        }
    }
  }

  lemma {:induction false} WithElementRemote(c: Coll, id: int, data: Plain)
    ensures RemoteSet(WithElement(c, id, data)) == PlainSet(RemoteSet(c).elements[id := data])
  {
    hide Mounted, Remote;
    MountedExact(data);
    RemoteSetUpdate(c, id, Mounted(data));
  }

  lemma {:induction false} ApplyElementRemote(c: Coll, x: ElementEdit)
    requires ExactSet(c) && QuietElement(c, x)
    ensures RemoteSet(ApplyElement(c, x).0) == GrowElement(RemoteSet(c), x)
    decreases x, 2
  {
    hide Exact, ExactSet, OnElementEvent, Apply, Remote, Grow;
    if x.id in c.elements {
      ElementExact(c, x.id);
      var (m, ev) := Apply(c.elements[x.id], x.edit);
      ApplyRemote(c.elements[x.id], x.edit);
      var d := c.(elements := c.elements[x.id := m]);
      OnElementEventData(d, x.id, ev);
      RemoteSetData(OnElementEvent(d, x.id, ev).0, d);
      RemoteSetUpdate(c, x.id, m);
    }
  }

  lemma {:induction false} ApplyAllRemote(c: Coll, es: seq<ElementEdit>)
    requires ExactSet(c) && QuietAll(c, es)
    ensures RemoteSet(ApplyAll(c, es).0) == GrowAll(RemoteSet(c), es)
    decreases es, 0
  {
    hide ExactSet, ApplyElement, QuietElement, GrowElement, RemoteSet;
    if es != [] {
      ApplyElementExact(c, es[0]);
      ApplyElementRemote(c, es[0]);
      ApplyAllRemote(ApplyElement(c, es[0]).0, es[1..]);
    }
  }

  // ---------- blocks that leave a message inexact ----------

  /** Editing both copies of a set side by side, they differ after some of the edits. */
  ghost predicate DifferMeanwhile(local: PlainSet, remote: PlainSet, es: seq<ElementEdit>)
    decreases |es|
  {
    es != [] &&
    var l, r := PlainElement(local, es[0]), GrowElement(remote, es[0]);
    l != r || DifferMeanwhile(l, r, es[1..])
  }

  /** Two equal copies of a set that differ after some of the edits and are equal again after all of them. */
  ghost predicate ComesBack(local: PlainSet, remote: PlainSet, es: seq<ElementEdit>) {
    local == remote && DifferMeanwhile(local, remote, es) && PlainAll(local, es) == GrowAll(remote, es)
  }

  /** The edits of a block on a clean set call back iff they make the copies differ at some time. */
  lemma {:induction false} CalledIff(c: Coll, es: seq<ElementEdit>)
    requires ExactSet(c) && QuietAll(c, es) && c.fields == 0
    ensures ApplyAll(c, es).1 <==> DifferMeanwhile(LocalSet(c), RemoteSet(c), es)
    decreases es
  {
    hide ExactSet, ApplyElement, QuietElement, PlainElement, GrowElement, LocalSet, RemoteSet;
    if es != [] {
      var (c1, ev) := ApplyElement(c, es[0]);
      ApplyElementExact(c, es[0]);
      ApplyElementLocal(c, es[0]);
      ApplyElementRemote(c, es[0]);
      CleanSetIff(c1);
      if ev.Silent? {
        CalledIff(c1, es[1..]);
      }
    }
  }

  /** The pair (0, 0) is reported exactly by a block on a clean set that comes back to where it started. */
  lemma {:induction false} ComesBackIff(c: Coll, es: seq<ElementEdit>)
    requires ExactSet(c) && QuietAll(c, es)
    ensures var (c', called) := ApplyAll(c, es);
      called && c.fields == 0 && c'.fields == 0 <==> ComesBack(LocalSet(c), RemoteSet(c), es)
  {
    hide ExactSet, ApplyAll, QuietAll, LocalSet, RemoteSet, PlainAll, GrowAll, DifferMeanwhile;
    CleanSetIff(c);
    ApplyAllExact(c, es);
    CleanSetIff(ApplyAll(c, es).0);
    ApplyAllLocal(c, es);
    ApplyAllRemote(c, es);
    if c.fields == 0 {
      CalledIff(c, es);
    }
  }

  /** A message with a clean set that is listed is not exact. */
  lemma ZeroReported(m: Msg, i: nat, c: Coll)
    requires Exact(m) && i < |m.sets| && c.fields == 0
    ensures i < |m.listed| && !Exact(OnSetEvent(m.(sets := m.sets[i := c]), i, Changed(0, 0)).0)
  {
    hide ExactSet;
    var m' := OnSetEvent(m.(sets := m.sets[i := c]), i, Changed(0, 0)).0;
    if Exact(m') {
      ListedPositive(m', i);
    }
  }

  /**
   * An atomic block keeps its message exact iff it does not touch a clean set and bring it back: then
   * the parent counts a set that has no change.
   */
  lemma {:induction false} AtomicExactIff(m: Msg, i: nat, es: seq<ElementEdit>)
    requires Exact(m) && i < |m.sets| && QuietAll(m.sets[i], es)
    ensures Exact(Apply(m, Atomic(i, es)).0) <==> !ComesBack(LocalSet(m.sets[i]), RemoteSet(m.sets[i]), es)
  {
    hide Exact, ExactSet, ApplyAll, QuietAll, LocalSet, RemoteSet, ComesBack, OnSetEvent;
    var (c, called) := ApplyAll(m.sets[i], es);
    ListedPositive(m, i);
    ComesBackIff(m.sets[i], es);
    if called && m.sets[i].fields == 0 && c.fields == 0 {
      ZeroReported(m, i, c);
    } else {
      ApplyExact(m, Atomic(i, es));
    }
  }

  /** The same for the block in which an element is added and edited. */
  lemma {:induction false} AddExactIff(m: Msg, i: nat, id: int, data: Plain, es: seq<ElementEdit>)
    requires Exact(m) && i < |m.sets| && id !in m.sets[i].elements && QuietAll(WithElement(m.sets[i], id, data), es)
    ensures Exact(Apply(m, Add(i, id, data, es)).0) <==>
      !ComesBack(PlainSet(LocalSet(m.sets[i]).elements[id := data]),
        PlainSet(RemoteSet(m.sets[i]).elements[id := data]), es)
  {
    hide Exact, ExactSet, ApplyAll, QuietAll, LocalSet, RemoteSet, ComesBack, OnSetEvent, WithElement;
    ListedPositive(m, i);
    var d := WithElement(m.sets[i], id, data);
    WithElementExact(m.sets[i], id, data);
    WithElementLocal(m.sets[i], id, data);
    WithElementRemote(m.sets[i], id, data);
    var (c, called) := ApplyAll(d, es);
    ComesBackIff(d, es);
    if called && d.fields == 0 && c.fields == 0 {
      ZeroReported(m, i, c);
    } else {
      ApplyExact(m, Add(i, id, data, es));
    }
  }

  /** The shortest such block: set a field of an element and set it back. */
  lemma TouchAndRevert(a: Scalar, b: Scalar)
    requires a != b
    ensures
      var m := Mounted(Plain([], [PlainSet(map[1 := Plain([a], [])])]));
      var block := Atomic(0, [ElementEdit(1, SetField(0, b)), ElementEdit(1, SetField(0, a))]);
      && Exact(m) && Local(Apply(m, block).0) == Remote(Apply(m, block).0)
      && Apply(m, block).0.fields == 1
  {
    var p := Plain([], [PlainSet(map[1 := Plain([a], [])])]);
    var m := Mounted(p);
    var es := [ElementEdit(1, SetField(0, b)), ElementEdit(1, SetField(0, a))];
    var clean, dirty := Msg([Slot(a, a, None)], [], [], 0), Msg([Slot(b, a, Some(b))], [], [], 1);
    var c0, c1 := Coll(map[1 := clean], [], 0), Coll(map[1 := dirty], [1], 1);
    MountedOne(a);
    assert m.sets == [c0] && m.listed == [false];
    TouchSteps(a, b);
    assert ApplyElement(c0, es[0]) == (c1, Changed(1, 1));
    assert ApplyElement(c1, es[1]) == (c0, Changed(0, -1));
    assert es[1..] == [es[1]];
    assert ApplyAll(c1, es[1..]) == (c0, true);
    assert ApplyAll(c0, es) == (c0, true);
    MountedExact(p);
    var m' := Apply(m, Atomic(0, es)).0;
    OnSetEventData(m.(sets := m.sets[0 := c0]), 0, BlockEvent(0, 0, true));
    assert m'.slots == m.slots && m'.sets == m.sets;
    LocalUpdate(m, m', 0, c0);
    RemoteUpdate(m, m', 0, c0);
  }

  lemma MountedOne(a: Scalar)
    ensures MountedSet(PlainSet(map[1 := Plain([a], [])])) == Coll(map[1 := Msg([Slot(a, a, None)], [], [], 0)], [], 0)
  {
    var p := Plain([a], []);
    assert Mounted(p).slots == [Slot(a, a, None)] && Mounted(p).sets == [] && Mounted(p).listed == [];
    assert MountedSet(PlainSet(map[1 := p])).elements == map[1 := Mounted(p)];
  }

  lemma {:induction false} TouchSteps(a: Scalar, b: Scalar)
    requires a != b
    ensures
      var clean, dirty := Msg([Slot(a, a, None)], [], [], 0), Msg([Slot(b, a, Some(b))], [], [], 1);
      var c0, c1 := Coll(map[1 := clean], [], 0), Coll(map[1 := dirty], [1], 1);
      && ApplyElement(c0, ElementEdit(1, SetField(0, b))) == (c1, Changed(1, 1))
      && ApplyElement(c1, ElementEdit(1, SetField(0, a))) == (c0, Changed(0, -1))
  {
    var clean, dirty := Msg([Slot(a, a, None)], [], [], 0), Msg([Slot(b, a, Some(b))], [], [], 1);
    assert SetSlot(clean, 0, b).0.slots == dirty.slots;
    assert SetSlot(dirty, 0, a).0.slots == clean.slots;
    assert SetSlot(clean, 0, b) == (dirty, Changed(1, 1));
    assert SetSlot(dirty, 0, a) == (clean, Changed(0, -1));
    assert map[1 := clean][1 := dirty] == map[1 := dirty] && map[1 := dirty][1 := clean] == map[1 := clean];
    assert Without([1], 1) == Without([], 1) == [];
    assert With([], 1) == [1];
  }
}
