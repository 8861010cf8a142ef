/** The save loop on values: its states, its steps and what holds over every run of them. */
module SyncSpec {
  import opened Shared
  import opened DeltaSpec
  import opened DeltaCommit

  /** The states of the future that tells waiters how a save ended. */
  datatype Status = Clear | Rejected | Resolved | Awaiting | Fulfilled

  /** `m` is the local document mounted on its remote copy, `server` the document as the server last
      acknowledged it and `inflight` the snapshot of the request that is being awaited. `settled` counts
      how often the running loop has settled the notifier. `excused` remembers that edits may be unsaved:
      a save failed, saving was suppressed or a loop could not start. `told` is what the last caller that
      had to wait was told, once it was. */
  datatype Sync = Sync(m: Msg, server: Plain, inflight: Option<Snap>, handlerInProgress: bool, updateWhileSave: bool,
                       notifier: Status, lastFields: int, catchAllLastFields: int, supressSave: bool,
                       settled: nat, excused: bool, told: Option<bool>)

  /** A document as the page first sees it. */
  function Start(data: Plain): Sync {
    Sync(Mounted(data), data, None, false, false, Clear, 0, 0, true, 0, false, None)
  }

  // ---------- steps ----------

  /** The head of the loop, up to the next request or to the end of the loop. */
  ghost function Continue(s: Sync): Sync {
    if !s.updateWhileSave then s.(handlerInProgress := false)
    else if s.m.fields == 0 then s.(updateWhileSave := false, handlerInProgress := false)
    else s.(updateWhileSave := false, inflight := Some(Snapshot(s.m)))
  }

  /** `onDeltaChange`. Clearing an awaited notifier throws, so such a call starts no loop. */
  ghost function Notify(s: Sync, fields: int): Sync {
    var s1 := s.(updateWhileSave := true, catchAllLastFields := fields);
    if s.supressSave then s1.(excused := true)
    else if s.handlerInProgress then s1.(lastFields := fields)
    else if s.notifier == Awaiting then s1.(lastFields := fields, excused := true)
    else Continue(s1.(lastFields := fields, notifier := Clear, handlerInProgress := true, settled := 0,
      excused := false))
  }

  ghost function NotifyEvent(s: Sync, ev: Event): Sync {
    if ev.Changed? then Notify(s, ev.fields) else s
  }

  predicate Settleable(s: Sync) {
    s.notifier == Clear || s.notifier == Awaiting
  }

  function Settle(s: Sync, how: Status): Sync
    requires Settleable(s)
  {
    var s' := s.(settled := s.settled + 1);
    if s.notifier == Awaiting then s'.(notifier := Fulfilled, told := Some(how == Resolved)) else s'.(notifier := how)
  }

  /** The response to the awaited request; a failed request has changed nothing on the server. */
  ghost function Respond(s: Sync, ok: bool): Sync
    requires s.inflight.Some? && Settleable(s)
  {
    var s1 := s.(inflight := None);
    if ok then
      var s2 := s1.(server := Overlay(s.server, s.inflight.value));
      var s3 := if s.updateWhileSave then s2 else Settle(s2.(lastFields := 0), Resolved);
      var (m, ev) := Commit(s.m, s.inflight.value);
      Continue(NotifyEvent(s3.(m := m), ev))
    else
      Continue(if s.updateWhileSave then s1 else Settle(s1.(excused := true), Rejected))
  }

  /** An edit of the document. The server has no row for a new element yet; it is taken to hold the
      element's initial data, as the remote copy does. */
  ghost function OnEdit(s: Sync, e: Edit): Sync {
    var (m, ev) := Apply(s.m, e);
    NotifyEvent(s.(m := m, server := Grow(s.server, e)), ev)
  }

  /** `asAtomicChange` of the controller: the edits are saved together, after the last of them. Saving is
      suppressed until then, which excuses nothing. */
  ghost function OnBlock(s: Sync, es: seq<Edit>): Sync {
    if s.supressSave then OnEdits(s, es)
    else
      var s' := OnEdits(s.(supressSave := true), es);
      var s'' := s'.(supressSave := false, excused := s.excused);
      if CallsBack(s.m, es) then Notify(s'', s''.catchAllLastFields) else s''
  }

  ghost function OnEdits(s: Sync, es: seq<Edit>): Sync
    decreases |es|
  {
    if es == [] then s else OnEdits(OnEdit(s, es[0]), es[1..])
  }

  predicate CallsBack(m: Msg, es: seq<Edit>)
    decreases |es|
  {
    es != [] && (Apply(m, es[0]).1.Changed? || CallsBack(Apply(m, es[0]).0, es[1..]))
  }

  /** `synchronize`: waits for the notifier unless nothing is to be saved. */
  function OnWait(s: Sync): Sync {
    if s.lastFields == 0 then s
    else match s.notifier
      case Clear => s.(notifier := Awaiting, told := None)
      case Rejected => s.(notifier := Fulfilled)
      case Resolved => s.(notifier := Fulfilled)
      case _ => s
  }

  /** What `synchronize` answers at once; a caller that finds a clear notifier waits for the answer, and one
      that finds it used up gets an error that counts as a failure. */
  function Answer(s: Sync): Option<bool> {
    if s.lastFields == 0 then Some(true)
    else match s.notifier
      case Clear => None
      case Rejected => Some(false)
      case Resolved => Some(true)
      case _ => Some(false)
  }

  // ---------- what silence means ----------

  /** An edit that calls nobody has not changed the delta. */
  lemma {:induction false} SilentSnapshot(m: Msg, e: Edit)
    requires Exact(m) && Quiet(m, e) && Apply(m, e).1.Silent?
    ensures Snapshot(Apply(m, e).0) == Snapshot(m)
    decreases e, 1
  {
    hide Exact, ExactSet, ApplyAll, WithElement, SnapSet, ApplyElement, QuietElement, QuietAll;
    match e {
      case SetField(k, v) =>
        if k < |m.slots| {
          SilentSlot(m, k, v);
        }
      case In(i, x) =>
        if i < |m.sets| {
          ListedPositive(m, i);
          SilentElement(m.sets[i], x);
          SilentSet(m, i, ApplyElement(m.sets[i], x).0);
        }
      case Atomic(i, es) =>
        if i < |m.sets| {
          ListedPositive(m, i);
          SilentAll(m.sets[i], es);
          SilentSet(m, i, ApplyAll(m.sets[i], es).0);
        }
      case Add(i, id, data, es) =>
        if i < |m.sets| {
          ListedPositive(m, i);
          WithElementExact(m.sets[i], id, data);
          SilentAll(WithElement(m.sets[i], id, data), es);
          WithElementSnap(m.sets[i], id, data);
          SilentSet(m, i, ApplyAll(WithElement(m.sets[i], id, data), es).0);
        }
    }
  }

  lemma {:induction false} SilentSlot(m: Msg, k: nat, v: Scalar)
    requires Exact(m) && k < |m.slots| && SetSlot(m, k, v).1.Silent?
    ensures Snapshot(SetSlot(m, k, v).0) == Snapshot(m)
  {
    hide ExactSet, SnapSet;
    assert SetSlot(m, k, v).0.slots == m.slots;
  }

  lemma {:induction false} SilentSet(m: Msg, i: nat, c: Coll)
    requires i < |m.sets| == |m.listed|
    requires SnapSet(c, c.listed) == SnapSet(m.sets[i], m.sets[i].listed)
    ensures Snapshot(m.(sets := m.sets[i := c])) == Snapshot(m)
  {
    hide SnapSet;
    assert Snapshot(m.(sets := m.sets[i := c])).slots == Snapshot(m).slots;
    assert Snapshot(m.(sets := m.sets[i := c])).sets == Snapshot(m).sets;
  }

  lemma {:induction false} SnapSetSame(c: Coll, d: Coll, ids: seq<int>)
    requires forall id :: id in ids ==> (id in c.elements <==> id in d.elements)
    requires forall id :: id in ids && id in c.elements ==> Snapshot(c.elements[id]) == Snapshot(d.elements[id])
    ensures SnapSet(c, ids) == SnapSet(d, ids)
    decreases |ids|
  {
    hide Snapshot;
    if ids != [] {
      assert ids[0] in ids;
      SnapSetSame(c, d, ids[1..]);
    }
  }

  lemma {:induction false} WithElementSnap(c: Coll, id: int, data: Plain)
    requires ExactSet(c) && id !in c.elements
    ensures WithElement(c, id, data).listed == c.listed
    ensures SnapSet(WithElement(c, id, data), c.listed) == SnapSet(c, c.listed)
  {
    hide Exact, Snapshot, Mounted, Distinct;
    SnapSetSame(WithElement(c, id, data), c, c.listed);
  }

  lemma {:induction false} SilentElement(c: Coll, x: ElementEdit)
    requires ExactSet(c) && QuietElement(c, x) && ApplyElement(c, x).1.Silent?
    ensures var c' := ApplyElement(c, x).0; SnapSet(c', c'.listed) == SnapSet(c, c.listed)
    decreases x, 2
  {
    hide Exact, Snapshot, Apply, Distinct, Quiet;
    if x.id in c.elements {
      ElementExact(c, x.id);
      SilentSnapshot(c.elements[x.id], x.edit);
      SnapSetSame(ApplyElement(c, x).0, c, c.listed);
    }
  }

  lemma {:induction false} SilentAll(c: Coll, es: seq<ElementEdit>)
    requires ExactSet(c) && QuietAll(c, es) && !ApplyAll(c, es).1
    ensures var c' := ApplyAll(c, es).0; SnapSet(c', c'.listed) == SnapSet(c, c.listed)
    decreases es, 0
  {
    hide ExactSet, ApplyElement, QuietElement, SnapSet;
    if es != [] {
      SilentElement(c, es[0]);
      ApplyElementExact(c, es[0]);
      SilentAll(ApplyElement(c, es[0]).0, es[1..]);
    }
  }

  // ---------- the invariant ----------

  /** Between two events at most one request is in flight, exactly while the loop runs; without later
      edits the request carries the whole current delta; the server holds the remote copy; the notifier
      of a running loop is unsettled; and what is unsaved while no loop runs is excused. */
  ghost predicate Inv(s: Sync) {
    && Exact(s.m) && s.server == Remote(s.m)
    && (s.handlerInProgress <==> s.inflight.Some?)
    && (s.inflight.Some? ==>
          && Fits(s.m, s.inflight.value)
          && (!s.updateWhileSave ==> s.inflight.value == Snapshot(s.m))
          && Settleable(s) && s.settled == 0)
    && (s.inflight.None? ==> s.m.fields > 0 ==> s.excused)
    && s.settled <= 1
  }

  /** The loop has been entered or resumed and has not looked at its flag yet. */
  ghost predicate Resuming(s: Sync) {
    && Exact(s.m) && s.server == Remote(s.m) && s.inflight.None?
    && s.settled <= 1
    && (s.updateWhileSave ==> s.m.fields > 0 ==> Settleable(s) && s.settled == 0)
    && (!s.updateWhileSave ==> s.m.fields > 0 ==> s.excused)
  }

  lemma ContinueInv(s: Sync)
    requires Resuming(s) && s.handlerInProgress
    ensures Inv(Continue(s))
    ensures !Continue(s).handlerInProgress ==> s.m.fields == 0 || !s.updateWhileSave
  {
    hide Exact, Fits, Snapshot, Remote;
    NonnegativeFields(s.m);
    SnapshotFits(s.m);
  }

  lemma StartInv(data: Plain)
    ensures Inv(Start(data))
  {
    hide Exact, Fits, Snapshot, Remote, Mounted;
    MountedExact(data);
    MountedClean(data);
  }

  /** A message that has just changed is reported: everything but the flag and the excuse holds. */
  ghost predicate Unreported(s: Sync) {
    && Exact(s.m) && s.server == Remote(s.m)
    && (s.handlerInProgress <==> s.inflight.Some?)
    && (s.inflight.Some? ==> Fits(s.m, s.inflight.value) && Settleable(s) && s.settled == 0)
    && s.settled <= 1
  }

  lemma NotifyInv(s: Sync)
    requires Unreported(s)
    ensures Inv(Notify(s, s.m.fields))
  {
    hide Exact, Fits, Snapshot, Remote, Continue;
    if !s.supressSave && !s.handlerInProgress && s.notifier != Awaiting {
      ContinueInv(s.(updateWhileSave := true, catchAllLastFields := s.m.fields, lastFields := s.m.fields,
        notifier := Clear,
                     handlerInProgress := true, settled := 0, excused := false));
    }
  }

  lemma {:induction false} EditInv(s: Sync, e: Edit)
    requires Inv(s) && Quiet(s.m, e)
    ensures Inv(OnEdit(s, e))
  {
    hide Exact, Fits, Snapshot, Remote, Apply, Quiet, Notify;
    ApplyExact(s.m, e);
    ApplyRemote(s.m, e);
    var (m, ev) := Apply(s.m, e);
    if s.inflight.Some? {
      ApplyFits(s.m, e, s.inflight.value);
    }
    if ev.Silent? {
      SilentSnapshot(s.m, e);
    } else {
      NotifyInv(s.(m := m, server := Grow(s.server, e)));
    }
  }

  ghost predicate QuietBlock(m: Msg, es: seq<Edit>)
    decreases |es|
  {
    es == [] || (Quiet(m, es[0]) && QuietBlock(Apply(m, es[0]).0, es[1..]))
  }

  lemma NotifyMessage(s: Sync, fields: int)
    ensures Notify(s, fields).m == s.m && Notify(s, fields).supressSave == s.supressSave
  {
    hide Snapshot;
  }

  lemma {:induction false} EditsInv(s: Sync, es: seq<Edit>)
    requires Inv(s) && QuietBlock(s.m, es)
    ensures Inv(OnEdits(s, es)) && OnEdits(s, es).supressSave == s.supressSave
    ensures s.supressSave && !CallsBack(s.m, es) ==>
      OnEdits(s, es).m.fields == s.m.fields && OnEdits(s, es).catchAllLastFields == s.catchAllLastFields
    ensures s.supressSave && CallsBack(s.m, es) ==> OnEdits(s, es).catchAllLastFields == OnEdits(s, es).m.fields
    decreases |es|
  {
    hide Inv, Apply, Quiet, OnEdit;
    if es != [] {
      EditInv(s, es[0]);
      EditStep(s, es[0]);
      EditsInv(OnEdit(s, es[0]), es[1..]);
    }
  }

  lemma {:induction false} EditStep(s: Sync, e: Edit)
    requires Inv(s) && Quiet(s.m, e)
    ensures OnEdit(s, e).m == Apply(s.m, e).0 && OnEdit(s, e).supressSave == s.supressSave
    ensures s.supressSave && Apply(s.m, e).1.Changed? ==> OnEdit(s, e).catchAllLastFields == OnEdit(s, e).m.fields
    ensures s.supressSave && Apply(s.m, e).1.Silent? ==>
      OnEdit(s, e).m.fields == s.m.fields && OnEdit(s, e).catchAllLastFields == s.catchAllLastFields
  {
    hide Apply, Quiet, Exact, Fits, Snapshot, Remote, Continue;
    ApplyExact(s.m, e);
    var (m, ev) := Apply(s.m, e);
    if ev.Changed? {
      NotifyMessage(s.(m := m, server := Grow(s.server, e)), ev.fields);
    }
  }

  lemma {:induction false} BlockInv(s: Sync, es: seq<Edit>)
    requires Inv(s) && QuietBlock(s.m, es)
    ensures Inv(OnBlock(s, es))
  {
    hide Exact, Fits, Snapshot, Remote, Notify, OnEdits;
    if s.supressSave {
      EditsInv(s, es);
    } else {
      var s0 := s.(supressSave := true);
      EditsInv(s0, es);
      SuppressedEdits(s0, es);
      if CallsBack(s.m, es) {
        NotifyInv(OnEdits(s0, es).(supressSave := false, excused := s.excused));
      }
    }
  }

  /** A successful response: the commit writes into the remote copy exactly what the server has applied. */
  lemma RespondOk(s: Sync)
    requires Inv(s) && s.inflight.Some?
    ensures Inv(Respond(s, true))
    ensures !Respond(s, true).handlerInProgress ==> Respond(s, true).m.fields == 0
  {
    hide Exact, Fits, Snapshot, Remote, Commit, Overlay, Continue;
    var d := s.inflight.value;
    CommitExact(s.m, d);
    var (m, ev) := Commit(s.m, d);
    if !s.updateWhileSave {
      CommitOfSnapshot(s.m);
    }
    NonnegativeFields(s.m);
    var s2 := s.(inflight := None, server := Overlay(s.server, d));
    var s3 := if s.updateWhileSave then s2 else Settle(s2.(lastFields := 0), Resolved);
    var s4 := NotifyEvent(s3.(m := m), ev);
    CommitReported(s3.(m := m), ev);
    assert Resuming(s4) && s4.m == m && (s4.updateWhileSave || m.fields == 0);
    ContinueInv(s4);
    ContinueMessage(s4);
  }

  lemma ContinueMessage(s: Sync)
    ensures Continue(s).m == s.m && Continue(s).server == s.server && Continue(s).notifier == s.notifier
    ensures Continue(s).told == s.told
  {
    hide Snapshot;
  }

  /** While the loop runs a report only raises its flag. */
  lemma CommitReported(s: Sync, ev: Event)
    requires s.handlerInProgress
    ensures var t := NotifyEvent(s, ev);
      && t.m == s.m && t.server == s.server && t.inflight == s.inflight && t.handlerInProgress
      && t.notifier == s.notifier && t.settled == s.settled
      && (t.updateWhileSave <==> ev.Changed? || s.updateWhileSave)
      && (!s.supressSave ==> t.excused == s.excused) && (s.excused ==> t.excused)
  {
    hide Continue;
  }

  /** A failed response: nothing is lost, and the loop ends only if nothing else has changed. */
  lemma RespondFailed(s: Sync)
    requires Inv(s) && s.inflight.Some?
    ensures Inv(Respond(s, false))
    ensures Respond(s, false).m == s.m && Respond(s, false).server == s.server
    ensures !Respond(s, false).handlerInProgress ==> s.m.fields == 0 || !s.updateWhileSave
  {
    hide Exact, Fits, Snapshot, Remote, Continue;
    var s1 := s.(inflight := None);
    var s2 := if s.updateWhileSave then s1 else Settle(s1.(excused := true), Rejected);
    ContinueInv(s2);
    ContinueMessage(s2);
  }

  lemma WaitInv(s: Sync)
    requires Inv(s)
    ensures Inv(OnWait(s))
  {
    hide Exact, Fits, Snapshot, Remote;
  }

  // ---------- whole runs ----------

  datatype Action = DoEdit(edit: Edit) | DoBlock(edits: seq<Edit>) | Response(ok: bool) | Wait | SetSupress(on: bool)

  ghost predicate Enabled(s: Sync, a: Action) {
    match a
    case DoEdit(e) => Quiet(s.m, e)
    case DoBlock(es) => QuietBlock(s.m, es)
    case Response(_) => s.inflight.Some? && Settleable(s)
    case Wait => true
    case SetSupress(_) => true
  }

  ghost function Next(s: Sync, a: Action): Sync
    requires Enabled(s, a)
  {
    match a
    case DoEdit(e) => OnEdit(s, e)
    case DoBlock(es) => OnBlock(s, es)
    case Response(ok) => Respond(s, ok)
    case Wait => OnWait(s)
    case SetSupress(on) => s.(supressSave := on)
  }

  ghost predicate Runs(s: Sync, actions: seq<Action>)
    decreases |actions|
  {
    actions == [] || (Enabled(s, actions[0]) && Runs(Next(s, actions[0]), actions[1..]))
  }

  ghost function After(s: Sync, actions: seq<Action>): Sync
    requires Runs(s, actions)
    decreases |actions|
  {
    if actions == [] then s else After(Next(s, actions[0]), actions[1..])
  }

  lemma StepInv(s: Sync, a: Action)
    requires Inv(s) && Enabled(s, a)
    ensures Inv(Next(s, a))
  {
    hide Quiet, QuietBlock, OnEdit, OnBlock, OnWait, Respond, Exact, Fits, Snapshot, Remote;
    match a {
      case DoEdit(e) => EditInv(s, e);
      case DoBlock(es) => BlockInv(s, es);
      case Response(ok) =>
        if ok {
          RespondOk(s);
        } else {
          RespondFailed(s);
        }
      case Wait => WaitInv(s);
      case SetSupress(on) =>
    }
  }

  lemma {:induction false} RunInv(s: Sync, actions: seq<Action>)
    requires Inv(s) && Runs(s, actions)
    ensures Inv(After(s, actions))
    decreases |actions|
  {
    hide Inv, Enabled, Next;
    if actions != [] {
      StepInv(s, actions[0]);
      RunInv(Next(s, actions[0]), actions[1..]);
    }
  }

  /** Save-loop safety over every interleaving of edits, blocks, responses and waits: the server always
      holds the remote copy, a response never finds a notifier it cannot settle, the loop has settled its
      notifier at most once, and when no loop runs and nothing excuses it the server holds the local copy. */
  lemma {:induction false} SaveLoopSafety(data: Plain, actions: seq<Action>)
    requires Runs(Start(data), actions)
    ensures var s := After(Start(data), actions);
      && s.server == Remote(s.m)
      && (s.inflight.Some? ==> s.handlerInProgress && Settleable(s))
      && s.settled <= 1
      && (!s.handlerInProgress && !s.excused ==> s.server == Local(s.m))
      && (s.inflight.Some? && !s.updateWhileSave ==> Overlay(s.server, s.inflight.value) == Local(s.m))
  {
    hide Runs, After, Exact, Fits, Snapshot, Remote, Local, Overlay;
    StartInv(data);
    RunInv(Start(data), actions);
    var s := After(Start(data), actions);
    CleanIff(s.m);
    SnapshotIsDifference(s.m);
  }

  // ---------- a waiter that nobody wakes ----------

  /** No loop runs and the notifier is still awaited: clearing it throws, so no loop can start. */
  predicate Stuck(s: Sync) {
    !s.handlerInProgress && s.inflight.None? && s.notifier == Awaiting
  }

  /** An unsuppressed change of an idle document is sent iff the notifier is not awaited. */
  lemma {:induction false} EditStartsSave(s: Sync, e: Edit)
    requires Inv(s) && Quiet(s.m, e) && !s.handlerInProgress && !s.supressSave
    requires Apply(s.m, e).1.Changed? && Apply(s.m, e).0.fields > 0
    ensures OnEdit(s, e).inflight.Some? <==> s.notifier != Awaiting
  {
    hide Exact, Fits, Snapshot, Remote, Apply, Quiet;
  }

  lemma RespondStuck(s: Sync, ok: bool)
    requires Inv(s) && s.inflight.Some?
    ensures Stuck(Respond(s, ok)) <==> s.notifier == Awaiting && s.updateWhileSave && Respond(s, ok).m.fields == 0
    ensures Respond(s, ok).m == if ok then Commit(s.m, s.inflight.value).0 else s.m
  {
    hide Exact, Fits, Snapshot, Remote, Commit, Overlay;
    var d := s.inflight.value;
    var (m, ev) := Commit(s.m, d);
    if ok {
      CommitReported(s.(inflight := None, server := Overlay(s.server, d), m := m), ev);
    }
  }

  /** A response leaves a waiter behind iff a notifier is awaited and edits made during the request have
      brought the local copy to where the response leaves the remote one. */
  lemma LeavesWaiterIff(s: Sync, ok: bool)
    requires Inv(s) && s.inflight.Some?
    ensures Stuck(Respond(s, ok)) <==>
      && s.notifier == Awaiting && s.updateWhileSave
      && Local(s.m) == if ok then Overlay(Remote(s.m), s.inflight.value) else Remote(s.m)
  {
    hide Exact, Fits, Snapshot, Remote, Local, Commit, Overlay, Respond, Stuck;
    RespondStuck(s, ok);
    CommitExact(s.m, s.inflight.value);
    CleanIff(if ok then Commit(s.m, s.inflight.value).0 else s.m);
  }

  /** The steps that leave a waiter behind, by what is known before them: a response as above, or a wait
      while no loop runs and the last reported change is still unsaved. */
  ghost predicate LeavesWaiter(s: Sync, a: Action)
    requires Enabled(s, a)
  {
    match a
    case Response(ok) =>
      && s.notifier == Awaiting && s.updateWhileSave
      && Local(s.m) == if ok then Overlay(Remote(s.m), s.inflight.value) else Remote(s.m)
    case Wait => !s.handlerInProgress && s.lastFields != 0 && s.notifier == Clear
    case _ => false
  }

  /** Of all steps exactly these make a loop stuck that was not. */
  lemma BecomesStuckIff(s: Sync, a: Action)
    requires Inv(s) && Enabled(s, a) && !Stuck(s)
    ensures Stuck(Next(s, a)) <==> LeavesWaiter(s, a)
  {
    hide Exact, Fits, Snapshot, Remote, Local, Commit, Overlay, Respond, Quiet, QuietBlock, OnEdits, OnEdit, Notify;
    match a {
      case DoEdit(e) => NotStuckEdit(s, e);
      case DoBlock(es) => NotStuckBlock(s, es);
      case Response(ok) => LeavesWaiterIff(s, ok);
      case _ =>
    }
  }

  lemma NotifyNotStuck(s: Sync, fields: int)
    requires !Stuck(s) && (s.handlerInProgress <==> s.inflight.Some?)
    ensures !Stuck(Notify(s, fields))
  {
    hide Snapshot;
  }

  lemma NotStuckEdit(s: Sync, e: Edit)
    requires !Stuck(s) && (s.handlerInProgress <==> s.inflight.Some?)
    ensures !Stuck(OnEdit(s, e))
  {
    hide Apply, Notify;
    var (m, ev) := Apply(s.m, e);
    if ev.Changed? {
      NotifyNotStuck(s.(m := m, server := Grow(s.server, e)), ev.fields);
    }
  }

  /** While saving is suppressed edits only raise the flag and note the counter. */
  lemma {:induction false} SuppressedEdits(s: Sync, es: seq<Edit>)
    requires s.supressSave
    ensures var t := OnEdits(s, es);
      && t.handlerInProgress == s.handlerInProgress && t.inflight == s.inflight && t.notifier == s.notifier
      && t.lastFields == s.lastFields && t.supressSave
           && (!CallsBack(s.m, es) ==> t.updateWhileSave == s.updateWhileSave)
    decreases |es|
  {
    hide Apply;
    if es != [] {
      SuppressedEdits(OnEdit(s, es[0]), es[1..]);
    }
  }

  lemma NotStuckBlock(s: Sync, es: seq<Edit>)
    requires !Stuck(s) && (s.handlerInProgress <==> s.inflight.Some?)
    ensures !Stuck(OnBlock(s, es))
  {
    hide Apply, Notify, OnEdits;
    SuppressedEdits(s.(supressSave := true), es);
    if s.supressSave {
      SuppressedEdits(s, es);
    } else if CallsBack(s.m, es) {
      var s' := OnEdits(s.(supressSave := true), es).(supressSave := false, excused := s.excused);
      NotifyNotStuck(s', s'.catchAllLastFields);
    }
  }

  // ---------- the pages switch saving on once ----------

  /** The counter that `synchronize` looks at is that of the last report while a loop has yet to see it,
      and zero when no loop runs and the notifier has not been settled. */
  ghost predicate Tidy(s: Sync) {
    && (s.supressSave ==> !s.handlerInProgress && s.lastFields == 0)
    && (!s.handlerInProgress && s.notifier == Clear ==> s.lastFields == 0)
    && (s.handlerInProgress && s.updateWhileSave ==> s.lastFields == s.m.fields)
  }

  lemma NotifyTidy(s: Sync)
    requires (s.supressSave ==> Tidy(s)) && (s.handlerInProgress ==> s.inflight.Some?)
    ensures Tidy(Notify(s, s.m.fields))
  {
    hide Snapshot, Exact;
  }

  lemma {:induction false} EditTidy(s: Sync, e: Edit)
    requires Inv(s) && Tidy(s) && Quiet(s.m, e)
    ensures Tidy(OnEdit(s, e))
  {
    hide Exact, Fits, Snapshot, Remote, Apply, Quiet, Notify;
    ApplyExact(s.m, e);
    var (m, ev) := Apply(s.m, e);
    if ev.Changed? {
      NotifyTidy(s.(m := m, server := Grow(s.server, e)));
    }
  }

  lemma {:induction false} BlockTidy(s: Sync, es: seq<Edit>)
    requires Inv(s) && Tidy(s) && QuietBlock(s.m, es)
    ensures Tidy(OnBlock(s, es))
  {
    hide Exact, Fits, Snapshot, Remote, Notify, OnEdits, CallsBack, Quiet, QuietBlock;
    if s.supressSave {
      SuppressedEdits(s, es);
    } else {
      var s0 := s.(supressSave := true);
      EditsInv(s0, es);
      SuppressedEdits(s0, es);
      if CallsBack(s.m, es) {
        NotifyTidy(OnEdits(s0, es).(supressSave := false, excused := s.excused));
      }
    }
  }

  lemma ContinueTidy(s: Sync)
    requires s.handlerInProgress && !s.supressSave
    requires s.updateWhileSave ==> s.lastFields == s.m.fields
    requires !s.updateWhileSave && s.notifier == Clear ==> s.lastFields == 0
    ensures Tidy(Continue(s))
  {
    hide Snapshot;
  }

  lemma TidyRunning(s: Sync)
    requires Tidy(s) && s.handlerInProgress
    ensures !s.supressSave && (s.updateWhileSave ==> s.lastFields == s.m.fields)
  {
  }

  lemma RespondTidy(s: Sync, ok: bool)
    requires Inv(s) && Tidy(s) && s.inflight.Some?
    ensures Tidy(Respond(s, ok))
  {
    hide Exact, Fits, Snapshot, Remote, Commit, Overlay, Continue, Tidy;
    TidyRunning(s);
    var s1 := s.(inflight := None);
    if ok {
      var d := s.inflight.value;
      CommitExact(s.m, d);
      var (m, ev) := Commit(s.m, d);
      var s2 := s1.(server := Overlay(s.server, d));
      var s3 := if s.updateWhileSave then s2 else Settle(s2.(lastFields := 0), Resolved);
      CommitReported(s3.(m := m), ev);
      ContinueTidy(NotifyEvent(s3.(m := m), ev));
    } else {
      ContinueTidy(if s.updateWhileSave then s1 else Settle(s1.(excused := true), Rejected));
    }
  }

  lemma StepTidy(s: Sync, a: Action)
    requires Inv(s) && Tidy(s) && Enabled(s, a) && a != SetSupress(true)
    ensures Tidy(Next(s, a))
  {
    hide Quiet, QuietBlock, OnEdit, OnBlock, Respond, Exact, Fits, Snapshot, Remote;
    match a {
      case DoEdit(e) => EditTidy(s, e);
      case DoBlock(es) => BlockTidy(s, es);
      case Response(ok) => RespondTidy(s, ok);
      case _ =>
    }
  }

  lemma {:induction false} RunTidy(s: Sync, actions: seq<Action>)
    requires Inv(s) && Tidy(s) && Runs(s, actions) && SetSupress(true) !in actions
    ensures Tidy(After(s, actions))
    decreases |actions|
  {
    hide Inv, Tidy, Enabled, Next;
    if actions != [] {
      StepInv(s, actions[0]);
      StepTidy(s, actions[0]);
      RunTidy(Next(s, actions[0]), actions[1..]);
    }
  }

  /** On a page that never suppresses saving again a waiter is only ever left behind by a response. */
  lemma {:induction false} OnlyResponses(data: Plain, actions: seq<Action>, a: Action)
    requires Runs(Start(data), actions) && SetSupress(true) !in actions
    requires var s := After(Start(data), actions); Enabled(s, a) && !Stuck(s) && Stuck(Next(s, a))
    ensures a.Response? && LeavesWaiter(After(Start(data), actions), a)
  {
    hide Inv, Stuck, Enabled, Next, Runs, After;
    StartInv(data);
    RunInv(Start(data), actions);
    RunTidy(Start(data), actions);
    BecomesStuckIff(After(Start(data), actions), a);
  }

  // ---------- what callers of `synchronize` are told ----------

  /** The step reports a change while saving is not suppressed. */
  predicate Reports(s: Sync, a: Action) {
    !s.supressSave && match a
                      case DoEdit(e) => Apply(s.m, e).1.Changed?
                      case DoBlock(es) => CallsBack(s.m, es)
                      case _ => false
  }

  ghost predicate Reported(s: Sync, actions: seq<Action>)
    requires Runs(s, actions)
    decreases |actions|
  {
    actions != [] && (Reports(s, actions[0]) || Reported(Next(s, actions[0]), actions[1..]))
  }

  /** From the first report on, the counter that `synchronize` looks at is that of the document; no loop
      leaves a resolved notifier with a change unsaved, nor a clear one; and a request that will settle the
      notifier carries a change. */
  ghost predicate Telling(s: Sync, reported: bool) {
    && (!reported ==> !s.handlerInProgress && s.lastFields == 0 && s.notifier == Clear)
    && (reported ==> !s.supressSave && s.lastFields == s.m.fields)
    && (s.notifier == Resolved ==> !s.handlerInProgress && s.lastFields == 0)
    && (!s.handlerInProgress && s.notifier == Clear ==> s.lastFields == 0)
    && (s.inflight.Some? && !s.updateWhileSave ==> s.m.fields > 0)
  }

  lemma ContinueTelling(s: Sync)
    requires s.handlerInProgress && s.inflight.None? && !s.supressSave && s.lastFields == s.m.fields >= 0
    requires s.notifier == Resolved || (!s.updateWhileSave && s.notifier == Clear) ==> s.m.fields == 0
    ensures Telling(Continue(s), true)
  {
    hide Snapshot;
  }

  lemma NotifyTelling(s: Sync, reported: bool)
    requires s.m.fields >= 0 && (s.handlerInProgress <==> s.inflight.Some?)
    requires s.supressSave ==> !reported && Telling(s, false)
    requires s.handlerInProgress ==> s.notifier != Resolved
    ensures Telling(Notify(s, s.m.fields), reported || !s.supressSave)
  {
    hide Continue;
    if !s.supressSave && !s.handlerInProgress && s.notifier != Awaiting {
      ContinueTelling(s.(updateWhileSave := true, catchAllLastFields := s.m.fields, lastFields := s.m.fields,
                         notifier := Clear, handlerInProgress := true, settled := 0, excused := false));
    }
  }

  lemma {:induction false} EditTelling(s: Sync, e: Edit, reported: bool)
    requires Inv(s) && Telling(s, reported) && Quiet(s.m, e)
    ensures Telling(OnEdit(s, e), reported || Reports(s, DoEdit(e)))
  {
    hide Exact, Fits, Snapshot, Remote, Apply, Quiet, Notify;
    ApplyExact(s.m, e);
    var (m, ev) := Apply(s.m, e);
    NonnegativeFields(m);
    if ev.Changed? {
      NotifyTelling(s.(m := m, server := Grow(s.server, e)), reported);
    }
  }

  lemma {:induction false} BlockTelling(s: Sync, es: seq<Edit>, reported: bool)
    requires Inv(s) && Telling(s, reported) && QuietBlock(s.m, es)
    ensures Telling(OnBlock(s, es), reported || Reports(s, DoBlock(es)))
  {
    hide Exact, Fits, Snapshot, Remote, Notify, OnEdits, CallsBack, Quiet, QuietBlock;
    if s.supressSave {
      SuppressedEdits(s, es);
    } else {
      var s0 := s.(supressSave := true);
      EditsInv(s0, es);
      SuppressedEdits(s0, es);
      var s1 := OnEdits(s0, es).(supressSave := false, excused := s.excused);
      NonnegativeFields(s1.m);
      if CallsBack(s.m, es) {
        NotifyTelling(s1, reported);
      }
    }
  }

  lemma RespondTelling(s: Sync, ok: bool, reported: bool)
    requires Inv(s) && Telling(s, reported) && s.inflight.Some?
    ensures reported && Telling(Respond(s, ok), reported)
  {
    hide Exact, Fits, Snapshot, Remote, Commit, Overlay, Continue;
    var s1 := s.(inflight := None);
    NonnegativeFields(s.m);
    if ok {
      var d := s.inflight.value;
      CommitExact(s.m, d);
      if !s.updateWhileSave {
        CommitOfSnapshot(s.m);
      }
      var (m, ev) := Commit(s.m, d);
      NonnegativeFields(m);
      var s2 := s1.(server := Overlay(s.server, d));
      var s3 := if s.updateWhileSave then s2 else Settle(s2.(lastFields := 0), Resolved);
      CommitReported(s3.(m := m), ev);
      CommitCounted(s3.(m := m), ev);
      ContinueTelling(NotifyEvent(s3.(m := m), ev));
    } else {
      ContinueTelling(if s.updateWhileSave then s1 else Settle(s1.(excused := true), Rejected));
    }
  }

  lemma CommitCounted(s: Sync, ev: Event)
    requires s.handlerInProgress && !s.supressSave
    ensures var t := NotifyEvent(s, ev);
      t.lastFields == (if ev.Changed? then ev.fields else s.lastFields) && !t.supressSave
  {
  }

  lemma StepTelling(s: Sync, a: Action, reported: bool)
    requires Inv(s) && Telling(s, reported) && Enabled(s, a) && a != SetSupress(true)
    ensures Telling(Next(s, a), reported || Reports(s, a))
  {
    hide Quiet, QuietBlock, OnEdit, OnBlock, Respond, Exact, Fits, Snapshot, Remote;
    match a {
      case DoEdit(e) => EditTelling(s, e, reported);
      case DoBlock(es) => BlockTelling(s, es, reported);
      case Response(ok) => RespondTelling(s, ok, reported);
      case _ =>
    }
  }

  lemma {:induction false} RunTelling(s: Sync, actions: seq<Action>, reported: bool)
    requires Inv(s) && Telling(s, reported) && Runs(s, actions) && SetSupress(true) !in actions
    ensures Telling(After(s, actions), reported || Reported(s, actions))
    decreases |actions|
  {
    hide Inv, Telling, Enabled, Next, Reports;
    if actions != [] {
      StepInv(s, actions[0]);
      StepTelling(s, actions[0], reported);
      RunTelling(Next(s, actions[0]), actions[1..], reported || Reports(s, actions[0]));
    }
  }

  lemma StartTelling(data: Plain)
    ensures Telling(Start(data), false)
  {
    hide Mounted;
  }

  /**
   * While no loop runs, `synchronize` answers at once, and the answer is true iff the server holds the local
   * copy or nothing has been reported since the page began: edits made before saving is switched on are
   * nobody's change.
   */
  lemma {:induction false} AnswersIff(data: Plain, actions: seq<Action>)
    requires Runs(Start(data), actions) && SetSupress(true) !in actions
    ensures var s := After(Start(data), actions);
      !s.handlerInProgress ==>
        && Answer(s).Some?
        && (Answer(s).value <==> s.server == Local(s.m) || !Reported(Start(data), actions))
  {
    hide Runs, After, Reported, Exact, Fits, Snapshot, Remote, Local, Mounted;
    StartInv(data);
    StartTelling(data);
    RunInv(Start(data), actions);
    RunTelling(Start(data), actions, false);
    CleanIff(After(Start(data), actions).m);
  }

  /** Once a change was reported, the page may be left without asking, at any time, iff the server holds the
      local copy. */
  lemma {:induction false} SynchronizedIff(data: Plain, actions: seq<Action>)
    requires Runs(Start(data), actions) && SetSupress(true) !in actions
    requires Reported(Start(data), actions)
    ensures var s := After(Start(data), actions); s.lastFields == 0 <==> s.server == Local(s.m)
  {
    hide Runs, After, Reported, Exact, Fits, Snapshot, Remote, Local, Mounted;
    StartInv(data);
    StartTelling(data);
    RunInv(Start(data), actions);
    RunTelling(Start(data), actions, false);
    CleanIff(After(Start(data), actions).m);
  }

  /** After a failed save without later edits no loop runs, the server lacks the changes and the answer is
      false; so is what a caller that waited for it is told. */
  lemma {:induction false} FailedSave(data: Plain, actions: seq<Action>)
    requires Runs(Start(data), actions) && SetSupress(true) !in actions
    requires var s := After(Start(data), actions); s.inflight.Some? && Settleable(s) && !s.updateWhileSave
    ensures var s := After(Start(data), actions);
      var t := Next(s, Response(false));
      && !t.handlerInProgress && t.server != Local(t.m) && Answer(t) == Some(false)
      && (s.notifier == Awaiting ==> t.told == Some(false))
  {
    hide Runs, After, Reported, Exact, Fits, Snapshot, Remote, Local, Mounted;
    StartInv(data);
    StartTelling(data);
    RunInv(Start(data), actions);
    RunTelling(Start(data), actions, false);
    CleanIff(After(Start(data), actions).m);
  }

  /** A caller that waits is only ever told by a response, and is told true iff the server then holds the
      local copy: true of a save that succeeded and false of one that failed. */
  lemma {:induction false} WaiterTold(data: Plain, actions: seq<Action>, a: Action)
    requires Runs(Start(data), actions) && SetSupress(true) !in actions && a != SetSupress(true)
    requires var s := After(Start(data), actions); Enabled(s, a) && s.notifier == Awaiting
    ensures var s := After(Start(data), actions);
      var t := Next(s, a);
      t.notifier != Awaiting ==> a.Response? && t.told == Some(a.ok) && (a.ok <==> t.server == Local(t.m))
  {
    var s := After(Start(data), actions);
    StartInv(data);
    StartTelling(data);
    RunInv(Start(data), actions);
    RunTelling(Start(data), actions, false);
    hide Runs, After, Reported, Mounted, Next;
    StepTold(s, a, Reported(Start(data), actions));
  }

  lemma StepTold(s: Sync, a: Action, reported: bool)
    requires Inv(s) && Telling(s, reported) && Enabled(s, a) && s.notifier == Awaiting
    ensures var t := Next(s, a);
      t.notifier != Awaiting ==> a.Response? && t.told == Some(a.ok) && (a.ok <==> t.server == Local(t.m))
  {
    hide Exact, Fits, Snapshot, Remote, Local, Commit, Overlay, Respond, Quiet, QuietBlock, OnEdits, OnEdit, Notify;
    match a {
      case DoEdit(e) => AwaitingEdit(s, e);
      case DoBlock(es) => AwaitingBlock(s, es);
      case Response(ok) => ResponseTold(s, ok);
      case _ =>
    }
  }

  lemma AwaitingNotify(s: Sync, fields: int)
    requires s.notifier == Awaiting
    ensures Notify(s, fields).notifier == Awaiting
  {
    hide Continue;
  }

  lemma AwaitingEdit(s: Sync, e: Edit)
    requires s.notifier == Awaiting
    ensures OnEdit(s, e).notifier == Awaiting
  {
    hide Apply, Notify;
    var (m, ev) := Apply(s.m, e);
    AwaitingNotify(s.(m := m, server := Grow(s.server, e)), if ev.Changed? then ev.fields else 0);
  }

  lemma AwaitingBlock(s: Sync, es: seq<Edit>)
    requires s.notifier == Awaiting
    ensures OnBlock(s, es).notifier == Awaiting
  {
    hide Apply, Notify, OnEdits, CallsBack;
    SuppressedEdits(s.(supressSave := true), es);
    if s.supressSave {
      SuppressedEdits(s, es);
    } else {
      var s' := OnEdits(s.(supressSave := true), es).(supressSave := false, excused := s.excused);
      AwaitingNotify(s', s'.catchAllLastFields);
    }
  }

  lemma ResponseTold(s: Sync, ok: bool)
    requires Inv(s) && s.inflight.Some? && s.notifier == Awaiting && (!s.updateWhileSave ==> s.m.fields > 0)
    ensures var t := Respond(s, ok);
      t.notifier != Awaiting ==> t.told == Some(ok) && (ok <==> t.server == Local(t.m))
  {
    hide Exact, Fits, Snapshot, Remote, Local, Commit, Overlay, Continue;
    var s1 := s.(inflight := None);
    CleanIff(s.m);
    if ok {
      var d := s.inflight.value;
      CommitExact(s.m, d);
      var (m, ev) := Commit(s.m, d);
      CleanIff(m);
      if !s.updateWhileSave {
        CommitOfSnapshot(s.m);
      }
      var s2 := s1.(server := Overlay(s.server, d));
      var s3 := if s.updateWhileSave then s2 else Settle(s2.(lastFields := 0), Resolved);
      CommitReported(s3.(m := m), ev);
      ReportTells(s3.(m := m), ev);
      ContinueMessage(NotifyEvent(s3.(m := m), ev));
    } else {
      ContinueMessage(if s.updateWhileSave then s1 else Settle(s1.(excused := true), Rejected));
    }
  }

  lemma ReportTells(s: Sync, ev: Event)
    requires s.handlerInProgress
    ensures NotifyEvent(s, ev).told == s.told
  {
    hide Continue;
  }

  // ---------- when everything is saved ----------

  /** Without failed saves only a waiter that was left behind keeps a loop from ending with all changes saved. */
  predicate Unfailed(s: Sync) {
    s.notifier != Rejected && (!s.handlerInProgress && s.notifier == Fulfilled ==> s.lastFields == 0)
  }

  lemma NotifyUnfailed(s: Sync, fields: int)
    requires Unfailed(s) && !s.supressSave && (s.handlerInProgress ==> Settleable(s))
    ensures Unfailed(Notify(s, fields))
  {
    hide Snapshot;
  }

  lemma {:induction false} EditUnfailed(s: Sync, e: Edit)
    requires Inv(s) && Unfailed(s) && Quiet(s.m, e)
    ensures Unfailed(OnEdit(s, e))
  {
    hide Apply, Exact, Fits, Snapshot, Remote, Quiet, Continue;
    var (m, ev) := Apply(s.m, e);
    if ev.Changed? && !s.supressSave {
      ContinueMessage(s);
      NotifyUnfailed(s.(m := m, server := Grow(s.server, e)), ev.fields);
    }
  }

  lemma {:induction false} BlockUnfailed(s: Sync, es: seq<Edit>)
    requires Inv(s) && Unfailed(s) && QuietBlock(s.m, es)
    ensures Unfailed(OnBlock(s, es))
  {
    hide Exact, Fits, Snapshot, Remote, Notify, OnEdits, CallsBack, Quiet, QuietBlock;
    if s.supressSave {
      SuppressedEdits(s, es);
    } else {
      var s0 := s.(supressSave := true);
      SuppressedEdits(s0, es);
      var s1 := OnEdits(s0, es).(supressSave := false, excused := s.excused);
      if CallsBack(s.m, es) {
        NotifyUnfailed(s1, s1.catchAllLastFields);
      }
    }
  }

  lemma SavedUnfailed(s: Sync)
    requires Inv(s) && Unfailed(s) && s.inflight.Some? && !s.supressSave
    ensures Unfailed(Respond(s, true))
  {
    hide Exact, Fits, Snapshot, Remote, Commit, Overlay, Continue;
    var d := s.inflight.value;
    CommitExact(s.m, d);
    if !s.updateWhileSave {
      CommitOfSnapshot(s.m);
    }
    var (m, ev) := Commit(s.m, d);
    var s2 := s.(inflight := None, server := Overlay(s.server, d));
    var s3 := if s.updateWhileSave then s2 else Settle(s2.(lastFields := 0), Resolved);
    CommitReported(s3.(m := m), ev);
    CommitCounted(s3.(m := m), ev);
    ContinueSettled(NotifyEvent(s3.(m := m), ev));
  }

  lemma ContinueSettled(s: Sync)
    ensures Continue(s).notifier == s.notifier && Continue(s).lastFields == s.lastFields
  {
    hide Snapshot;
  }

  lemma StepUnfailed(s: Sync, a: Action, reported: bool)
    requires Inv(s) && Telling(s, reported) && Unfailed(s) && Enabled(s, a)
    requires a != SetSupress(true) && a != Response(false)
    ensures Unfailed(Next(s, a))
  {
    hide Quiet, QuietBlock, OnEdit, OnBlock, Respond, Exact, Fits, Snapshot, Remote;
    match a {
      case DoEdit(e) => EditUnfailed(s, e);
      case DoBlock(es) => BlockUnfailed(s, es);
      case Response(ok) => SavedUnfailed(s);
      case _ =>
    }
  }

  lemma {:induction false} RunUnfailed(s: Sync, actions: seq<Action>, reported: bool)
    requires Inv(s) && Telling(s, reported) && Unfailed(s) && Runs(s, actions)
    requires SetSupress(true) !in actions && Response(false) !in actions
    ensures Unfailed(After(s, actions))
    decreases |actions|
  {
    hide Inv, Telling, Unfailed, Enabled, Next, Reports;
    if actions != [] {
      StepInv(s, actions[0]);
      StepTelling(s, actions[0], reported);
      StepUnfailed(s, actions[0], reported);
      RunUnfailed(Next(s, actions[0]), actions[1..], reported || Reports(s, actions[0]));
    }
  }

  /** When no save has failed, every loop that has ended without leaving a waiter behind has saved all changes. */
  lemma {:induction false} SavedUnlessFailed(data: Plain, actions: seq<Action>)
    requires Runs(Start(data), actions) && SetSupress(true) !in actions && Response(false) !in actions
    requires Reported(Start(data), actions)
    ensures var s := After(Start(data), actions);
      s.handlerInProgress || s.notifier == Awaiting || s.server == Local(s.m)
  {
    hide Runs, After, Reported, Exact, Fits, Snapshot, Remote, Local, Mounted;
    StartInv(data);
    StartTelling(data);
    RunInv(Start(data), actions);
    RunTelling(Start(data), actions, false);
    RunUnfailed(Start(data), actions, false);
    CleanIff(After(Start(data), actions).m);
  }

  lemma {:induction false} StuckBlock(s: Sync, es: seq<Edit>)
    requires Stuck(s)
    ensures Stuck(OnEdits(s, es)) && Stuck(OnBlock(s, es))
    decreases |es|
  {
    StuckEdits(s, es);
    StuckEdits(s.(supressSave := true), es);
    hide Apply, Snapshot, OnEdits;
  }

  lemma {:induction false} StuckEdits(s: Sync, es: seq<Edit>)
    requires Stuck(s)
    ensures Stuck(OnEdits(s, es))
    decreases |es|
  {
    hide Apply, Snapshot;
    if es != [] {
      StuckEdits(OnEdit(s, es[0]), es[1..]);
    }
  }

  /** From then on nothing is ever sent again, whatever the page does. */
  lemma {:induction false} StuckForever(s: Sync, actions: seq<Action>)
    requires Stuck(s) && Runs(s, actions)
    ensures Stuck(After(s, actions))
    decreases |actions|
  {
    if actions != [] {
      var a := actions[0];
      assert Stuck(Next(s, a)) by {
        hide Apply, Snapshot, Runs, After, OnBlock, Quiet, QuietBlock;
        if a.DoBlock? {
          StuckBlock(s, a.edits);
        }
      }
      StuckForever(Next(s, a), actions[1..]);
    }
  }

  /** Such a run exists: change a field, wait for the save, change it back, and let the request fail. */
  lemma StuckReachable(a: Scalar, b: Scalar)
    requires a != b
    ensures
      var actions := [SetSupress(false), DoEdit(SetField(0, b)), Wait, DoEdit(SetField(0, a)), Response(false)];
      Runs(Start(Plain([a], [])), actions) && Stuck(After(Start(Plain([a], [])), actions))
  {
    hide Remote, Local, Exact, Mounted;
    var p := Plain([a], []);
    var clean, dirty := Msg([Slot(a, a, None)], [], [], 0), Msg([Slot(b, a, Some(b))], [], [], 1);
    assert Mounted(p) == clean by {
      MountedScalar(a);
    }
    assert SetSlot(clean, 0, b).0.slots == dirty.slots && SetSlot(dirty, 0, a).0.slots == clean.slots;
    var s0 := Start(p);
    var s1 := s0.(supressSave := false);
    var s2 := Next(s1, DoEdit(SetField(0, b)));
    var s3 := Next(s2, Wait);
    var s4 := Next(s3, DoEdit(SetField(0, a)));
    assert s2.m == dirty && s2.inflight.Some? && s2.lastFields == 1 && s2.notifier == Clear;
    assert s3.notifier == Awaiting;
    assert s4.m == clean && s4.updateWhileSave && s4.notifier == Awaiting;
    var actions := [SetSupress(false), DoEdit(SetField(0, b)), Wait, DoEdit(SetField(0, a)), Response(false)];
    RunsFive(s0, actions);
  }

  lemma MountedScalar(a: Scalar)
    ensures Mounted(Plain([a], [])) == Msg([Slot(a, a, None)], [], [], 0)
  {
    assert Mounted(Plain([a], [])).slots == [Slot(a, a, None)];
  }

  /** Five enabled steps are a run. */
  lemma {:induction false} RunsFive(s: Sync, actions: seq<Action>)
    requires |actions| == 5
    requires Enabled(s, actions[0])
    requires Enabled(Next(s, actions[0]), actions[1])
    requires Enabled(Next(Next(s, actions[0]), actions[1]), actions[2])
    requires Enabled(Next(Next(Next(s, actions[0]), actions[1]), actions[2]), actions[3])
    requires Enabled(Next(Next(Next(Next(s, actions[0]), actions[1]), actions[2]), actions[3]), actions[4])
    ensures Runs(s, actions)
    ensures After(s, actions) == Next(Next(Next(Next(Next(s, actions[0]), actions[1]), actions[2]), actions[3]),
      actions[4])
  {
    hide Enabled, Next;
    var s1 := Next(s, actions[0]);
    var s2 := Next(s1, actions[1]);
    var s3 := Next(s2, actions[2]);
    var s4 := Next(s3, actions[3]);
    assert Runs(s4, actions[1..][1..][1..][1..]) && After(s4, actions[1..][1..][1..][1..]) == Next(s4, actions[4]);
    assert Runs(s3, actions[1..][1..][1..]) && After(s3, actions[1..][1..][1..]) == Next(s4, actions[4]);
    assert Runs(s2, actions[1..][1..]) && After(s2, actions[1..][1..]) == Next(s4, actions[4]);
    assert Runs(s1, actions[1..]);
  }
}
