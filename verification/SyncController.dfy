/** The save loop as the object that runs it: each method is one uninterrupted stretch between awaits. */
module SyncController {
  import opened Shared
  import opened DeltaSpec
  import opened DeltaCommit
  import opened Diffable
  import opened SyncSpec

  class Controller {
    var local: Message
    var handlerInProgress: bool
    var updateWhileSave: bool
    var updateNotifier: Status
    var lastFields: int
    var catchAllLastFields: int
    var deltaCalled: nat
    var supressSave: bool
    /** What the suspended loop will commit when its request succeeds. */
    var commitDelta: Option<Snap>
    ghost var server: Plain
    ghost var settled: nat
    ghost var excused: bool
    ghost var told: Option<bool>

    ghost predicate Valid()
      reads this, local, local.Repr
    {
      local.Valid() && !local.supressPropagation && this !in local.Repr
    }

    ghost function State(): (s: Sync)
      requires Valid()
      reads this, local, local.Repr
    {
      Sync(local.Value(), server, commitDelta, handlerInProgress, updateWhileSave, updateNotifier, lastFields,
           catchAllLastFields, supressSave, settled, excused, told)
    }

    constructor (data: Plain)
      ensures Valid() && fresh(local) && fresh(local.Repr) && State() == Start(data)
    {
      var m := new Message.Mount(data);
      local := m;
      handlerInProgress, updateWhileSave, updateNotifier, lastFields, catchAllLastFields := false, false, Clear, 0, 0;
      deltaCalled, supressSave, commitDelta, server, settled, excused, told := 0, true, None, data, 0, false, None;
    }

    /** The loop from its head to the next request or to its end. */
    method RunLoop()
      requires Valid() && handlerInProgress
      modifies this
      ensures Valid() && local == old(local) && deltaCalled == old(deltaCalled)
      ensures State() == Continue(old(State()))
    {
      if updateWhileSave {
        updateWhileSave := false;
        var syncResult := local.Synchronize();
        if syncResult.Some? {
          commitDelta := syncResult;
          return;
        }
      }
      handlerInProgress := false;
    }

    method OnDeltaChange(fields: int)
      requires Valid()
      modifies this
      ensures Valid() && local == old(local) && deltaCalled == old(deltaCalled) + 1
      ensures State() == Notify(old(State()), fields)
    {
      hide Continue, Snapshot, Message.Value, Message.Valid;
      deltaCalled := deltaCalled + 1;
      catchAllLastFields := fields;
      updateWhileSave := true;
      if supressSave {
        excused := true;
      } else {
        lastFields := fields;
        Wake();
      }
    }

    /** Starts the loop unless it runs already. */
    method Wake()
      requires Valid()
      modifies this
      ensures Valid() && local == old(local) && deltaCalled == old(deltaCalled)
      ensures
        var s := old(State());
        State() == if s.handlerInProgress then s
                   else if s.notifier == Awaiting then s.(excused := true)
                   else Continue(s.(notifier := Clear, handlerInProgress := true, settled := 0, excused := false))
    {
      hide Continue;
      if handlerInProgress {
        return;
      }
      if updateNotifier == Awaiting {
        // clear() throws
        excused := true;
      } else {
        StartLoop();
      }
    }

    /** Clears the notifier and enters the loop. */
    method StartLoop()
      requires Valid() && updateNotifier != Awaiting
      modifies this
      ensures Valid() && local == old(local) && deltaCalled == old(deltaCalled)
      ensures State() == Continue(old(State()).(notifier := Clear, handlerInProgress := true, settled := 0,
        excused := false))
    {
      hide Continue;
      updateNotifier := Clear;
      handlerInProgress, settled, excused := true, 0, false;
      RunLoop();
    }

    method Perform(e: Edit)
      requires Valid()
      modifies this, local, local.Repr
      ensures Valid() && local == old(local) && fresh(local.Repr - old(local.Repr))
      ensures State() == OnEdit(old(State()), e)
      ensures deltaCalled == old(deltaCalled) + if Apply(old(local.Value()), e).1.Changed? then 1 else 0
    {
      hide Apply, Notify, Grow;
      var ev := local.Perform(e);
      server := Grow(server, e);
      if ev.Changed? {
        OnDeltaChange(ev.fields);
      }
    }

    method RunEdits(es: seq<Edit>)
      requires Valid()
      modifies this, local, local.Repr
      ensures Valid() && local == old(local) && fresh(local.Repr - old(local.Repr))
      ensures State() == OnEdits(old(State()), es)
      ensures deltaCalled != old(deltaCalled) <==> CallsBack(old(local.Value()), es)
      ensures deltaCalled >= old(deltaCalled)
    {
      hide OnEdit;
      assert es[0..] == es;
      for k := 0 to |es|
        invariant Valid() && local == old(local) && fresh(local.Repr - old(local.Repr))
        invariant OnEdits(old(State()), es) == OnEdits(State(), es[k..])
        invariant deltaCalled >= old(deltaCalled)
        invariant CallsBack(old(local.Value()), es)
          <==> deltaCalled != old(deltaCalled) || CallsBack(local.Value(), es[k..])
      {
        assert es[k..][0] == es[k] && es[k..][1..] == es[k + 1..];
        EditMessage(State(), es[k]);
        Perform(es[k]);
      }
    }

    method AsAtomicChange(es: seq<Edit>)
      requires Valid()
      modifies this, local, local.Repr
      ensures Valid() && local == old(local) && fresh(local.Repr - old(local.Repr))
      ensures State() == OnBlock(old(State()), es)
    {
      hide OnEdits, Notify, CallsBack;
      if supressSave {
        RunEdits(es);
        return;
      }
      var deltaEpoch := deltaCalled;
      ghost var wasExcused := excused;
      supressSave := true;
      RunEdits(es);
      supressSave := false;
      excused := wasExcused;
      if deltaEpoch != deltaCalled {
        OnDeltaChange(catchAllLastFields);
      }
    }

    /** `resolveWith` and `rejectWith` on a notifier that is neither used up nor settled. */
    method SettleNotifier(how: Status)
      requires Valid() && Settleable(State())
      modifies this
      ensures Valid() && local == old(local) && State() == Settle(old(State()), how)
    {
      if updateNotifier == Awaiting {
        updateNotifier := Fulfilled;
        told := Some(how == Resolved);
      } else {
        updateNotifier := how;
      }
      settled := settled + 1;
    }

    /** The awaited request has ended; the loop goes on from there. */
    method OnResponse(ok: bool)
      requires Valid() && Inv(State()) && commitDelta.Some?
      modifies this, local, local.Repr
      ensures Valid() && local == old(local) && fresh(local.Repr - old(local.Repr))
      ensures State() == Respond(old(State()), ok)
    {
      hide Exact, Fits, Snapshot, Remote, Commit, Notify, Continue, Overlay, Message.Value, Message.Valid;
      if ok {
        OnSuccess();
      } else {
        commitDelta := None;
        if !updateWhileSave {
          excused := true;
          SettleNotifier(Rejected);
        }
      }
      RunLoop();
    }

    /** Settles the notifier if nothing has changed since the request was sent, then commits. */
    method OnSuccess()
      requires Valid() && Inv(State()) && commitDelta.Some?
      modifies this, local, local.Repr
      ensures Valid() && local == old(local) && fresh(local.Repr - old(local.Repr)) && handlerInProgress
      ensures
        var s, d := old(State()), old(commitDelta).value;
        var s2 := s.(inflight := None, server := Overlay(s.server, d));
        var s3 := if s.updateWhileSave then s2 else Settle(s2.(lastFields := 0), Resolved);
        State() == NotifyEvent(s3.(m := Commit(s.m, d).0), Commit(s.m, d).1)
    {
      hide Exact, Fits, Snapshot, Remote, Commit, Notify, Continue, Overlay, Message.Value, Message.Valid;
      var d := commitDelta.value;
      commitDelta := None;
      server := Overlay(server, d);
      if !updateWhileSave {
        lastFields := 0;
        SettleNotifier(Resolved);
      }
      var ev := local.Commit(d);
      ghost var before := State();
      if ev.Changed? {
        OnDeltaChange(ev.fields);
      }
      CommitReported(before, ev);
    }

    /** `synchronize`: true when nothing is to be saved, otherwise what the notifier says, when it can
        still be waited for; without an answer yet the caller waits for the notifier to be settled. */
    method Synchronize() returns (answer: Option<bool>)
      requires Valid()
      modifies this
      ensures Valid() && local == old(local) && State() == OnWait(old(State()))
      ensures answer == Answer(old(State()))
    {
      if lastFields == 0 {
        return Some(true);
      }
      match updateNotifier {
        case Clear =>
          updateNotifier, told := Awaiting, None;
          answer := None;
        case Rejected =>
          updateNotifier := Fulfilled;
          answer := Some(false);
        case Resolved =>
          updateNotifier := Fulfilled;
          answer := Some(true);
        case _ =>
          // wait() throws
          answer := Some(false);
      }
    }
  }

  lemma {:induction false} EditMessage(s: Sync, e: Edit)
    ensures OnEdit(s, e).m == Apply(s.m, e).0
  {
    hide Apply, Grow, Notify;
    var (m, ev) := Apply(s.m, e);
    if ev.Changed? {
      NotifyMessage(s.(m := m, server := Grow(s.server, e)), ev.fields);
    }
  }
}
