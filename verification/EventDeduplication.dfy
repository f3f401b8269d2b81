/** The insert-then-process protocol for inbound network-server events
    (`handle_event`, src/integrations/chirpstack/service.py).

    Any number of deliveries are handled concurrently. Each handler checks for the deduplication id,
    inserts and commits an event row under a unique constraint, processes the event, commits the
    changes together with the outcome written to the row, and publishes afterwards; on an exception
    it rolls back and marks the row. */
module EventDeduplication {
  import opened Basics

  /** What processing an event leaves in the open transaction when it returns normally. */
  datatype Work =
    | Stored                                      // a location is stored and can be published
    | Done(changes: bool)                         // processed; other rows changed or not
    | Reported(changes: bool, processed: bool)    // an error message is written to the row

  predicate Changes(w: Work) { w.Stored? || w.changes }

  /** The columns `processed` and `error_message` of the row. */
  predicate IsProcessed(w: Work) { w.Reported? ==> w.processed }

  datatype Phase =
    | Arrived
    | Checked                              // not a known duplicate
    | Recorded(event: nat)                 // event row committed
    | Worked(event: nat, work: Work)       // work in the open transaction
    | Committed(event: nat, work: Work)
    | Published(event: nat)
    | PublishSkipped(event: nat)           // Redis failed, which is logged only
    | RolledBack(event: nat)               // work discarded, row not yet marked
    | Marked(event: nat)
    | PublishFailed(event: nat)            // an exception after the commit; the rollback comes too late
    | MarkedAfterCommit(event: nat)
    | SkippedDuplicate

  datatype Handler = Handler(dedup: Option<string>, phase: Phase)

  /** A row of `chirpstack_events` with the handler that inserted it; `error` tells whether there is
      an error message. */
  datatype EventRow = EventRow(dedup: Option<string>, owner: nat, processed: bool, error: bool)

  /** The committed changes to other rows made by one handled event. */
  datatype Effect = Effect(event: nat, storesLocation: bool)

  datatype System = System(
    events: seq<EventRow>, effects: seq<Effect>, published: seq<nat>, handlers: seq<Handler>)

  datatype Publication = Delivered | RedisDown | Raises

  datatype Action =
    | Deliver(dedup: Option<string>)
    | Check(handler: nat)
    | Insert(handler: nat)
    | Process(handler: nat, result: Option<Work>)    // nothing if it raises
    | CommitWork(handler: nat, raises: bool)
    | Publish(handler: nat, outcome: Publication)
    | MarkError(handler: nat)

  const START := System([], [], [], [])

  /** The unique constraint: absent ids never clash. */
  predicate Known(events: seq<EventRow>, dedup: Option<string>) {
    dedup.Some? && exists i :: 0 <= i < |events| && events[i].dedup == dedup
  }

  function MoveTo(sys: System, h: nat, phase: Phase): System
    requires h < |sys.handlers|
  {
    sys.(handlers := sys.handlers[h := sys.handlers[h].(phase := phase)])
  }

  /** The outcome columns of row e. */
  function SetRow(sys: System, e: nat, processed: bool, error: bool): System
  {
    if e < |sys.events|
    then sys.(events := sys.events[e := sys.events[e].(processed := processed, error := error)])
    else sys
  }

  /** `_mark_event_error`, in a transaction of its own. */
  function MarkRow(sys: System, h: nat, e: nat, phase: Phase): System
    requires h < |sys.handlers|
  {
    MoveTo(SetRow(sys, e, false, true), h, phase)
  }

  /** The changes and the row's outcome become visible together. */
  function CommitRow(sys: System, h: nat, e: nat, work: Work): System
    requires h < |sys.handlers|
  {
    var after := SetRow(sys, e, IsProcessed(work), work.Reported?);
    MoveTo(after.(effects := sys.effects + if Changes(work) then [Effect(e, work.Stored?)] else []),
           h, Committed(e, work))
  }

  /** One atomic step of one handler, or a new delivery; a step out of turn changes nothing. */
  function Step(sys: System, a: Action): System {
    if a.Deliver? then sys.(handlers := sys.handlers + [Handler(a.dedup, Arrived)])
    else if a.handler >= |sys.handlers| then sys
    else
      var h := a.handler;
      var handler := sys.handlers[h];
      match (a, handler.phase)
      case (Check(_), Arrived) =>
        // an empty id is not looked up
        if handler.dedup.Some? && handler.dedup.value != "" && Known(sys.events, handler.dedup)
        then MoveTo(sys, h, SkippedDuplicate) else MoveTo(sys, h, Checked)
      case (Insert(_), Checked) =>
        if Known(sys.events, handler.dedup) then MoveTo(sys, h, SkippedDuplicate)
        else
          MoveTo(sys.(events := sys.events + [EventRow(handler.dedup, h, false, false)]), h, Recorded(|sys.events|))
      case (Process(_, result), Recorded(e)) =>
        MoveTo(sys, h, if result.None? then RolledBack(e) else Worked(e, result.value))
      case (CommitWork(_, raises), Worked(e, work)) =>
        if raises then MoveTo(sys, h, RolledBack(e)) else CommitRow(sys, h, e, work)
      case (Publish(_, outcome), Committed(e, Stored)) =>
        (match outcome
         case Delivered => MoveTo(sys.(published := sys.published + [h]), h, Published(e))
         case RedisDown => MoveTo(sys, h, PublishSkipped(e))
         case Raises => MoveTo(sys, h, PublishFailed(e)))
      case (MarkError(_), RolledBack(e)) => MarkRow(sys, h, e, Marked(e))
      case (MarkError(_), PublishFailed(e)) => MarkRow(sys, h, e, MarkedAfterCommit(e))
      case _ => sys
  }

  function Run(actions: seq<Action>): System {
    if actions == [] then START else Step(Run(actions[..|actions| - 1]), actions[|actions| - 1])
  }

  // ----- The invariant

  /** The handler has got past the duplicate checks. */
  predicate Entered(p: Phase) {
    !p.Arrived? && !p.Checked? && !p.SkippedDuplicate?
  }

  /** A stored location has been committed, and the handler has gone on from there. */
  predicate PastStoring(p: Phase) {
    p.Published? || p.PublishSkipped? || p.PublishFailed? || p.MarkedAfterCommit?
  }

  predicate HasEffect(p: Phase) {
    PastStoring(p) || (p.Committed? && Changes(p.work))
  }

  /** What the row shows in each phase of its handler. */
  predicate ShowsProcessed(p: Phase) {
    p.Published? || p.PublishSkipped? || p.PublishFailed? || (p.Committed? && IsProcessed(p.work))
  }

  predicate ShowsError(p: Phase) {
    p.Marked? || p.MarkedAfterCommit? || (p.Committed? && p.work.Reported?)
  }

  /** A handler past the checks owns the event row it works on, a row that carries its own id. */
  predicate HandlerOk(sys: System, h: nat)
    requires h < |sys.handlers|
  {
    var handler := sys.handlers[h];
    Entered(handler.phase) ==>
      handler.phase.event < |sys.events|
      && sys.events[handler.phase.event].owner == h
      && sys.events[handler.phase.event].dedup == handler.dedup
  }

  /** Every row belongs to a handler that is still at work on exactly that row. */
  predicate RowOk(sys: System, e: nat)
    requires e < |sys.events|
  {
    var row := sys.events[e];
    && row.owner < |sys.handlers|
    && Entered(sys.handlers[row.owner].phase) && sys.handlers[row.owner].phase.event == e
    && row.processed == ShowsProcessed(sys.handlers[row.owner].phase)
    && row.error == ShowsError(sys.handlers[row.owner].phase)
  }

  predicate EffectOk(sys: System, k: nat)
    requires k < |sys.effects|
  {
    var e := sys.effects[k].event;
    && e < |sys.events| && sys.events[e].owner < |sys.handlers|
    && HasEffect(sys.handlers[sys.events[e].owner].phase)
    && (forall l :: 0 <= l < k ==> sys.effects[l].event != e)
  }

  /** A publication follows the commit of effects that include a stored location. */
  predicate PublicationOk(sys: System, k: nat)
    requires k < |sys.published|
  {
    var h := sys.published[k];
    && h < |sys.handlers| && sys.handlers[h].phase.Published?
    && (forall l :: 0 <= l < k ==> sys.published[l] != h)
  }

  /** What a committed handler owes: its effect is among the committed ones. */
  predicate CommittedOk(sys: System, h: nat)
    requires h < |sys.handlers|
  {
    var phase := sys.handlers[h].phase;
    HasEffect(phase) ==> Effect(phase.event, PastStoring(phase) || phase.work.Stored?) in sys.effects
  }

  ghost predicate Inv(sys: System) {
    && (forall i, j :: 0 <= i < j < |sys.events| && sys.events[i].dedup.Some? ==>
                         sys.events[i].dedup != sys.events[j].dedup)
    && (forall h :: 0 <= h < |sys.handlers| ==> HandlerOk(sys, h) && CommittedOk(sys, h))
    && (forall e :: 0 <= e < |sys.events| ==> RowOk(sys, e))
    && (forall k :: 0 <= k < |sys.effects| ==> EffectOk(sys, k))
    && (forall k :: 0 <= k < |sys.published| ==> PublicationOk(sys, k))
  }

  /** A handler that only changes phase, keeping its row and what the row shows, disturbs nothing. */
  lemma PhaseChange(sys: System, h: nat, phase: Phase)
    requires Inv(sys) && h < |sys.handlers|
    requires var before := sys.handlers[h].phase;
             && Entered(before) == Entered(phase)
             && (Entered(phase) ==> phase.event == before.event)
             && ShowsProcessed(before) == ShowsProcessed(phase) && ShowsError(before) == ShowsError(phase)
             && HasEffect(before) == HasEffect(phase) && !before.Published? && !phase.Published?
             && (HasEffect(phase) ==> PastStoring(phase) && (PastStoring(before) || before.work.Stored?))
    ensures Inv(MoveTo(sys, h, phase))
  {
    var after := MoveTo(sys, h, phase);
    forall g | 0 <= g < |after.handlers| ensures HandlerOk(after, g) && CommittedOk(after, g) {
      assert HandlerOk(sys, g) && CommittedOk(sys, g);
    }
    forall e | 0 <= e < |after.events| ensures RowOk(after, e) {
      assert RowOk(sys, e);
    }
    forall k | 0 <= k < |after.effects| ensures EffectOk(after, k) {
      assert EffectOk(sys, k);
    }
    forall k | 0 <= k < |after.published| ensures PublicationOk(after, k) {
      assert PublicationOk(sys, k);
    }
  }

  lemma DeliverKeepsInv(sys: System, dedup: Option<string>)
    requires Inv(sys)
    ensures Inv(Step(sys, Deliver(dedup)))
  {
    var after := Step(sys, Deliver(dedup));
    forall g | 0 <= g < |after.handlers| ensures HandlerOk(after, g) && CommittedOk(after, g) {
      assert g < |sys.handlers| ==> HandlerOk(sys, g) && CommittedOk(sys, g);
    }
    forall e | 0 <= e < |after.events| ensures RowOk(after, e) {
      assert RowOk(sys, e);
    }
    forall k | 0 <= k < |after.effects| ensures EffectOk(after, k) {
      assert EffectOk(sys, k);
    }
    forall k | 0 <= k < |after.published| ensures PublicationOk(after, k) {
      assert PublicationOk(sys, k);
    }
  }

  lemma InsertKeepsInv(sys: System, h: nat)
    requires Inv(sys) && h < |sys.handlers| && sys.handlers[h].phase.Checked?
    requires !Known(sys.events, sys.handlers[h].dedup)
    ensures Inv(Step(sys, Insert(h)))
  {
    var after := Step(sys, Insert(h));
    forall i, j | 0 <= i < j < |after.events| && after.events[i].dedup.Some?
      ensures after.events[i].dedup != after.events[j].dedup
    {
      assert sys.events[i].dedup != sys.handlers[h].dedup;
    }
    forall g | 0 <= g < |after.handlers| ensures HandlerOk(after, g) && CommittedOk(after, g) {
      assert HandlerOk(sys, g) && CommittedOk(sys, g);
    }
    forall e | 0 <= e < |after.events| ensures RowOk(after, e) {
      assert e < |sys.events| ==> RowOk(sys, e);
    }
    forall k | 0 <= k < |after.effects| ensures EffectOk(after, k) {
      assert EffectOk(sys, k);
    }
    forall k | 0 <= k < |after.published| ensures PublicationOk(after, k) {
      assert PublicationOk(sys, k);
    }
  }

  lemma NoEffectYet(sys: System, e: nat)
    requires Inv(sys) && e < |sys.events| && sys.events[e].owner < |sys.handlers|
    requires !HasEffect(sys.handlers[sys.events[e].owner].phase)
    ensures forall l :: 0 <= l < |sys.effects| ==> sys.effects[l].event != e
  {
    forall l | 0 <= l < |sys.effects| ensures sys.effects[l].event != e {
      assert EffectOk(sys, l);
    }
  }

  lemma CommitKeepsInv(sys: System, h: nat)
    requires Inv(sys) && h < |sys.handlers| && sys.handlers[h].phase.Worked?
    requires sys.handlers[h].phase.event < |sys.events|
    ensures Inv(CommitRow(sys, h, sys.handlers[h].phase.event, sys.handlers[h].phase.work))
  {
    assert HandlerOk(sys, h);
    var e, work, n := sys.handlers[h].phase.event, sys.handlers[h].phase.work, |sys.effects|;
    var after := CommitRow(sys, h, e, work);
    assert RowOk(sys, e);
    NoEffectYet(sys, e);
    forall k | 0 <= k < |after.effects| ensures EffectOk(after, k) {
      assert k < n ==> after.effects[k] == sys.effects[k] && EffectOk(sys, k);
    }
    forall g | 0 <= g < |after.handlers| ensures HandlerOk(after, g) && CommittedOk(after, g) {
      assert HandlerOk(sys, g) && CommittedOk(sys, g);
      assert Changes(work) ==> after.effects[n] in after.effects;
    }
    forall f | 0 <= f < |after.events| ensures RowOk(after, f) {
      assert RowOk(sys, f);
    }
    forall k | 0 <= k < |after.published| ensures PublicationOk(after, k) {
      assert PublicationOk(sys, k);
    }
  }

  lemma DeliveryKeepsInv(sys: System, h: nat)
    requires Inv(sys) && h < |sys.handlers| && sys.handlers[h].phase.Committed? && sys.handlers[h].phase.work.Stored?
    ensures Inv(Step(sys, Publish(h, Delivered)))
  {
    var after := Step(sys, Publish(h, Delivered));
    forall g | 0 <= g < |after.handlers| ensures HandlerOk(after, g) && CommittedOk(after, g) {
      assert HandlerOk(sys, g) && CommittedOk(sys, g);
    }
    forall e | 0 <= e < |after.events| ensures RowOk(after, e) {
      assert RowOk(sys, e);
    }
    forall k | 0 <= k < |after.effects| ensures EffectOk(after, k) {
      assert EffectOk(sys, k);
    }
    forall k | 0 <= k < |after.published| ensures PublicationOk(after, k) {
      assert forall l :: 0 <= l < |sys.published| ==> PublicationOk(sys, l) && sys.published[l] != h;
    }
  }

  lemma MarkKeepsInv(sys: System, h: nat)
    requires Inv(sys) && h < |sys.handlers|
    requires sys.handlers[h].phase.RolledBack? || sys.handlers[h].phase.PublishFailed?
    ensures Inv(Step(sys, MarkError(h)))
  {
    assert HandlerOk(sys, h);
    var after, e := Step(sys, MarkError(h)), sys.handlers[h].phase.event;
    forall g | 0 <= g < |after.handlers| ensures HandlerOk(after, g) && CommittedOk(after, g) {
      assert HandlerOk(sys, g) && CommittedOk(sys, g);
    }
    forall f | 0 <= f < |after.events| ensures RowOk(after, f) {
      assert RowOk(sys, f);
    }
    forall k | 0 <= k < |after.effects| ensures EffectOk(after, k) {
      assert EffectOk(sys, k);
    }
    forall k | 0 <= k < |after.published| ensures PublicationOk(after, k) {
      assert PublicationOk(sys, k);
    }
  }

  lemma StepKeepsInv(sys: System, a: Action)
    requires Inv(sys)
    ensures Inv(Step(sys, a))
  {
    if a.Deliver? {
      DeliverKeepsInv(sys, a.dedup);
    } else if a.handler < |sys.handlers| {
      var h := a.handler;
      var handler := sys.handlers[h];
      assert HandlerOk(sys, h);
      match (a, handler.phase)
      case (Check(_), Arrived) =>
        PhaseChange(sys, h, SkippedDuplicate);
        PhaseChange(sys, h, Checked);
      case (Insert(_), Checked) =>
        if Known(sys.events, handler.dedup) {
          PhaseChange(sys, h, SkippedDuplicate);
        } else {
          InsertKeepsInv(sys, h);
        }
      case (Process(_, result), Recorded(e)) =>
        PhaseChange(sys, h, if result.None? then RolledBack(e) else Worked(e, result.value));
      case (CommitWork(_, raises), Worked(e, work)) =>
        if raises { PhaseChange(sys, h, RolledBack(e)); } else { CommitKeepsInv(sys, h); }
      case (Publish(_, outcome), Committed(e, Stored)) =>
        if outcome.Delivered? {
          DeliveryKeepsInv(sys, h);
        } else {
          PhaseChange(sys, h, if outcome.RedisDown? then PublishSkipped(e) else PublishFailed(e));
        }
      case (MarkError(_), RolledBack(e)) => MarkKeepsInv(sys, h);
      case (MarkError(_), PublishFailed(e)) => MarkKeepsInv(sys, h);
      case _ =>
    }
  }

  lemma {:induction false} RunKeepsInv(actions: seq<Action>)
    ensures Inv(Run(actions))
  {
    if actions != [] {
      RunKeepsInv(actions[..|actions| - 1]);
      StepKeepsInv(Run(actions[..|actions| - 1]), actions[|actions| - 1]);
    }
  }

  // ----- Consequences for every interleaving

  /** Of all deliveries carrying one id, at most one handler ever gets past the duplicate checks. */
  lemma AtMostOneHandlerEnters(actions: seq<Action>, g: nat, h: nat)
    requires var hs := Run(actions).handlers;
             g < |hs| && h < |hs| && g != h && hs[g].dedup.Some? && hs[g].dedup == hs[h].dedup
    ensures !Entered(Run(actions).handlers[g].phase) || !Entered(Run(actions).handlers[h].phase)
  {
    RunKeepsInv(actions);
    assert HandlerOk(Run(actions), g) && HandlerOk(Run(actions), h);
  }

  /** ... and at most one set of effects is ever committed for the id. */
  lemma AtMostOneEffect(actions: seq<Action>, k: nat, l: nat)
    requires var sys := Run(actions);
             && k < |sys.effects| && l < |sys.effects| && k != l
             && sys.effects[k].event < |sys.events| && sys.effects[l].event < |sys.events|
    ensures var sys := Run(actions);
            sys.events[sys.effects[k].event].dedup.None?
            || sys.events[sys.effects[k].event].dedup != sys.events[sys.effects[l].event].dedup
  {
    RunKeepsInv(actions);
    assert EffectOk(Run(actions), k) && EffectOk(Run(actions), l);
  }

  /** A location is published at most once, and only after the effects that stored it committed. */
  lemma PublishedAfterCommit(actions: seq<Action>, k: nat)
    requires k < |Run(actions).published|
    ensures var sys := Run(actions);
            var h := sys.published[k];
            && h < |sys.handlers| && sys.handlers[h].phase.Published?
            && Effect(sys.handlers[h].phase.event, true) in sys.effects
            && forall l :: 0 <= l < |sys.published| && l != k ==> sys.published[l] != h
  {
    RunKeepsInv(actions);
    var sys := Run(actions);
    assert PublicationOk(sys, k);
    assert CommittedOk(sys, sys.published[k]);
    forall l | 0 <= l < |sys.published| && l != k ensures sys.published[l] != sys.published[k] {
      assert PublicationOk(sys, l);
    }
  }

  /** At step k of the run handler h met the cause: an action taken in a phase. */
  ghost predicate Meets(actions: seq<Action>, k: nat, h: nat, cause: (Action, Phase) -> bool) {
    && k < |actions| && h < |Run(actions[..k]).handlers|
    && cause(actions[k], Run(actions[..k]).handlers[h].phase)
  }

  /** After k steps of the run handler h is in a phase satisfying the condition. */
  ghost predicate Reaches(actions: seq<Action>, k: nat, h: nat, reached: Phase -> bool) {
    && k <= |actions| && h < |Run(actions[..k]).handlers|
    && reached(Run(actions[..k]).handlers[h].phase)
  }

  /** The condition is brought about by the cause and by nothing else, and never lost again. */
  ghost predicate Latches(actions: seq<Action>, h: nat, cause: (Action, Phase) -> bool, reached: Phase -> bool) {
    && !Reaches(actions, 0, h, reached)
    && forall k :: 0 <= k < |actions| ==>
         (Reaches(actions, k + 1, h, reached) <==> Reaches(actions, k, h, reached) || Meets(actions, k, h, cause))
  }

  /** Such a condition holds exactly if the run so far contains the cause. */
  lemma {:induction false} TracesBack(actions: seq<Action>, n: nat, h: nat, cause: (Action, Phase) -> bool,
                                      reached: Phase -> bool)
    requires n <= |actions| && Latches(actions, h, cause, reached)
    ensures Reaches(actions, n, h, reached) <==> exists k :: 0 <= k < n && Meets(actions, k, h, cause)
  {
    if n > 0 {
      TracesBack(actions, n - 1, h, cause, reached);
      if Meets(actions, n - 1, h, cause) {
        assert exists k :: 0 <= k < n && Meets(actions, k, h, cause);
      }
    }
  }

  lemma RunPrefix(actions: seq<Action>, k: nat)
    requires k < |actions|
    ensures Run(actions[..k + 1]) == Step(Run(actions[..k]), actions[k])
  {
    assert actions[..k + 1][..k] == actions[..k];
  }

  /** The publishing call of handler h for the committed event e raises. */
  function PublishingRaises(h: nat, e: nat): (Action, Phase) -> bool {
    (a: Action, p: Phase) => a == Publish(h, Raises) && p == Committed(e, Stored)
  }

  /** Handler h commits changes together with the error message it has written to event e. */
  function ReportCommits(h: nat, e: nat): (Action, Phase) -> bool {
    (a: Action, p: Phase) =>
      a == CommitWork(h, false) && p.Worked? && p.event == e && p.work.Reported? && p.work.changes
  }

  predicate HasFailedLate(p: Phase, e: nat) {
    p == PublishFailed(e) || p == MarkedAfterCommit(e)
  }

  lemma StepFails(sys: System, a: Action, h: nat, e: nat)
    requires h < |Step(sys, a).handlers|
    ensures HasFailedLate(Step(sys, a).handlers[h].phase, e)
            <==> h < |sys.handlers| && (HasFailedLate(sys.handlers[h].phase, e)
                                        || PublishingRaises(h, e)(a, sys.handlers[h].phase))
  {
  }

  /** A handler fails after its commit exactly if its publishing call raised during the run. */
  lemma FailureComesFromPublishing(actions: seq<Action>, h: nat, e: nat)
    requires h < |Run(actions).handlers|
    ensures HasFailedLate(Run(actions).handlers[h].phase, e)
            <==> exists k :: Meets(actions, k, h, PublishingRaises(h, e))
  {
    var cause, reached := PublishingRaises(h, e), (p: Phase) => HasFailedLate(p, e);
    assert actions[..|actions|] == actions;
    forall k | 0 <= k < |actions|
      ensures Reaches(actions, k + 1, h, reached) <==> Reaches(actions, k, h, reached) || Meets(actions, k, h, cause)
    {
      RunPrefix(actions, k);
      StepKeepsHandlers(Run(actions[..k]), actions[k]);
      if h < |Run(actions[..k + 1]).handlers| {
        StepFails(Run(actions[..k]), actions[k], h, e);
      }
    }
    TracesBack(actions, |actions|, h, cause, reached);
  }

  predicate HasReported(p: Phase, e: nat) {
    p.Committed? && p.event == e && p.work.Reported? && p.work.changes
  }

  lemma StepReports(sys: System, a: Action, h: nat, e: nat)
    requires h < |Step(sys, a).handlers|
    ensures HasReported(Step(sys, a).handlers[h].phase, e)
            <==> h < |sys.handlers| && (HasReported(sys.handlers[h].phase, e)
                                        || ReportCommits(h, e)(a, sys.handlers[h].phase))
  {
  }

  lemma ReportComesFromCommit(actions: seq<Action>, h: nat, e: nat)
    requires h < |Run(actions).handlers|
    ensures HasReported(Run(actions).handlers[h].phase, e)
            <==> exists k :: Meets(actions, k, h, ReportCommits(h, e))
  {
    var cause, reached := ReportCommits(h, e), (p: Phase) => HasReported(p, e);
    assert actions[..|actions|] == actions;
    forall k | 0 <= k < |actions|
      ensures Reaches(actions, k + 1, h, reached) <==> Reaches(actions, k, h, reached) || Meets(actions, k, h, cause)
    {
      RunPrefix(actions, k);
      StepKeepsHandlers(Run(actions[..k]), actions[k]);
      if h < |Run(actions[..k + 1]).handlers| {
        StepReports(Run(actions[..k]), actions[k], h, e);
      }
    }
    TracesBack(actions, |actions|, h, cause, reached);
  }

  lemma StepKeepsHandlers(sys: System, a: Action)
    ensures |sys.handlers| <= |Step(sys, a).handlers|
    ensures forall h :: 0 <= h < |sys.handlers| ==> Step(sys, a).handlers[h].dedup == sys.handlers[h].dedup
  {
  }

  /** An event row with an error message stands for no changes at all, except exactly if the run
      contains one of two things: the publishing call for the event raised, after the commit, or its
      handler committed changes together with the message it reported. */
  lemma ErrorMeansNoEffectsExactly(actions: seq<Action>, e: nat)
    requires e < |Run(actions).events| && Run(actions).events[e].error
    ensures var sys := Run(actions);
            var owner := sys.events[e].owner;
            (exists k :: 0 <= k < |sys.effects| && sys.effects[k].event == e)
            <==> (exists k :: Meets(actions, k, owner, PublishingRaises(owner, e)))
                 || (exists k :: Meets(actions, k, owner, ReportCommits(owner, e)))
  {
    RunKeepsInv(actions);
    var sys := Run(actions);
    assert RowOk(sys, e);
    var owner := sys.events[e].owner;
    FailureComesFromPublishing(actions, owner, e);
    ReportComesFromCommit(actions, owner, e);
    EffectsFollowPhase(sys, e);
  }

  /** An event has a committed effect exactly if its handler has got that far. */
  lemma EffectsFollowPhase(sys: System, e: nat)
    requires Inv(sys) && e < |sys.events|
    ensures sys.events[e].owner < |sys.handlers|
    ensures (exists k :: 0 <= k < |sys.effects| && sys.effects[k].event == e)
            <==> HasEffect(sys.handlers[sys.events[e].owner].phase)
  {
    assert RowOk(sys, e);
    var owner := sys.events[e].owner;
    assert HandlerOk(sys, owner) && CommittedOk(sys, owner);
    var phase := sys.handlers[owner].phase;
    if HasEffect(phase) {
      var effect := Effect(e, PastStoring(phase) || phase.work.Stored?);
      var k :| 0 <= k < |sys.effects| && sys.effects[k] == effect;
      assert sys.effects[k].event == e;
    } else {
      NoEffectYet(sys, e);
    }
  }

  /** A row that shows neither success nor an error belongs to a handler that has not finished, and
      only to such: nothing else is left without an outcome. */
  lemma SilentRowsAreUnfinished(actions: seq<Action>, e: nat)
    requires e < |Run(actions).events|
    ensures var sys := Run(actions);
            var row := sys.events[e];
            && row.owner < |sys.handlers|
            && var phase := sys.handlers[row.owner].phase;
               !row.processed && !row.error <==> phase.Recorded? || phase.Worked? || phase.RolledBack?
  {
    RunKeepsInv(actions);
    assert RowOk(Run(actions), e);
  }

  lemma RunMore(actions: seq<Action>, a: Action)
    ensures Run(actions + [a]) == Step(Run(actions), a)
  {
    assert (actions + [a])[..|actions|] == actions;
  }

  const FIRST_EVENT := Handler(Some("id"), Arrived)

  const FIRST_ROW := EventRow(Some("id"), 0, false, false)

  const UNTIL_RECORDED := [Deliver(Some("id")), Check(0), Insert(0)]

  lemma ExampleChecked()
    ensures Run([Deliver(Some("id")), Check(0)]) == System([], [], [], [FIRST_EVENT.(phase := Checked)])
  {
    var delivered := [Deliver(Some("id"))];
    RunMore([], Deliver(Some("id")));
    assert [] + [Deliver(Some("id"))] == delivered;
    assert Run(delivered) == System([], [], [], [FIRST_EVENT]);
    RunMore(delivered, Check(0));
    assert delivered + [Check(0)] == [Deliver(Some("id")), Check(0)];
  }

  lemma ExampleRecorded()
    ensures Run(UNTIL_RECORDED) == System([FIRST_ROW], [], [], [FIRST_EVENT.(phase := Recorded(0))])
  {
    ExampleChecked();
    RunMore([Deliver(Some("id")), Check(0)], Insert(0));
    assert [Deliver(Some("id")), Check(0)] + [Insert(0)] == UNTIL_RECORDED;
  }

  lemma ExampleCommitted(work: Work)
    ensures Run(UNTIL_RECORDED + [Process(0, Some(work))] + [CommitWork(0, false)])
            == System([FIRST_ROW.(processed := IsProcessed(work), error := work.Reported?)],
                      if Changes(work) then [Effect(0, work.Stored?)] else [], [],
                      [FIRST_EVENT.(phase := Committed(0, work))])
  {
    var worked := UNTIL_RECORDED + [Process(0, Some(work))];
    ExampleRecorded();
    RunMore(UNTIL_RECORDED, Process(0, Some(work)));
    assert Run(worked) == System([FIRST_ROW], [], [], [FIRST_EVENT.(phase := Worked(0, work))]);
    RunMore(worked, CommitWork(0, false));
  }

  /** The first exception is reachable: the row reports a failure although the location was stored. */
  lemma PublishFailureMarksACommittedEvent(actions: seq<Action>)
    requires actions == UNTIL_RECORDED + [Process(0, Some(Stored))] + [CommitWork(0, false)]
                        + [Publish(0, Raises)] + [MarkError(0)]
    ensures Run(actions).events == [FIRST_ROW.(processed := false, error := true)]
    ensures Run(actions).effects == [Effect(0, true)] && Run(actions).published == []
  {
    var committed := UNTIL_RECORDED + [Process(0, Some(Stored))] + [CommitWork(0, false)];
    ExampleCommitted(Stored);
    RunMore(committed, Publish(0, Raises));
    RunMore(committed + [Publish(0, Raises)], MarkError(0));
  }

  /** So is the second: a transmission that was not sent fails the command and is reported. */
  lemma ReportedFailureKeepsItsChanges(actions: seq<Action>)
    requires actions == UNTIL_RECORDED + [Process(0, Some(Reported(true, true)))] + [CommitWork(0, false)]
    ensures Run(actions).events == [FIRST_ROW.(processed := true, error := true)]
    ensures Run(actions).effects == [Effect(0, false)]
  {
    ExampleCommitted(Reported(true, true));
  }

  lemma {:induction false} RecordedIdsStayKnown(actions: seq<Action>, k: nat, dedup: Option<string>)
    requires k <= |actions| && Known(Run(actions[..k]).events, dedup)
    ensures Known(Run(actions).events, dedup)
  {
    if k == |actions| {
      assert actions[..k] == actions;
    } else {
      var init, a := actions[..|actions| - 1], actions[|actions| - 1];
      assert init[..k] == actions[..k];
      RecordedIdsStayKnown(init, k, dedup);
      var before, after := Run(init).events, Run(actions).events;
      var i :| 0 <= i < |before| && before[i].dedup == dedup;
      assert after[i].dedup == dedup;
    }
  }

  /** Handler h carries the id and, if it was already there at moment k, had not entered by then. */
  predicate LateFor(actions: seq<Action>, k: nat, h: nat, dedup: Option<string>)
    requires k <= |actions|
  {
    && h < |Run(actions).handlers| && Run(actions).handlers[h].dedup == dedup
    && (h < |Run(actions[..k]).handlers| ==> !Entered(Run(actions[..k]).handlers[h].phase))
  }

  /** Recording an id is final, also when its processing failed: from the moment the id is known, no
      handler of it that has not entered yet, delivered before or after, ever enters in any
      continuation, and once it has made its two checks it ends as a skipped duplicate. A failed
      event is therefore not retried by redelivery. */
  lemma {:induction false} KnownIdNeverEnters(actions: seq<Action>, k: nat, h: nat, dedup: Option<string>)
    requires k <= |actions| && Known(Run(actions[..k]).events, dedup) && LateFor(actions, k, h, dedup)
    ensures !Entered(Run(actions).handlers[h].phase)
    ensures var checked := actions + [Check(h)] + [Insert(h)];
            h < |Run(checked).handlers| && Run(checked).handlers[h].phase == SkippedDuplicate
  {
    if k == |actions| {
      assert actions[..k] == actions;
    } else {
      var init, a := actions[..|actions| - 1], actions[|actions| - 1];
      assert init[..k] == actions[..k];
      RecordedIdsStayKnown(init, k, dedup);
      if h < |Run(init).handlers| {
        StepKeepsHandlers(Run(init), a);
        KnownIdNeverEnters(init, k, h, dedup);
        StaysOut(Run(init), a, h);
      } else {
        NewHandlerIsOut(Run(init), a, h);
      }
    }
    RecordedIdsStayKnown(actions, k, dedup);
    RunMore(actions, Check(h));
    RunMore(actions + [Check(h)], Insert(h));
    ChecksEndInSkip(Run(actions), h);
  }

  lemma StaysOut(sys: System, a: Action, h: nat)
    requires h < |sys.handlers| && Known(sys.events, sys.handlers[h].dedup) && !Entered(sys.handlers[h].phase)
    ensures h < |Step(sys, a).handlers| && !Entered(Step(sys, a).handlers[h].phase)
  {
  }

  lemma NewHandlerIsOut(sys: System, a: Action, h: nat)
    requires |sys.handlers| <= h < |Step(sys, a).handlers|
    ensures !Entered(Step(sys, a).handlers[h].phase)
  {
  }

  lemma ChecksEndInSkip(sys: System, h: nat)
    requires h < |sys.handlers| && Known(sys.events, sys.handlers[h].dedup) && !Entered(sys.handlers[h].phase)
    ensures var after := Step(Step(sys, Check(h)), Insert(h));
            h < |after.handlers| && after.handlers[h].phase == SkippedDuplicate
  {
  }
}
