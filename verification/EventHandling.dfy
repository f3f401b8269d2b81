/** The event protocol from the side of what does happen: a fresh event is recorded, worked on,
    committed and published, a failed one is marked, and what is recorded as published was delivered. */
module EventHandling {
  import opened Basics
  import opened EventDeduplication

  // ----- Published means delivered

  /** Handler h delivers the location it has committed. */
  function Delivers(h: nat): (Action, Phase) -> bool {
    (a: Action, p: Phase) => a == Publish(h, Delivered) && p.Committed? && p.work == Stored
  }

  lemma StepDelivers(sys: System, a: Action, h: nat)
    requires h < |Step(sys, a).handlers|
    ensures Step(sys, a).handlers[h].phase.Published?
            <==> h < |sys.handlers| && (sys.handlers[h].phase.Published? || Delivers(h)(a, sys.handlers[h].phase))
  {
  }

  lemma StepRecordsDelivery(sys: System, a: Action, h: nat)
    requires h < |Step(sys, a).handlers|
    requires h < |sys.handlers| && sys.handlers[h].phase.Published? ==> h in sys.published
    ensures Step(sys, a).handlers[h].phase.Published? ==> h in Step(sys, a).published
  {
  }

  lemma {:induction false} DeliveryIsRecorded(actions: seq<Action>, h: nat)
    requires h < |Run(actions).handlers| && Run(actions).handlers[h].phase.Published?
    ensures h in Run(actions).published
  {
    if actions != [] {
      var init, a := actions[..|actions| - 1], actions[|actions| - 1];
      if h < |Run(init).handlers| && Run(init).handlers[h].phase.Published? {
        DeliveryIsRecorded(init, h);
      }
      StepRecordsDelivery(Run(init), a, h);
    }
  }

  /** A handler's location is recorded as published exactly if the run contains its delivery, made
      after the location was committed. */
  lemma PublishedExactly(actions: seq<Action>, h: nat)
    requires h < |Run(actions).handlers|
    ensures h in Run(actions).published <==> exists k :: Meets(actions, k, h, Delivers(h))
  {
    var cause, reached := Delivers(h), (p: Phase) => p.Published?;
    assert actions[..|actions|] == actions;
    forall k | 0 <= k < |actions|
      ensures Reaches(actions, k + 1, h, reached) <==> Reaches(actions, k, h, reached) || Meets(actions, k, h, cause)
    {
      RunPrefix(actions, k);
      StepKeepsHandlers(Run(actions[..k]), actions[k]);
      if h < |Run(actions[..k + 1]).handlers| {
        StepDelivers(Run(actions[..k]), actions[k], h);
      }
    }
    TracesBack(actions, |actions|, h, cause, reached);
    RunKeepsInv(actions);
    if Run(actions).handlers[h].phase.Published? {
      DeliveryIsRecorded(actions, h);
    }
    if h in Run(actions).published {
      var l :| 0 <= l < |Run(actions).published| && Run(actions).published[l] == h;
      assert PublicationOk(Run(actions), l);
    }
  }

  // ----- A fresh event, handled without a break

  /** The id has not been recorded; an event without an id is always fresh. */
  predicate IsFresh(sys: System, dedup: Option<string>) {
    dedup.Some? ==> forall i :: 0 <= i < |sys.events| ==> sys.events[i].dedup != dedup
  }

  function Received(sys: System, dedup: Option<string>): System {
    Step(Step(Step(sys, Deliver(dedup)), Check(|sys.handlers|)), Insert(|sys.handlers|))
  }

  /** In any state, a fresh event gets a row of its own, with no outcome yet, and nothing else changes. */
  lemma FreshEventIsRecorded(sys: System, dedup: Option<string>)
    requires IsFresh(sys, dedup)
    ensures var e, h := |sys.events|, |sys.handlers|;
            Received(sys, dedup)
            == sys.(events := sys.events + [EventRow(dedup, h, false, false)],
                    handlers := sys.handlers + [Handler(dedup, Recorded(e))])
  {
    var h := |sys.handlers|;
    var arrived := Step(sys, Deliver(dedup));
    assert !Known(sys.events, dedup);
    assert arrived.handlers[h] == Handler(dedup, Arrived);
    var checked := Step(arrived, Check(h));
    assert checked.handlers == sys.handlers + [Handler(dedup, Checked)];
  }

  function Handled(sys: System, dedup: Option<string>, work: Work): System {
    Step(Step(Received(sys, dedup), Process(|sys.handlers|, Some(work))), CommitWork(|sys.handlers|, false))
  }

  /** Its work is committed together with the outcome: processed unless the handler reported otherwise,
      an error only if it reported one, and the changes it made to other rows, if any. */
  lemma FreshEventIsHandled(sys: System, dedup: Option<string>, work: Work)
    requires IsFresh(sys, dedup)
    ensures var e, h := |sys.events|, |sys.handlers|;
            var (processed, error, changes) :=
              match work
              case Stored => (true, false, true)
              case Done(c) => (true, false, c)
              case Reported(c, p) => (p, true, c);
            Handled(sys, dedup, work)
            == System(sys.events + [EventRow(dedup, h, processed, error)],
                      sys.effects + if changes then [Effect(e, work == Stored)] else [],
                      sys.published, sys.handlers + [Handler(dedup, Committed(e, work))])
  {
    FreshEventIsRecorded(sys, dedup);
    var received, h := Received(sys, dedup), |sys.handlers|;
    var worked := Step(received, Process(h, Some(work)));
    assert worked.handlers == sys.handlers + [Handler(dedup, Worked(|sys.events|, work))];
  }

  /** A stored location is published. */
  lemma StoredLocationIsPublished(sys: System, dedup: Option<string>)
    requires IsFresh(sys, dedup)
    ensures var h := |sys.handlers|;
            var after := Step(Handled(sys, dedup, Stored), Publish(h, Delivered));
            after.published == sys.published + [h] && after.effects == sys.effects + [Effect(|sys.events|, true)]
  {
    FreshEventIsHandled(sys, dedup, Stored);
  }

  /** If processing raises, the row is marked and no other change is left. */
  lemma FailedProcessingIsMarked(sys: System, dedup: Option<string>)
    requires IsFresh(sys, dedup)
    ensures var h := |sys.handlers|;
            var after := Step(Step(Received(sys, dedup), Process(h, None)), MarkError(h));
            && after.events == sys.events + [EventRow(dedup, h, false, true)]
            && after.effects == sys.effects && after.published == sys.published
  {
    FreshEventIsRecorded(sys, dedup);
    var raised := Step(Received(sys, dedup), Process(|sys.handlers|, None));
    assert raised.handlers == sys.handlers + [Handler(dedup, RolledBack(|sys.events|))];
  }
}
