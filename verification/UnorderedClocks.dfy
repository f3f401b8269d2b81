/** The assignment service under an arbitrary clock, which may step back between transactions:
    exactly when the point query over the history stops answering. */
module UnorderedClocks {
  import opened Basics
  import opened DeviceAssignment
  import opened AssignmentHistory

  /** Two rows of the device cover the instant. */
  predicate Ambiguous(h: seq<Row>, d: int, t: int) {
    exists i, j :: 0 <= i < j < |h| && Covers(h[i], d, t) && Covers(h[j], d, t)
  }

  ghost predicate Clear(h: seq<Row>, d: int) {
    forall t :: !Ambiguous(h, d, t)
  }

  // ----- The point query

  lemma {:induction false} SelectsSome(h: seq<Row>, p: Row -> bool, i: nat)
    requires i < |h| && p(h[i])
    ensures |Select(h, p)| >= 1
  {
    if i < |h| - 1 {
      SelectsSome(h[..|h| - 1], p, i);
    }
  }

  lemma {:induction false} SelectsTwo(h: seq<Row>, p: Row -> bool, i: nat, j: nat)
    requires i < j < |h| && p(h[i]) && p(h[j])
    ensures |Select(h, p)| >= 2
  {
    var n := |h| - 1;
    if j < n {
      SelectsTwo(h[..n], p, i, j);
    } else {
      SelectsSome(h[..n], p, i);
    }
  }

  lemma QueryFailsExactly(h: seq<Row>, d: int, t: int)
    ensures GetAssignmentForDeviceAt(h, d, t).Ok? <==> !Ambiguous(h, d, t)
  {
    var p := (r: Row) => Covers(r, d, t);
    if Ambiguous(h, d, t) {
      var i, j :| 0 <= i < j < |h| && Covers(h[i], d, t) && Covers(h[j], d, t);
      SelectsTwo(h, p, i, j);
    } else if i :| 0 <= i < |h| && p(h[i]) {
      forall j | 0 <= j < |h| && j != i ensures !p(h[j]) {
        assert !(Covers(h[Min(i, j)], d, t) && Covers(h[Max(i, j)], d, t));
      }
      SelectsOnly(h, p, i);
    } else {
      SelectsNothing(h, p);
    }
  }

  // ----- What holds under any clock

  /** Pointers and open rows agree and the table constraints hold; nothing is said about time. */
  ghost predicate Consistent(db: Db) {
    PointersOk(db) && SatisfiesConstraints(db)
  }

  lemma ActiveRow(db: Db, d: nat)
    requires Consistent(db) && d < |db.devices|
    ensures var found := ActiveAssignment(db.history, d);
            found.Ok? && CurrentAssignmentError(db.devices[d], found.value).None?
  {
    var h := db.history;
    var p := (r: Row) => r.deviceId == d && IsOpen(r);
    if db.devices[d].assetId.Some? {
      var i :| IsOpenRow(h, i, d);
      forall j | 0 <= j < |h| && j != i ensures !p(h[j]) {
        assert if i < j then !(IsOpen(h[i]) && IsOpen(h[j]) && h[i].deviceId == h[j].deviceId)
               else !(IsOpen(h[j]) && IsOpen(h[i]) && h[j].deviceId == h[i].deviceId);
      }
      SelectsOnly(h, p, i);
    } else {
      SelectsNothing(h, p);
    }
  }

  /** A history change that leaves the open rows of all devices but d alone. */
  lemma OtherPointers(h: seq<Row>, after: seq<Row>, devices: seq<Device>, d: int)
    requires |h| <= |after|
    requires forall i :: 0 <= i < |h| && h[i].deviceId != d ==> after[i] == h[i]
    requires forall e :: 0 <= e < |devices| && devices[e].assetId.Some? ==> exists i :: IsOpenRow(h, i, e)
    ensures forall e :: 0 <= e < |devices| && e != d && devices[e].assetId.Some? ==> exists i :: IsOpenRow(after, i, e)
  {
    forall e | 0 <= e < |devices| && e != d && devices[e].assetId.Some? ensures exists i :: IsOpenRow(after, i, e) {
      var i :| IsOpenRow(h, i, e);
      assert IsOpenRow(after, i, e);
    }
  }

  lemma ReassignedPointers(db: Db, d: nat, a: int, now: int)
    requires PointersOk(db) && d < |db.devices|
    ensures PointersOk(db.(devices := db.devices[d := Activated(db.devices[d].(assetId := Some(a)))],
                           history := Append(CloseOpen(db.history, d, now), d, a, now)))
  {
    var after := Append(CloseOpen(db.history, d, now), d, a, now);
    OtherPointers(db.history, after, db.devices, d);
    assert IsOpenRow(after, |db.history|, d);
  }

  lemma ReleasedPointers(db: Db, d: nat, now: int)
    requires PointersOk(db) && d < |db.devices|
    ensures PointersOk(db.(devices := db.devices[d := db.devices[d].(assetId := None, active := false, state := Off)],
                           history := CloseOpen(db.history, d, now)))
  {
    OtherPointers(db.history, CloseOpen(db.history, d, now), db.devices, d);
  }

  lemma CreatedPointers(db: Db, device: Device, a: int, now: int)
    requires PointersOk(db)
    ensures PointersOk(db.(devices := db.devices + [device.(assetId := Some(a), deleted := false)],
                           history := Append(db.history, |db.devices|, a, now)))
  {
    var after := Append(db.history, |db.devices|, a, now);
    OtherPointers(db.history, after, db.devices, |db.devices|);
    assert IsOpenRow(after, |db.history|, |db.devices|);
  }

  lemma StepKeepsConsistency(db: Db, e: Event)
    requires Consistent(db)
    ensures Consistent(Apply(db, e).0)
  {
    match e.op
    case AssignAsset(d, a) => AssignKeepsConsistency(db, d, a, e.now);
    case ReleaseAsset(d) => ReleaseKeepsConsistency(db, d, e.now);
    case CreateDevice(p, device, a, asset) => if a.Some? { CreatedPointers(db, device, a.value, e.now); }
    case DeactivateDevice(d) =>
    case EditAssets(assets) =>
  }

  lemma AssignKeepsConsistency(db: Db, d: int, a: int, now: int)
    requires Consistent(db)
    ensures Consistent(Assign(db, d, a, now).0)
  {
    if 0 <= d < |db.devices| {
      ReassignedPointers(db, d, a, now);
    }
  }

  lemma ReleaseKeepsConsistency(db: Db, d: int, now: int)
    requires Consistent(db)
    ensures Consistent(Release(db, d, now).0)
  {
    if 0 <= d < |db.devices| {
      ReleasedPointers(db, d, now);
    }
  }

  lemma {:induction false} RunKeepsConsistency(events: seq<Event>)
    ensures Consistent(Run(events))
  {
    if events != [] {
      RunKeepsConsistency(events[..|events| - 1]);
      StepKeepsConsistency(Run(events[..|events| - 1]), events[|events| - 1]);
    }
  }

  // ----- One step

  /** The device belongs to a client, and the asset exists, belongs to the same client, and is neither
      deleted nor inactive. */
  predicate MayCarry(db: Db, d: int, a: int) {
    && 0 <= d < |db.devices| && db.devices[d].clientId.Some?
    && a in db.assets && db.assets[a].clientId == db.devices[d].clientId
    && !db.assets[a].deleted && db.assets[a].active
  }

  /** What has to hold before the call for device d to be moved to asset a: the asset may be assigned
      to the device and is on no device, and the stay to be ended did not begin after `now`. */
  predicate CanReassign(db: Db, d: int, a: int, now: int) {
    && MayCarry(db, d, a)
    && (forall e :: 0 <= e < |db.devices| ==> db.devices[e].assetId != Some(a))
    && (forall i :: 0 <= i < |db.history| && IsOpenRow(db.history, i, d) ==> db.history[i].assignedAt <= now)
  }

  lemma ReassignedConstraints(db: Db, d: nat, a: int, now: int)
    requires Consistent(db) && d < |db.devices|
    requires forall e :: 0 <= e < |db.devices| ==> db.devices[e].assetId != Some(a)
    ensures SatisfiesConstraints(db.(devices := db.devices[d := Activated(db.devices[d].(assetId := Some(a)))],
                                     history := Append(CloseOpen(db.history, d, now), d, a, now)))
            <==> forall i :: 0 <= i < |db.history| && IsOpenRow(db.history, i, d) ==> db.history[i].assignedAt <= now
  {
    var h, n := db.history, |db.history|;
    var after := Append(CloseOpen(h, d, now), d, a, now);
    forall i | 0 <= i < n && IsOpen(after[i]) ensures after[i] == h[i] && h[i].deviceId != d && h[i].assetId != a {
      assert db.devices[h[i].deviceId].assetId == Some(h[i].assetId);
    }
    forall i | 0 <= i < n && IsOpenRow(h, i, d) ensures after[i] == h[i].(unassignedAt := Some(now)) {
    }
  }

  /** Assigning another asset succeeds exactly under these conditions. */
  lemma ReassignsExactly(db: Db, d: int, a: int, now: int)
    requires Consistent(db) && Carries(db, d) != Some(a)
    ensures Assign(db, d, a, now).1.Done? <==> CanReassign(db, d, a, now)
    ensures CanReassign(db, d, a, now) ==>
              Assign(db, d, a, now).0.history == Append(CloseOpen(db.history, d, now), d, a, now)
    ensures !CanReassign(db, d, a, now) ==> Assign(db, d, a, now).0 == db
  {
    if 0 <= d < |db.devices| {
      ActiveRow(db, d);
      var holders := Holders(db.devices, a, d);
      if AvailabilityError(db.devices, a, d).None? {
        NoHolders(db, a, d);
        ReassignedConstraints(db, d, a, now);
      } else if |holders| > 0 {
        var e := Pick(holders);
        assert db.devices[e].assetId == Some(a);
      }
    }
    if CanReassign(db, d, a, now) {
      assert Holders(db.devices, a, d) == {};
    }
  }

  /** A finished, non-empty stay of the device that ends after `now`. */
  predicate EndsLater(r: Row, d: int, now: int) {
    r.deviceId == d && r.unassignedAt.Some? && r.assignedAt < r.unassignedAt.value && now < r.unassignedAt.value
  }

  predicate Reassigns(db: Db, e: Event, d: int) {
    e.op.AssignAsset? && e.op.device == d && CanReassign(db, d, e.op.asset, e.now)
  }

  /** The device is moved to another asset by a clock reading before the end of one of its stays. */
  predicate StepsBack(db: Db, e: Event, d: int) {
    Reassigns(db, e, d) && exists i :: 0 <= i < |db.history| && EndsLater(db.history[i], d, e.now)
  }

  /** Closing a row frees instants and never covers new ones. */
  lemma StaysClear(h: seq<Row>, after: seq<Row>, now: int, d: int)
    requires ExtendedAt(h, after, now) && Clear(h, d)
    requires forall i :: |h| <= i < |after| ==> after[i].deviceId != d
    ensures Clear(after, d)
  {
    forall t ensures !Ambiguous(after, d, t) {
      assert !Ambiguous(h, d, t);
      forall i | 0 <= i < |after| && Covers(after[i], d, t) ensures i < |h| && Covers(h[i], d, t) {
      }
    }
  }

  lemma ReassignmentClears(h: seq<Row>, d: int, a: int, now: int)
    requires Clear(h, d)
    ensures Clear(Append(CloseOpen(h, d, now), d, a, now), d)
            <==> !exists i :: 0 <= i < |h| && EndsLater(h[i], d, now)
  {
    var n, after := |h|, Append(CloseOpen(h, d, now), d, a, now);
    if i :| 0 <= i < n && EndsLater(h[i], d, now) {
      var t := Max(now, h[i].assignedAt);
      assert Covers(after[i], d, t) && Covers(after[n], d, t);
      assert Ambiguous(after, d, t);
    } else {
      forall t ensures !Ambiguous(after, d, t) {
        assert !Ambiguous(h, d, t);
        forall i | 0 <= i < n && Covers(after[i], d, t) ensures Covers(h[i], d, t) && t < now {
          assert !EndsLater(h[i], d, now);
        }
      }
    }
  }

  lemma FirstRowIsClear(h: seq<Row>, d: int, row: Row)
    requires forall i :: 0 <= i < |h| ==> h[i].deviceId != d
    ensures Clear(h + [row], d)
  {
  }

  /** One operation, at any clock reading, leaves the rows of a device unambiguous exactly when it
      does not step back. */
  lemma StepStaysClearExactly(db: Db, e: Event, d: int)
    requires Consistent(db) && Clear(db.history, d)
    ensures Clear(Apply(db, e).0.history, d) <==> !StepsBack(db, e, d)
  {
    var h, after := db.history, Apply(db, e).0.history;
    ApplyExtends(db, e);
    if e.op.AssignAsset? && Carries(db, e.op.device) != Some(e.op.asset) {
      ReassignsExactly(db, e.op.device, e.op.asset, e.now);
    }
    if Reassigns(db, e, d) {
      ReassignmentClears(h, d, e.op.asset, e.now);
    } else if e.op.CreateDevice? && d == |db.devices| && |after| > |h| {
      FirstRowIsClear(h, d, after[|h|]);
      assert after == h + [after[|h|]];
    } else {
      StaysClear(h, after, e.now, d);
    }
  }

  // ----- Runs

  /** At every moment of the run the point query answers, for every instant. */
  ghost predicate AlwaysAnswers(events: seq<Event>, d: int) {
    forall k, t :: 0 <= k <= |events| ==> GetAssignmentForDeviceAt(Run(events[..k]).history, d, t).Ok?
  }

  ghost predicate AlwaysClear(events: seq<Event>, d: int) {
    forall k :: 0 <= k <= |events| ==> Clear(Run(events[..k]).history, d)
  }

  predicate NeverStepsBack(events: seq<Event>, d: int) {
    forall k :: 0 <= k < |events| ==> !StepsBack(Run(events[..k]), events[k], d)
  }

  lemma ClearStep(events: seq<Event>, k: nat, d: int)
    requires k < |events| && Clear(Run(events[..k]).history, d)
    ensures Clear(Run(events[..k + 1]).history, d) <==> !StepsBack(Run(events[..k]), events[k], d)
  {
    RunPrefix(events, k);
    RunKeepsConsistency(events[..k]);
    StepStaysClearExactly(Run(events[..k]), events[k], d);
  }

  lemma {:induction false} ClearUpTo(events: seq<Event>, k: nat, d: int)
    requires k <= |events| && NeverStepsBack(events, d)
    ensures Clear(Run(events[..k]).history, d)
  {
    if k == 0 {
      assert Run(events[..0]).history == [];
    } else {
      ClearUpTo(events, k - 1, d);
      ClearStep(events, k - 1, d);
    }
  }

  lemma ClearExactly(events: seq<Event>, d: int)
    ensures AlwaysClear(events, d) <==> NeverStepsBack(events, d)
  {
    if AlwaysClear(events, d) {
      forall k | 0 <= k < |events| ensures !StepsBack(Run(events[..k]), events[k], d) {
        assert Clear(Run(events[..k + 1]).history, d);
        ClearStep(events, k, d);
      }
    }
    if NeverStepsBack(events, d) {
      forall k | 0 <= k <= |events| ensures Clear(Run(events[..k]).history, d) {
        ClearUpTo(events, k, d);
      }
    }
  }

  /** Over every run, whatever the clock does: the point query for a device answers at every moment
      and for every instant exactly when the device is never reassigned at a clock reading before the
      end of one of its finished stays. */
  lemma QueriesAnswerExactly(events: seq<Event>, d: int)
    ensures AlwaysAnswers(events, d) <==> NeverStepsBack(events, d)
  {
    ClearExactly(events, d);
    forall k, t | 0 <= k <= |events|
      ensures GetAssignmentForDeviceAt(Run(events[..k]).history, d, t).Ok?
              <==> !Ambiguous(Run(events[..k]).history, d, t)
    {
      QueryFailsExactly(Run(events[..k]).history, d, t);
    }
  }

  /** The example: releasing at 10 and assigning again at 5 makes the query for instant 7 raise. */
  lemma DisorderedClockBreaksTheIndex()
    ensures !NeverStepsBack(CLOCK_STEPS_BACK, 0)
    ensures GetAssignmentForDeviceAt(Run(CLOCK_STEPS_BACK).history, 0, 7) == Err(MultipleResults)
  {
    ClockExampleRun();
    assert Covers(REASSIGNED.history[0], 0, 7) && Covers(REASSIGNED.history[1], 0, 7);
    assert Ambiguous(REASSIGNED.history, 0, 7);
    QueryFailsExactly(REASSIGNED.history, 0, 7);
    assert CLOCK_STEPS_BACK[..4] == CLOCK_STEPS_BACK;
    QueriesAnswerExactly(CLOCK_STEPS_BACK, 0);
  }
}
