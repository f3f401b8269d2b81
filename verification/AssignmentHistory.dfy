/** Runs of the assignment service: the history table is a faithful temporal index of what the
    operations did, and the current pointer always agrees with it. */
module AssignmentHistory {
  import opened Basics
  import opened DeviceAssignment

  datatype Operation =
    | AssignAsset(device: int, asset: int)
    | ReleaseAsset(device: int)
    | CreateDevice(persisted: bool, newDevice: Device, initialAsset: Option<int>, assetRecord: Asset)
    | DeactivateDevice(device: int)
    | EditAssets(assets: map<int, Asset>)

  /** An operation with the clock reading its transaction used. */
  datatype Event = Event(now: int, op: Operation)

  /** `deactivate_device` switches a device off and leaves its assignment alone. */
  function Deactivate(db: Db, d: int): (Db, Outcome) {
    if !(0 <= d < |db.devices|) then (db, DeviceNotFound)
    else
      var updated := db.devices[d].(active := false, state := Off);
      Commit(db, db.(devices := db.devices[d := updated]), updated)
  }

  function Apply(db: Db, e: Event): (Db, Outcome) {
    match e.op
    case AssignAsset(d, a) => Assign(db, d, a, e.now)
    case ReleaseAsset(d) => Release(db, d, e.now)
    case CreateDevice(p, device, a, asset) => CreateInitial(db, p, device, a, asset, e.now)
    case DeactivateDevice(d) => Deactivate(db, d)
    case EditAssets(assets) => (db.(assets := assets), AssetsEdited)
  }

  const EMPTY := Db([], map[], [])

  function Run(events: seq<Event>): Db {
    if events == [] then EMPTY
    else Apply(Run(events[..|events| - 1]), events[|events| - 1]).0
  }

  /** The clock never runs backwards. */
  predicate Chronological(events: seq<Event>) {
    forall i, j :: 0 <= i < j < |events| ==> events[i].now <= events[j].now
  }

  // ----- The invariant

  /** Earlier row ended before the later one began. */
  predicate Precedes(r: Row, s: Row) {
    r.unassignedAt.Some? && r.unassignedAt.value <= s.assignedAt
  }

  predicate Stamped(r: Row, clock: int) {
    r.assignedAt <= clock
    && (r.unassignedAt.Some? ==> r.assignedAt <= r.unassignedAt.value <= clock)
  }

  /** Rows are numbered, stamped in the past, in order of assignment, and disjoint in time for each
      device and for each asset. */
  predicate HistoryOk(h: seq<Row>, clock: int) {
    && RowsNumbered(h)
    && (forall i :: 0 <= i < |h| ==> Stamped(h[i], clock))
    && (forall i, j :: 0 <= i < j < |h| ==> h[i].assignedAt <= h[j].assignedAt)
    && (forall i, j :: 0 <= i < j < |h| && (h[i].deviceId == h[j].deviceId || h[i].assetId == h[j].assetId) ==>
                         Precedes(h[i], h[j]))
  }

  /** Row i is the open row of device d. */
  predicate IsOpenRow(h: seq<Row>, i: int, d: int) {
    0 <= i < |h| && h[i].deviceId == d && IsOpen(h[i])
  }

  /** The pointer of a device is set exactly when it has an open row, and then they agree; nothing
      is deleted, and an active device has an asset. */
  ghost predicate PointersOk(db: Db) {
    && (forall i :: 0 <= i < |db.history| ==> 0 <= db.history[i].deviceId < |db.devices|)
    && (forall i :: 0 <= i < |db.history| && IsOpen(db.history[i]) ==>
                      db.devices[db.history[i].deviceId].assetId == Some(db.history[i].assetId))
    && (forall d :: 0 <= d < |db.devices| && db.devices[d].assetId.Some? ==>
                      exists i :: IsOpenRow(db.history, i, d))
    && (forall d :: 0 <= d < |db.devices| ==> !db.devices[d].deleted)
    && (forall d :: 0 <= d < |db.devices| && db.devices[d].active ==> db.devices[d].assetId.Some?)
  }

  ghost predicate Inv(db: Db, clock: int) {
    HistoryOk(db.history, clock) && PointersOk(db)
  }

  /** Two open rows belong to different devices and different assets. */
  lemma OpenRowsDiffer(h: seq<Row>, clock: int, i: nat, j: nat)
    requires HistoryOk(h, clock) && i < |h| && j < |h| && i != j && IsOpen(h[i]) && IsOpen(h[j])
    ensures h[i].deviceId != h[j].deviceId && h[i].assetId != h[j].assetId
  {
    assert if i < j then !Precedes(h[i], h[j]) else !Precedes(h[j], h[i]);
  }

  /** Two devices never hold the same asset. */
  lemma HoldersDiffer(db: Db, clock: int, d: nat, e: nat)
    requires Inv(db, clock) && d < |db.devices| && e < |db.devices| && d != e
    ensures db.devices[d].assetId.None? || db.devices[d].assetId != db.devices[e].assetId
  {
    if db.devices[d].assetId.Some? && db.devices[e].assetId.Some? {
      var i :| IsOpenRow(db.history, i, d);
      var j :| IsOpenRow(db.history, j, e);
      OpenRowsDiffer(db.history, clock, i, j);
    }
  }

  /** The invariant subsumes every database constraint, so no commit is ever refused. */
  lemma InvSatisfiesConstraints(db: Db, clock: int)
    requires Inv(db, clock)
    ensures SatisfiesConstraints(db)
  {
    var h, devices := db.history, db.devices;
    forall i, j | 0 <= i < j < |h| && IsOpen(h[i]) && IsOpen(h[j])
      ensures h[i].deviceId != h[j].deviceId && h[i].assetId != h[j].assetId
    {
      OpenRowsDiffer(h, clock, i, j);
    }
    forall d, e | 0 <= d < e < |devices|
      ensures devices[d].assetId.None? || devices[d].assetId != devices[e].assetId
    {
      HoldersDiffer(db, clock, d, e);
    }
    forall i | 0 <= i < |h| ensures IsOpen(h[i]) || h[i].assignedAt <= h[i].unassignedAt.value {
      assert Stamped(h[i], clock);
    }
  }

  // ----- What the service reads in a state satisfying the invariant

  lemma ActiveRowFound(db: Db, clock: int, d: nat)
    requires Inv(db, clock) && d < |db.devices|
    ensures match db.devices[d].assetId
            case None => ActiveAssignment(db.history, d) == Ok(None)
            case Some(a) =>
              var found := ActiveAssignment(db.history, d);
              found.Ok? && found.value.Some? && found.value.value.assetId == a
  {
    var h := db.history;
    var p := (r: Row) => r.deviceId == d && IsOpen(r);
    if db.devices[d].assetId.Some? {
      var i :| IsOpenRow(h, i, d);
      forall j | 0 <= j < |h| && j != i ensures !p(h[j]) {
        if p(h[j]) {
          OpenRowsDiffer(h, clock, i, j);
        }
      }
      SelectsOnly(h, p, i);
    } else {
      SelectsNothing(h, p);
    }
  }

  // ----- Every operation keeps the invariant

  lemma ClosedHistory(h: seq<Row>, d: int, clock: int, now: int)
    requires HistoryOk(h, clock) && clock <= now
    ensures HistoryOk(CloseOpen(h, d, now), now)
  {
    var c := CloseOpen(h, d, now);
    forall i | 0 <= i < |c| ensures Stamped(c[i], now) && c[i].id == i {
      assert Stamped(h[i], clock);
    }
    forall i, j | 0 <= i < j < |c| ensures c[i].assignedAt <= c[j].assignedAt {
      assert h[i].assignedAt <= h[j].assignedAt;
    }
    forall i, j | 0 <= i < j < |c| && (c[i].deviceId == c[j].deviceId || c[i].assetId == c[j].assetId)
      ensures Precedes(c[i], c[j])
    {
      assert Precedes(h[i], h[j]);
    }
  }

  lemma AppendedHistory(h: seq<Row>, d: int, a: int, now: int)
    requires HistoryOk(h, now)
    requires forall i :: 0 <= i < |h| && (h[i].deviceId == d || h[i].assetId == a) ==> !IsOpen(h[i])
    ensures HistoryOk(Append(h, d, a, now), now)
  {
    var after := Append(h, d, a, now);
    forall i | 0 <= i < |after| ensures Stamped(after[i], now) && after[i].id == i {
      assert i < |h| ==> Stamped(h[i], now);
    }
    forall i, j | 0 <= i < j < |after|
      ensures after[i].assignedAt <= after[j].assignedAt
      ensures after[i].deviceId == after[j].deviceId || after[i].assetId == after[j].assetId ==>
                Precedes(after[i], after[j])
    {
      assert Stamped(h[i], now);
    }
  }

  lemma LaterClock(db: Db, clock: int, now: int)
    requires Inv(db, clock) && clock <= now
    ensures Inv(db, now)
  {
    forall i | 0 <= i < |db.history| ensures Stamped(db.history[i], now) {
      assert Stamped(db.history[i], clock);
    }
  }

  lemma ReleasedState(db: Db, d: nat, clock: int, now: int)
    requires Inv(db, clock) && clock <= now && d < |db.devices|
    ensures Inv(db.(devices := db.devices[d := db.devices[d].(assetId := None, active := false, state := Off)],
                    history := CloseOpen(db.history, d, now)), now)
  {
    var h := db.history;
    var c := CloseOpen(h, d, now);
    ClosedHistory(h, d, clock, now);
    forall e | 0 <= e < |db.devices| && e != d && db.devices[e].assetId.Some?
      ensures exists i :: IsOpenRow(c, i, e)
    {
      var i :| IsOpenRow(h, i, e);
      assert IsOpenRow(c, i, e);
    }
  }

  lemma AssignedState(db: Db, d: nat, a: int, clock: int, now: int)
    requires Inv(db, clock) && clock <= now && d < |db.devices|
    requires forall e :: 0 <= e < |db.devices| && e != d ==> db.devices[e].assetId != Some(a)
    requires db.devices[d].assetId != Some(a)
    ensures Inv(db.(devices := db.devices[d := Activated(db.devices[d].(assetId := Some(a)))],
                    history := Append(CloseOpen(db.history, d, now), d, a, now)), now)
  {
    var h := db.history;
    var c := CloseOpen(h, d, now);
    ClosedHistory(h, d, clock, now);
    forall i | 0 <= i < |c| && (c[i].deviceId == d || c[i].assetId == a) ensures !IsOpen(c[i]) {
      var holder := h[i].deviceId;
      assert IsOpen(h[i]) ==> db.devices[holder].assetId == Some(h[i].assetId);
    }
    AppendedHistory(c, d, a, now);
    var after := Append(c, d, a, now);
    assert IsOpenRow(after, |c|, d);
    forall e | 0 <= e < |db.devices| && e != d && db.devices[e].assetId.Some?
      ensures exists i :: IsOpenRow(after, i, e)
    {
      var i :| IsOpenRow(h, i, e);
      assert IsOpenRow(after, i, e);
    }
  }

  lemma CreatedState(db: Db, device: Device, a: int, clock: int, now: int)
    requires Inv(db, clock) && clock <= now
    requires forall e :: 0 <= e < |db.devices| ==> db.devices[e].assetId != Some(a)
    ensures Inv(db.(devices := db.devices + [device.(assetId := Some(a), deleted := false)],
                    history := Append(db.history, |db.devices|, a, now)), now)
  {
    var h := db.history;
    LaterClock(db, clock, now);
    AppendedHistory(h, |db.devices|, a, now);
    var after := Append(h, |db.devices|, a, now);
    assert IsOpenRow(after, |h|, |db.devices|);
    forall e | 0 <= e < |db.devices| && db.devices[e].assetId.Some?
      ensures exists i :: IsOpenRow(after, i, e)
    {
      var i :| IsOpenRow(h, i, e);
      assert IsOpenRow(after, i, e);
    }
  }

  lemma TouchedState(db: Db, d: nat, device: Device, clock: int)
    requires Inv(db, clock) && d < |db.devices|
    requires device.assetId == db.devices[d].assetId && !device.deleted
    requires device.active ==> device.assetId.Some?
    ensures Inv(db.(devices := db.devices[d := device]), clock)
  {
  }

  lemma NoHolders(db: Db, a: int, except: int)
    requires forall d :: 0 <= d < |db.devices| ==> !db.devices[d].deleted
    requires AvailabilityError(db.devices, a, except).None?
    ensures forall d :: 0 <= d < |db.devices| && d != except ==> db.devices[d].assetId != Some(a)
  {
    var holders := Holders(db.devices, a, except);
    forall d | 0 <= d < |db.devices| && d != except ensures db.devices[d].assetId != Some(a) {
      assert db.devices[d].assetId == Some(a) ==> d in holders;
    }
  }

  /** Which errors the caller's input can cause; the remaining ones would mean a corrupt state. */
  predicate IsCallerError(e: AssignmentError) {
    e != InvariantBroken && e != MultipleResults && e != IntegrityViolation
  }

  lemma AssignKeepsInv(db: Db, d: int, a: int, clock: int, now: int)
    requires Inv(db, clock) && clock <= now
    ensures Inv(Assign(db, d, a, now).0, now)
    ensures Assign(db, d, a, now).1.Raised? ==>
              Assign(db, d, a, now).0 == db && IsCallerError(Assign(db, d, a, now).1.error)
  {
    LaterClock(db, clock, now);
    if 0 <= d < |db.devices| {
      if db.devices[d].assetId == Some(a) {
        AssignSameKeepsInv(db, d, a, clock, now);
      } else {
        AssignOtherKeepsInv(db, d, a, clock, now);
      }
    }
  }

  lemma AssignSameKeepsInv(db: Db, d: nat, a: int, clock: int, now: int)
    requires Inv(db, clock) && Inv(db, now) && d < |db.devices| && db.devices[d].assetId == Some(a)
    ensures Inv(Assign(db, d, a, now).0, now)
    ensures Assign(db, d, a, now).1.Raised? ==>
              Assign(db, d, a, now).0 == db && IsCallerError(Assign(db, d, a, now).1.error)
  {
    var activated := Activated(db.devices[d]);
    ActiveRowFound(db, clock, d);
    TouchedState(db, d, activated, now);
    InvSatisfiesConstraints(db.(devices := db.devices[d := activated]), now);
  }

  lemma AssignOtherKeepsInv(db: Db, d: nat, a: int, clock: int, now: int)
    requires Inv(db, clock) && clock <= now && d < |db.devices| && db.devices[d].assetId != Some(a)
    requires Inv(db, now)
    ensures Inv(Assign(db, d, a, now).0, now)
    ensures Assign(db, d, a, now).1.Raised? ==>
              Assign(db, d, a, now).0 == db && IsCallerError(Assign(db, d, a, now).1.error)
  {
    ActiveRowFound(db, clock, d);
    AtMostOneHolder(db, clock, a, d);
    if AvailabilityError(db.devices, a, d).None? {
      NoHolders(db, a, d);
      AssignedState(db, d, a, clock, now);
      InvSatisfiesConstraints(
        db.(devices := db.devices[d := Activated(db.devices[d].(assetId := Some(a)))],
            history := Append(CloseOpen(db.history, d, now), d, a, now)), now);
    }
  }

  lemma AtMostOneHolder(db: Db, clock: int, a: int, except: int)
    requires Inv(db, clock)
    ensures AvailabilityError(db.devices, a, except) != Some(MultipleResults)
  {
    var holders := Holders(db.devices, a, except);
    if |holders| > 0 {
      var x := Pick(holders);
      forall y | y in holders ensures y == x {
        if y != x {
          HoldersDiffer(db, clock, x, y);
        }
      }
      assert holders == {x};
    }
  }

  lemma ReleaseKeepsInv(db: Db, d: int, clock: int, now: int)
    requires Inv(db, clock) && clock <= now
    ensures Inv(Release(db, d, now).0, now)
    ensures !Release(db, d, now).1.Raised?
  {
    LaterClock(db, clock, now);
    if 0 <= d < |db.devices| {
      ActiveRowFound(db, clock, d);
      if db.devices[d].assetId.Some? {
        ReleasedState(db, d, clock, now);
        InvSatisfiesConstraints(
          db.(devices := db.devices[d := db.devices[d].(assetId := None, active := false, state := Off)],
              history := CloseOpen(db.history, d, now)), now);
      }
    }
  }

  lemma CreateKeepsInv(db: Db, persisted: bool, device: Device, a: Option<int>, asset: Asset, clock: int, now: int)
    requires Inv(db, clock) && clock <= now
    ensures var r := CreateInitial(db, persisted, device, a, asset, now);
            Inv(r.0, now) && (r.1.Raised? ==> r.0 == db && IsCallerError(r.1.error))
  {
    LaterClock(db, clock, now);
    if NewDeviceError(persisted, device, a, asset).None? {
      AtMostOneHolder(db, clock, a.value, -1);
      if AvailabilityError(db.devices, a.value, -1).None? {
        NoHolders(db, a.value, -1);
        CreatedState(db, device, a.value, clock, now);
        InvSatisfiesConstraints(
          db.(devices := db.devices + [device.(assetId := a, deleted := false)],
              history := Append(db.history, |db.devices|, a.value, now)), now);
      }
    }
  }

  /** Every operation keeps the invariant; when it raises, nothing has changed and the fault is
      the caller's: the internal consistency checks and the table constraints never fire. */
  lemma ApplyKeepsInv(db: Db, e: Event, clock: int)
    requires Inv(db, clock) && clock <= e.now
    ensures Inv(Apply(db, e).0, e.now)
    ensures Apply(db, e).1.Raised? ==> Apply(db, e).0 == db && IsCallerError(Apply(db, e).1.error)
  {
    match e.op
    case AssignAsset(d, a) => AssignKeepsInv(db, d, a, clock, e.now);
    case ReleaseAsset(d) => ReleaseKeepsInv(db, d, clock, e.now);
    case CreateDevice(p, device, a, asset) => CreateKeepsInv(db, p, device, a, asset, clock, e.now);
    case DeactivateDevice(d) =>
      LaterClock(db, clock, e.now);
      if 0 <= d < |db.devices| {
        TouchedState(db, d, db.devices[d].(active := false, state := Off), e.now);
        InvSatisfiesConstraints(db.(devices := db.devices[d := db.devices[d].(active := false, state := Off)]), e.now);
      }
    case EditAssets(assets) =>
      LaterClock(db, clock, e.now);
  }

  function LastClock(events: seq<Event>): int {
    if events == [] then 0 else events[|events| - 1].now
  }

  /** The invariant holds after every chronological run. */
  lemma {:induction false} RunKeepsInv(events: seq<Event>)
    requires Chronological(events)
    ensures Inv(Run(events), LastClock(events))
  {
    if events != [] {
      var n := |events| - 1;
      var init := events[..n];
      RunKeepsInv(init);
      if init == [] {
        assert Inv(EMPTY, events[n].now);
        ApplyKeepsInv(EMPTY, events[n], events[n].now);
      } else {
        ApplyKeepsInv(Run(init), events[n], LastClock(init));
      }
    }
  }

  // ----- The current pointer and the history

  /** In every reachable state: a device points to an asset exactly when it has an open row, that
      row is unique and names the asset, no other device points to it, and active implies one. */
  lemma PointerAgreesWithHistory(events: seq<Event>, d: nat)
    requires Chronological(events) && d < |Run(events).devices|
    ensures var db := Run(events);
            var device := db.devices[d];
            && (device.assetId.Some? <==> exists i :: IsOpenRow(db.history, i, d))
            && (forall i :: IsOpenRow(db.history, i, d) ==> device.assetId == Some(db.history[i].assetId))
            && (forall i, j :: IsOpenRow(db.history, i, d) && IsOpenRow(db.history, j, d) ==> i == j)
            && (forall e :: 0 <= e < |db.devices| && e != d && device.assetId.Some? ==>
                              db.devices[e].assetId != device.assetId)
            && (device.active ==> device.assetId.Some?)
  {
    RunKeepsInv(events);
    var db, clock := Run(events), LastClock(events);
    forall i, j | IsOpenRow(db.history, i, d) && IsOpenRow(db.history, j, d) ensures i == j {
      if i != j {
        OpenRowsDiffer(db.history, clock, i, j);
      }
    }
    forall e | 0 <= e < |db.devices| && e != d && db.devices[d].assetId.Some?
      ensures db.devices[e].assetId != db.devices[d].assetId
    {
      HoldersDiffer(db, clock, d, e);
    }
  }

  // ----- The history answers questions about the past

  /** The events stamped no later than t. */
  function UpTo(events: seq<Event>, t: int): seq<Event> {
    if events == [] then []
    else if events[|events| - 1].now <= t then events
    else UpTo(events[..|events| - 1], t)
  }

  /** The asset device d carries in a state; none if the device does not exist. */
  function Carries(db: Db, d: int): Option<int> {
    if 0 <= d < |db.devices| then db.devices[d].assetId else None
  }

  /** Exactly the rows the point query selects, by position: none, or one naming the asset. */
  ghost predicate Answers(h: seq<Row>, d: int, t: int, held: Option<int>) {
    match held
    case None => forall i :: 0 <= i < |h| ==> !Covers(h[i], d, t)
    case Some(a) => exists i :: 0 <= i < |h| && IsTheAnswer(h, i, d, t, a)
  }

  ghost predicate IsTheAnswer(h: seq<Row>, i: int, d: int, t: int, a: int)
    requires 0 <= i < |h|
  {
    Covers(h[i], d, t) && h[i].assetId == a && forall j :: 0 <= j < |h| && j != i ==> !Covers(h[j], d, t)
  }

  lemma PresentAnswers(db: Db, clock: int, d: int, t: int)
    requires Inv(db, clock) && clock <= t
    ensures Answers(db.history, d, t, Carries(db, d))
  {
    var h := db.history;
    forall i | 0 <= i < |h| ensures Covers(h[i], d, t) <==> IsOpenRow(h, i, d) {
      assert Stamped(h[i], clock);
    }
    if Carries(db, d).Some? {
      var i :| IsOpenRow(h, i, d);
      forall j | 0 <= j < |h| && j != i ensures !Covers(h[j], d, t) {
        if IsOpenRow(h, j, d) {
          OpenRowsDiffer(h, clock, i, j);
        }
      }
      assert IsTheAnswer(h, i, d, t, h[i].assetId);
    }
  }

  /** How a transaction at `now` may change the history: rows end at `now` or start at `now`. */
  predicate ExtendedAt(h: seq<Row>, after: seq<Row>, now: int) {
    && |h| <= |after|
    && (forall i :: 0 <= i < |h| ==>
          after[i] == h[i] || (IsOpen(h[i]) && after[i] == h[i].(unassignedAt := Some(now))))
    && (forall i :: |h| <= i < |after| ==> after[i].assignedAt == now)
  }

  lemma ApplyExtends(db: Db, e: Event)
    ensures ExtendedAt(db.history, Apply(db, e).0.history, e.now)
  {
  }

  /** Nothing before `now` is rewritten. */
  lemma PastUnchanged(h: seq<Row>, after: seq<Row>, now: int, d: int, t: int, held: Option<int>)
    requires ExtendedAt(h, after, now) && t < now && Answers(h, d, t, held)
    ensures Answers(after, d, t, held)
  {
    forall i | 0 <= i < |h| ensures Covers(after[i], d, t) == Covers(h[i], d, t) && after[i].assetId == h[i].assetId {
    }
    if held.Some? {
      var i :| 0 <= i < |h| && IsTheAnswer(h, i, d, t, held.value);
      assert IsTheAnswer(after, i, d, t, held.value);
    }
  }

  lemma {:induction false} HistoryIsIndex(events: seq<Event>, d: int, t: int)
    requires Chronological(events)
    ensures Answers(Run(events).history, d, t, Carries(Run(UpTo(events, t)), d))
  {
    if events != [] {
      var n := |events| - 1;
      if events[n].now <= t {
        RunKeepsInv(events);
        PresentAnswers(Run(events), events[n].now, d, t);
      } else {
        HistoryIsIndex(events[..n], d, t);
        ApplyExtends(Run(events[..n]), events[n]);
        PastUnchanged(Run(events[..n]).history, Run(events).history, events[n].now, d, t,
                      Carries(Run(UpTo(events, t)), d));
      }
    }
  }

  /** The history is a faithful temporal index: asking it who device d carried at any instant t
      gives what replaying the operations stamped up to t leaves the device carrying, equal stamps
      and empty intervals included, and the query never meets two rows. */
  lemma PointQueryReplaysThePast(events: seq<Event>, d: int, t: int)
    requires Chronological(events)
    ensures var answer := GetAssignmentForDeviceAt(Run(events).history, d, t);
            match Carries(Run(UpTo(events, t)), d)
            case None => answer == Ok(None)
            case Some(a) => answer.Ok? && answer.value.Some?
                            && answer.value.value.deviceId == d && answer.value.value.assetId == a
  {
    HistoryIsIndex(events, d, t);
    var h := Run(events).history;
    var p := (r: Row) => Covers(r, d, t);
    match Carries(Run(UpTo(events, t)), d)
    case None => SelectsNothing(h, p);
    case Some(a) =>
      var i :| 0 <= i < |h| && IsTheAnswer(h, i, d, t, a);
      SelectsOnly(h, p, i);
  }

  const COW := Asset(Some(1), false, true)

  const COLLAR := Device(Some(1), None, true, Off, false)

  /** A device assigned at 0, released at 10 and, by a clock that stepped back, assigned at 5. */
  const CLOCK_STEPS_BACK := [
    Event(0, EditAssets(map[7 := COW])),
    Event(0, CreateDevice(false, COLLAR, Some(7), COW)),
    Event(10, ReleaseAsset(0)),
    Event(5, AssignAsset(0, 7))]

  const BARE := Db([], map[7 := COW], [])

  const ASSIGNED := Db([COLLAR.(assetId := Some(7))], map[7 := COW], [Row(0, 0, 7, 0, None)])

  const RELEASED := Db([COLLAR.(active := false)], map[7 := COW], [Row(0, 0, 7, 0, Some(10))])

  const REASSIGNED := Db([COLLAR.(assetId := Some(7))], map[7 := COW],
                         [Row(0, 0, 7, 0, Some(10)), Row(1, 0, 7, 5, None)])

  lemma ClockExampleCreates()
    ensures CreateInitial(BARE, false, COLLAR, Some(7), COW, 0).0 == ASSIGNED
  {
    assert Holders([], 7, -1) == {};
    assert SatisfiesConstraints(ASSIGNED);
  }

  lemma ClockExampleReleases()
    ensures Release(ASSIGNED, 0, 10).0 == RELEASED
  {
    var h := ASSIGNED.history;
    SelectsOnly(h, (r: Row) => r.deviceId == 0 && IsOpen(r), 0);
    assert CloseOpen(h, 0, 10) == RELEASED.history;
    assert SatisfiesConstraints(RELEASED);
  }

  lemma ClockExampleReassigns()
    ensures Assign(RELEASED, 0, 7, 5).0 == REASSIGNED
  {
    var h := RELEASED.history;
    SelectsNothing(h, (r: Row) => r.deviceId == 0 && IsOpen(r));
    assert Holders(RELEASED.devices, 7, 0) == {};
    assert CloseOpen(h, 0, 5) == h;
    assert SatisfiesConstraints(REASSIGNED);
  }

  lemma ClockExampleRun()
    ensures Run(CLOCK_STEPS_BACK) == REASSIGNED
  {
    ClockExampleReleased();
    ClockExampleReassigns();
    RunPrefix(CLOCK_STEPS_BACK, 3);
    assert CLOCK_STEPS_BACK[..4] == CLOCK_STEPS_BACK;
  }

  lemma ClockExampleReleased()
    ensures Run(CLOCK_STEPS_BACK[..3]) == RELEASED
  {
    ClockExampleAssigned();
    ClockExampleReleases();
    RunPrefix(CLOCK_STEPS_BACK, 2);
  }

  lemma ClockExampleAssigned()
    ensures Run(CLOCK_STEPS_BACK[..2]) == ASSIGNED
  {
    assert Run(CLOCK_STEPS_BACK[..0]) == EMPTY;
    RunPrefix(CLOCK_STEPS_BACK, 0);
    assert Run(CLOCK_STEPS_BACK[..1]) == BARE;
    ClockExampleCreates();
    RunPrefix(CLOCK_STEPS_BACK, 1);
  }

  lemma RunPrefix(events: seq<Event>, k: nat)
    requires k < |events|
    ensures Run(events[..k + 1]) == Apply(Run(events[..k]), events[k]).0
  {
    assert events[..k + 1][..k] == events[..k];
  }

  // ----- Range queries over one asset

  predicate InRange(r: Row, asset: int, from: Option<int>, to: Option<int>) {
    && r.assetId == asset
    && (to.Some? ==> r.assignedAt < to.value)
    && (from.Some? ==> IsOpen(r) || r.unassignedAt.value > from.value)
  }

  /** What the database may return for the range query: the selected rows, each once, ordered by
      start; the order among equal starts is the database's choice. */
  ghost predicate IsRangeResult(h: seq<Row>, asset: int, from: Option<int>, to: Option<int>, rs: seq<Row>) {
    && (forall k :: 0 <= k < |rs| ==> rs[k].id < |h| && h[rs[k].id] == rs[k] && InRange(rs[k], asset, from, to))
    && (forall k, l :: 0 <= k < l < |rs| ==> rs[k].id != rs[l].id && rs[k].assignedAt <= rs[l].assignedAt)
    && (forall i :: 0 <= i < |h| && InRange(h[i], asset, from, to) ==> exists k :: 0 <= k < |rs| && rs[k].id == i)
  }

  predicate IsEmptyInterval(r: Row) {
    r.unassignedAt == Some(r.assignedAt)
  }

  /** Instant t belongs to the row's interval and to the requested range. */
  predicate Shared(r: Row, from: Option<int>, to: Option<int>, t: int) {
    && r.assignedAt <= t && (IsOpen(r) || t < r.unassignedAt.value)
    && (from.Some? ==> from.value <= t) && (to.Some? ==> t < to.value)
  }

  /** A non-empty stay of the asset on a device is selected exactly when it shares an instant with
      the range; the only other rows selected are empty stays strictly inside it. */
  lemma SelectedIffOverlapping(r: Row, clock: int, from: Option<int>, to: Option<int>)
    requires Stamped(r, clock) && (from.Some? && to.Some? ==> from.value < to.value)
    ensures !IsEmptyInterval(r) ==>
              (InRange(r, r.assetId, from, to) <==> exists t :: Shared(r, from, to, t))
    ensures IsEmptyInterval(r) && InRange(r, r.assetId, from, to) ==>
              (from.Some? ==> from.value < r.assignedAt) && (to.Some? ==> r.assignedAt < to.value)
  {
    if !IsEmptyInterval(r) && InRange(r, r.assetId, from, to) {
      var t := if from.Some? then Max(r.assignedAt, from.value) else r.assignedAt;
      assert Shared(r, from, to, t);
    }
  }

  /** Whatever order the database gives to equal starts, the result of the range query holds every
      overlapping stay of the asset exactly once and its non-empty stays follow each other in time
      without overlap. */
  lemma RangeQueryIsATimeline(events: seq<Event>, asset: int, from: Option<int>, to: Option<int>, rs: seq<Row>)
    requires Chronological(events) && (from.Some? && to.Some? ==> from.value < to.value)
    requires IsRangeResult(Run(events).history, asset, from, to, rs)
    ensures var h := Run(events).history;
            forall i, t :: 0 <= i < |h| && h[i].assetId == asset && Shared(h[i], from, to, t) ==>
              exists k :: 0 <= k < |rs| && rs[k].id == i
    ensures forall k :: 0 <= k < |rs| && !IsEmptyInterval(rs[k]) ==> exists t :: Shared(rs[k], from, to, t)
    ensures forall k, l :: 0 <= k < l < |rs| && !IsEmptyInterval(rs[k]) && !IsEmptyInterval(rs[l]) ==>
              Precedes(rs[k], rs[l])
  {
    RunKeepsInv(events);
    var h, clock := Run(events).history, LastClock(events);
    forall i, t | 0 <= i < |h| && h[i].assetId == asset && Shared(h[i], from, to, t)
      ensures exists k :: 0 <= k < |rs| && rs[k].id == i
    {
      assert InRange(h[i], asset, from, to);
    }
    forall k | 0 <= k < |rs| && !IsEmptyInterval(rs[k]) ensures exists t :: Shared(rs[k], from, to, t) {
      assert Stamped(h[rs[k].id], clock);
      SelectedIffOverlapping(rs[k], clock, from, to);
    }
    forall i, j | 0 <= i < j < |h| && h[i].assetId == h[j].assetId && !IsEmptyInterval(h[i])
      ensures h[i].assignedAt < h[j].assignedAt
    {
      assert Stamped(h[i], clock) && Precedes(h[i], h[j]);
    }
    forall k, l | 0 <= k < l < |rs| && !IsEmptyInterval(rs[k]) && !IsEmptyInterval(rs[l])
      ensures Precedes(rs[k], rs[l])
    {
      var i, j := rs[k].id, rs[l].id;
      assert h[i].assignedAt <= h[j].assignedAt;
    }
  }
}
