/** The outcome of every operation of the assignment service in a consistent state, told from the
    fields of the device, the asset and the history alone. */
module AssignmentOutcomes {
  import opened Basics
  import opened DeviceAssignment
  import opened AssignmentHistory
  import opened UnorderedClocks

  /** Some other device holds the asset. */
  predicate IsTaken(db: Db, a: int, except: int) {
    exists e :: 0 <= e < |db.devices| && e != except && db.devices[e].assetId == Some(a)
  }

  /** The open stay of the device, if any, began after `now`. */
  predicate BeganLater(db: Db, d: int, now: int) {
    exists i :: 0 <= i < |db.history| && db.history[i].deviceId == d && db.history[i].unassignedAt.None?
                && now < db.history[i].assignedAt
  }

  /** A device switched on: one that was off starts in state Off. */
  function SwitchedOn(device: Device): Device {
    if device.active then device else device.(active := true, state := Off)
  }

  /** The history after device d was moved at `now`: its open stay ends, and one on asset a begins. */
  predicate MovedTo(before: seq<Row>, after: seq<Row>, d: int, a: int, now: int) {
    && |after| == |before| + 1 && after[|before|] == Row(|before|, d, a, now, None)
    && Ended(before, after[..|before|], d, now)
  }

  predicate Ended(before: seq<Row>, after: seq<Row>, d: int, now: int) {
    && |after| == |before|
    && forall i :: 0 <= i < |before| ==>
         after[i] == if before[i].deviceId == d && before[i].unassignedAt.None?
                     then before[i].(unassignedAt := Some(now)) else before[i]
  }

  lemma TakenExactly(db: Db, a: int, except: int)
    requires Consistent(db)
    ensures AvailabilityError(db.devices, a, except) == if IsTaken(db, a, except) then Some(AssetTaken) else None
  {
    var holders := Holders(db.devices, a, except);
    if IsTaken(db, a, except) {
      var e :| 0 <= e < |db.devices| && e != except && db.devices[e].assetId == Some(a);
      assert e in holders;
    }
    if |holders| > 0 {
      var x := Pick(holders);
      forall y | y in holders ensures y == x {
        OneHolder(db, a, x, y);
      }
      assert holders == {x};
    }
  }

  lemma OneHolder(db: Db, a: int, d: nat, e: nat)
    requires Consistent(db) && d < |db.devices| && e < |db.devices|
    requires db.devices[d].assetId == db.devices[e].assetId == Some(a)
    ensures d == e
  {
  }

  // ----- Assignment

  lemma AssetRefused(db: Db, d: nat, a: int)
    requires d < |db.devices| && !db.devices[d].deleted
    ensures AssignableError(db.devices[d], db.assets, a)
            == if db.devices[d].clientId.None? then Some(DeviceWithoutClient)
               else if a !in db.assets || db.assets[a].clientId != db.devices[d].clientId || db.assets[a].deleted
               then Some(AssetNotFound)
               else if !db.assets[a].active then Some(AssetInactive)
               else None
    ensures AssignableError(db.devices[d], db.assets, a).None? <==> MayCarry(db, d, a)
  {
  }

  /** What keeps asset a from device d, in the order in which it is found. */
  function Obstacle(db: Db, d: nat, a: int, now: int): Option<AssignmentError>
    requires d < |db.devices|
  {
    if db.devices[d].clientId.None? then Some(DeviceWithoutClient)
    else if a !in db.assets || db.assets[a].clientId != db.devices[d].clientId || db.assets[a].deleted
    then Some(AssetNotFound)
    else if !db.assets[a].active then Some(AssetInactive)
    else if db.devices[d].assetId == Some(a) then None
    else if IsTaken(db, a, d) then Some(AssetTaken)
    else if BeganLater(db, d, now) then Some(IntegrityViolation)
    else None
  }

  /** Assigning an asset, in every consistent state: an unknown device is told apart, an obstacle is
      raised and nothing changes, a device that already carries the asset is only switched on, and any
      other is moved. */
  lemma AssignExactly(db: Db, d: int, a: int, now: int)
    requires Consistent(db)
    ensures var (after, outcome) := Assign(db, d, a, now);
            if !(0 <= d < |db.devices|) then after == db && outcome == DeviceNotFound
            else if Obstacle(db, d, a, now).Some? then after == db && outcome == Raised(Obstacle(db, d, a, now).value)
            else
              var device := SwitchedOn(db.devices[d].(assetId := Some(a)));
              && outcome == Done(device) && after.assets == db.assets
              && after.devices == db.devices[d := device]
              && if db.devices[d].assetId == Some(a) then after.history == db.history
                 else MovedTo(db.history, after.history, d, a, now)
  {
    if 0 <= d < |db.devices| {
      AssetRefused(db, d, a);
      ActiveRow(db, d);
      if db.devices[d].assetId == Some(a) {
        if MayCarry(db, d, a) {
          AssignOwnAsset(db, d, a, now);
        }
      } else {
        TakenExactly(db, a, d);
        ReassignsExactly(db, d, a, now);
        AssignOtherAsset(db, d, a, now);
      }
    }
  }

  lemma AssignOwnAsset(db: Db, d: nat, a: int, now: int)
    requires Consistent(db) && d < |db.devices| && db.devices[d].assetId == Some(a) && MayCarry(db, d, a)
    ensures Assign(db, d, a, now)
            == (db.(devices := db.devices[d := SwitchedOn(db.devices[d])]), Done(SwitchedOn(db.devices[d])))
  {
    ActiveRow(db, d);
    assert db.devices[d].active ==> db.devices[d := db.devices[d]] == db.devices;
  }

  lemma AssignOtherAsset(db: Db, d: nat, a: int, now: int)
    requires Consistent(db) && d < |db.devices| && db.devices[d].assetId != Some(a)
    ensures Assign(db, d, a, now).1.Raised? && MayCarry(db, d, a) ==>
              Assign(db, d, a, now).1.error == if IsTaken(db, a, d) then AssetTaken else IntegrityViolation
    ensures CanReassign(db, d, a, now) <==> MayCarry(db, d, a) && !IsTaken(db, a, d) && !BeganLater(db, d, now)
    ensures CanReassign(db, d, a, now) ==>
              Assign(db, d, a, now).0.devices == db.devices[d := SwitchedOn(db.devices[d].(assetId := Some(a)))]
              && Assign(db, d, a, now).1 == Done(SwitchedOn(db.devices[d].(assetId := Some(a))))
              && Assign(db, d, a, now).0.assets == db.assets
  {
    ActiveRow(db, d);
    TakenExactly(db, a, d);
    ReassignsExactly(db, d, a, now);
    if !BeganLater(db, d, now) {
      forall i | 0 <= i < |db.history| && IsOpenRow(db.history, i, d) ensures db.history[i].assignedAt <= now {
      }
    }
  }

  // ----- Release, deactivation, creation

  /** Releasing, in every consistent state: a device without an asset is left as it is; otherwise its
      stay ends and it is switched off, unless the stay began later. */
  lemma ReleaseExactly(db: Db, d: int, now: int)
    requires Consistent(db)
    ensures var (after, outcome) := Release(db, d, now);
            if !(0 <= d < |db.devices|) then after == db && outcome == DeviceNotFound
            else if db.devices[d].assetId.None? then after == db && outcome == Done(db.devices[d])
            else if BeganLater(db, d, now) then after == db && outcome == Raised(IntegrityViolation)
            else
              var device := db.devices[d].(assetId := None, active := false, state := Off);
              && outcome == Done(device) && after.assets == db.assets
              && after.devices == db.devices[d := device] && Ended(db.history, after.history, d, now)
  {
    if 0 <= d < |db.devices| {
      ActiveRow(db, d);
      if db.devices[d].assetId.Some? {
        ReleasedConstraints(db, d, now);
      } else {
        NoOpenRow(db, d);
      }
    }
  }

  lemma NoOpenRow(db: Db, d: nat)
    requires Consistent(db) && d < |db.devices| && db.devices[d].assetId.None?
    ensures ActiveAssignment(db.history, d) == Ok(None)
  {
    SelectsNothing(db.history, (r: Row) => r.deviceId == d && IsOpen(r));
  }

  lemma ReleasedConstraints(db: Db, d: nat, now: int)
    requires Consistent(db) && d < |db.devices|
    ensures var device := db.devices[d].(assetId := None, active := false, state := Off);
            SatisfiesConstraints(db.(devices := db.devices[d := device], history := CloseOpen(db.history, d, now)))
            <==> !BeganLater(db, d, now)
  {
    var h, after := db.history, CloseOpen(db.history, d, now);
    if BeganLater(db, d, now) {
      var i :| 0 <= i < |h| && h[i].deviceId == d && h[i].unassignedAt.None? && now < h[i].assignedAt;
      assert after[i].unassignedAt == Some(now);
    }
  }

  /** Deactivating switches the device off, never fails, and leaves its assignment and its stay. */
  lemma DeactivateExactly(db: Db, d: int)
    requires Consistent(db)
    ensures var (after, outcome) := Deactivate(db, d);
            if !(0 <= d < |db.devices|) then after == db && outcome == DeviceNotFound
            else
              var device := db.devices[d].(active := false, state := Off);
              outcome == Done(device) && after == db.(devices := db.devices[d := device])
  {
  }

  /** What keeps a new device from being created with its first assignment. */
  function CreationObstacle(db: Db, persisted: bool, device: Device, a: Option<int>, asset: Asset)
    : Option<AssignmentError>
  {
    if persisted then Some(DeviceAlreadyPersisted)
    else if device.clientId.None? then Some(DeviceWithoutClient)
    else if a.None? then Some(AssetNotPersisted)
    else if asset.clientId != device.clientId || asset.deleted then Some(AssetNotFound)
    else if !asset.active then Some(AssetInactive)
    else if device.assetId.Some? then Some(NewDeviceHasAsset)
    else if IsTaken(db, a.value, -1) then Some(AssetTaken)
    else None
  }

  /** Creating, in every consistent state: an obstacle is raised and nothing changes; otherwise the
      device is added with the asset, and its first stay begins. */
  lemma CreateExactly(db: Db, persisted: bool, device: Device, a: Option<int>, asset: Asset, now: int)
    requires Consistent(db)
    ensures var (after, outcome) := CreateInitial(db, persisted, device, a, asset, now);
            var obstacle := CreationObstacle(db, persisted, device, a, asset);
            if obstacle.Some? then after == db && outcome == Raised(obstacle.value)
            else
              var created := device.(assetId := a, deleted := false);
              outcome == Done(created)
              && after == db.(devices := db.devices + [created],
                              history := db.history + [Row(|db.history|, |db.devices|, a.value, now, None)])
  {
    if a.Some? {
      TakenExactly(db, a.value, -1);
      if CreationObstacle(db, persisted, device, a, asset).None? {
        CreatedConstraints(db, device, a.value, now);
      }
    }
  }

  lemma CreatedConstraints(db: Db, device: Device, a: int, now: int)
    requires Consistent(db) && !IsTaken(db, a, -1)
    ensures SatisfiesConstraints(db.(devices := db.devices + [device.(assetId := Some(a), deleted := false)],
                                     history := Append(db.history, |db.devices|, a, now)))
  {
    var h := db.history;
    forall i | 0 <= i < |h| && IsOpen(h[i]) ensures h[i].assetId != a && h[i].deviceId != |db.devices| {
      assert db.devices[h[i].deviceId].assetId == Some(h[i].assetId);
    }
  }

  // ----- Over runs

  /** Whenever an assignment or a creation commits, at any step of any run under any clock, device and
      asset belong to one and the same client at that moment. */
  lemma OneClientAtEveryCommit(events: seq<Event>, k: nat)
    requires k < |events| && Apply(Run(events[..k]), events[k]).1.Done?
    ensures var db := Run(events[..k]);
            match events[k].op
            case AssignAsset(d, a) =>
              && 0 <= d < |db.devices| && a in db.assets && !db.assets[a].deleted && db.assets[a].active
              && db.devices[d].clientId.Some? && db.assets[a].clientId == db.devices[d].clientId
            case CreateDevice(_, device, a, asset) =>
              a.Some? && device.clientId.Some? && asset.clientId == device.clientId && !asset.deleted && asset.active
            case _ => true
  {
    var db := Run(events[..k]);
    RunKeepsConsistency(events[..k]);
    match events[k].op
    case AssignAsset(d, a) => AssignExactly(db, d, a, events[k].now);
    case CreateDevice(p, device, a, asset) => CreateExactly(db, p, device, a, asset, events[k].now);
    case _ =>
  }

  /** An asset of another client is refused. */
  lemma ForeignAssetIsRefused(db: Db, now: int)
    requires Consistent(db) && db.devices == [Device(Some(1), None, true, Off, false).(active := false)]
    requires db.assets == map[7 := Asset(Some(2), false, true)]
    ensures Assign(db, 0, 7, now) == (db, Raised(AssetNotFound))
  {
    AssignExactly(db, 0, 7, now);
  }
}
