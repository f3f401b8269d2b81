/** Assignment of devices to assets with its history
    (src/service/device_assignment_service.py, src/models/device_asset_assignment.py).

    A device is identified by its position in the device table, a history row by its position in
    the history. Each operation is one database transaction: a raise leaves the state unchanged. */
module DeviceAssignment {
  import opened Basics

  datatype DeviceState = On | Off

  datatype Device = Device(
    clientId: Option<int>, assetId: Option<int>, active: bool, state: DeviceState, deleted: bool)

  datatype Asset = Asset(clientId: Option<int>, deleted: bool, active: bool)

  /** The half-open interval [assignedAt, unassignedAt) during which a device carried an asset. */
  datatype Row = Row(
    id: nat, deviceId: int, assetId: int, assignedAt: int, unassignedAt: Option<int>)

  datatype Db = Db(devices: seq<Device>, assets: map<int, Asset>, history: seq<Row>)

  datatype AssignmentError =
    | DeviceAlreadyPersisted | DeviceWithoutClient | AssetNotPersisted | AssetNotFound
    | AssetInactive | AssetTaken | NewDeviceHasAsset | InvalidRange
    | InvariantBroken | MultipleResults | IntegrityViolation

  datatype Outcome =
    | Done(device: Device) | DeviceNotFound | Raised(error: AssignmentError)
    | AssetsEdited  // asset records changed by another service

  predicate IsOpen(r: Row) { r.unassignedAt.None? }

  // ----- Queries

  /** The rows selected by p, in insertion order. */
  function Select(h: seq<Row>, p: Row -> bool): seq<Row> {
    if h == [] then []
    else
      var n := |h| - 1;
      Select(h[..n], p) + if p(h[n]) then [h[n]] else []
  }

  /** `scalar_one_or_none`: more than one row is an error. */
  function ScalarOneOrNone(rows: seq<Row>): Result<Option<Row>, AssignmentError> {
    if rows == [] then Ok(None) else if |rows| == 1 then Ok(Some(rows[0])) else Err(MultipleResults)
  }

  function OpenRows(h: seq<Row>, d: int): seq<Row> {
    Select(h, (r: Row) => r.deviceId == d && IsOpen(r))
  }

  function ActiveAssignment(h: seq<Row>, d: int): Result<Option<Row>, AssignmentError> {
    ScalarOneOrNone(OpenRows(h, d))
  }

  predicate Covers(r: Row, d: int, t: int) {
    r.deviceId == d && r.assignedAt <= t && (IsOpen(r) || t < r.unassignedAt.value)
  }

  function GetAssignmentForDeviceAt(h: seq<Row>, d: int, t: int): Result<Option<Row>, AssignmentError> {
    ScalarOneOrNone(Select(h, (r: Row) => Covers(r, d, t)))
  }

  /** Devices other than `except` that currently hold the asset. */
  function Holders(devices: seq<Device>, assetId: int, except: int): set<int> {
    set d | 0 <= d < |devices| && d != except && !devices[d].deleted && devices[d].assetId == Some(assetId)
  }

  function AvailabilityError(devices: seq<Device>, assetId: int, except: int): Option<AssignmentError> {
    var holders := Holders(devices, assetId, except);
    if |holders| == 0 then None else if |holders| == 1 then Some(AssetTaken) else Some(MultipleResults)
  }

  function AssignableError(device: Device, assets: map<int, Asset>, assetId: int): Option<AssignmentError> {
    if device.clientId.None? then Some(DeviceWithoutClient)
    else if assetId !in assets || assets[assetId].clientId != device.clientId || assets[assetId].deleted
    then Some(AssetNotFound)
    else if !assets[assetId].active then Some(AssetInactive)
    else None
  }

  /** The current pointer and the open history row must agree. */
  function CurrentAssignmentError(device: Device, open: Option<Row>): Option<AssignmentError> {
    if device.assetId.None? then (if open.Some? then Some(InvariantBroken) else None)
    else if open.None? || open.value.assetId != device.assetId.value then Some(InvariantBroken)
    else None
  }

  // ----- Database constraints, checked when a transaction commits

  predicate SatisfiesConstraints(db: Db) {
    var h, devices := db.history, db.devices;
    && (forall i :: 0 <= i < |h| ==> IsOpen(h[i]) || h[i].assignedAt <= h[i].unassignedAt.value)
    && (forall i, j :: 0 <= i < j < |h| && IsOpen(h[i]) && IsOpen(h[j]) ==>
                         h[i].deviceId != h[j].deviceId && h[i].assetId != h[j].assetId)
    && (forall d, e :: 0 <= d < e < |devices| && !devices[d].deleted && !devices[e].deleted ==>
                         devices[d].assetId.None? || devices[d].assetId != devices[e].assetId)
    && (forall d :: 0 <= d < |devices| && devices[d].active ==> devices[d].assetId.Some?)
  }

  function Commit(before: Db, after: Db, device: Device): (Db, Outcome) {
    if SatisfiesConstraints(after) then (after, Done(device)) else (before, Raised(IntegrityViolation))
  }

  // ----- What each operation does, as a function of the database

  /** Every open row of the device gets an end. */
  function CloseOpen(h: seq<Row>, d: int, now: int): (r: seq<Row>)
    ensures |r| == |h|
  {
    seq(|h|, i requires 0 <= i < |h| =>
      if h[i].deviceId == d && IsOpen(h[i]) then h[i].(unassignedAt := Some(now)) else h[i])
  }

  function Activated(device: Device): Device {
    if device.active then device else device.(active := true, state := Off)
  }

  function Append(h: seq<Row>, d: int, assetId: int, now: int): seq<Row> {
    h + [Row(|h|, d, assetId, now, None)]
  }

  function Assign(db: Db, d: int, assetId: int, now: int): (Db, Outcome) {
    if !(0 <= d < |db.devices|) || db.devices[d].deleted then (db, DeviceNotFound)
    else
      var device := db.devices[d];
      var assetError := AssignableError(device, db.assets, assetId);
      var open := ActiveAssignment(db.history, d);
      if assetError.Some? then (db, Raised(assetError.value))
      else if open.Err? then (db, Raised(open.error))
      else if device.assetId == Some(assetId) then
        if open.value.None? || open.value.value.assetId != assetId then (db, Raised(InvariantBroken))
        else if device.active then (db, Done(device))
        else Commit(db, db.(devices := db.devices[d := Activated(device)]), Activated(device))
      else
        var currentError := CurrentAssignmentError(device, open.value);
        var availabilityError := AvailabilityError(db.devices, assetId, d);
        if currentError.Some? then (db, Raised(currentError.value))
        else if availabilityError.Some? then (db, Raised(availabilityError.value))
        else
          var updated := Activated(device.(assetId := Some(assetId)));
          Commit(db,
                 db.(devices := db.devices[d := updated],
                     history := Append(CloseOpen(db.history, d, now), d, assetId, now)),
                 updated)
  }

  function Release(db: Db, d: int, now: int): (Db, Outcome) {
    if !(0 <= d < |db.devices|) || db.devices[d].deleted then (db, DeviceNotFound)
    else
      var device := db.devices[d];
      var open := ActiveAssignment(db.history, d);
      if open.Err? then (db, Raised(open.error))
      else if device.assetId.None? then
        if open.value.Some? then (db, Raised(InvariantBroken)) else (db, Done(device))
      else
        var currentError := CurrentAssignmentError(device, open.value);
        if currentError.Some? then (db, Raised(currentError.value))
        else
          var updated := device.(assetId := None, active := false, state := Off);
          Commit(db,
                 db.(devices := db.devices[d := updated], history := CloseOpen(db.history, d, now)),
                 updated)
  }

  function NewDeviceError(persisted: bool, device: Device, assetId: Option<int>, asset: Asset)
    : Option<AssignmentError>
  {
    if persisted then Some(DeviceAlreadyPersisted)
    else if device.clientId.None? then Some(DeviceWithoutClient)
    else if assetId.None? then Some(AssetNotPersisted)
    else if asset.clientId != device.clientId || asset.deleted then Some(AssetNotFound)
    else if !asset.active then Some(AssetInactive)
    else if device.assetId.Some? then Some(NewDeviceHasAsset)
    else None
  }

  /** Persists a new device together with its first assignment. */
  function CreateInitial(db: Db, persisted: bool, device: Device, assetId: Option<int>, asset: Asset, now: int)
    : (Db, Outcome)
  {
    var inputError := NewDeviceError(persisted, device, assetId, asset);
    if inputError.Some? then (db, Raised(inputError.value))
    else
      var availabilityError := AvailabilityError(db.devices, assetId.value, -1);
      if availabilityError.Some? then (db, Raised(availabilityError.value))
      else
        var d := |db.devices|;
        var created := device.(assetId := assetId, deleted := false);
        Commit(db,
               db.(devices := db.devices + [created],
                   history := Append(db.history, d, assetId.value, now)),
               created)
  }

  // ----- The service

  class DeviceAssignmentService {
    var devices: seq<Device>
    var assets: map<int, Asset>
    var history: seq<Row>

    function State(): Db
      reads this
    {
      Db(devices, assets, history)
    }

    ghost predicate Valid()
      reads this
    {
      RowsNumbered(history)
    }

    constructor ()
      ensures Valid() && State() == Db([], map[], [])
    {
      devices, assets, history := [], map[], [];
    }

    /** `commit`, or `rollback` to the state at the start of the transaction. */
    method CommitOrRollback(before: Db, device: Device) returns (outcome: Outcome)
      modifies this
      ensures (State(), outcome) == Commit(before, old(State()), device)
    {
      if SatisfiesConstraints(State()) {
        return Done(device);
      }
      devices, assets, history := before.devices, before.assets, before.history;
      return Raised(IntegrityViolation);
    }

    method AssignAsset(d: int, assetId: int, now: int) returns (outcome: Outcome)
      requires Valid()
      modifies this
      ensures Valid()
      ensures (State(), outcome) == Assign(old(State()), d, assetId, now)
    {
      var before := State();
      if !(0 <= d < |devices|) || devices[d].deleted {
        return DeviceNotFound;
      }
      var device := devices[d];
      var assetError := AssignableError(device, assets, assetId);
      if assetError.Some? {
        return Raised(assetError.value);
      }
      var open := ActiveAssignment(history, d);
      if open.Err? {
        return Raised(open.error);
      }
      if device.assetId == Some(assetId) {
        if open.value.None? || open.value.value.assetId != assetId {
          return Raised(InvariantBroken);
        }
        if !device.active {
          devices := devices[d := device.(active := true, state := Off)];
          outcome := CommitOrRollback(before, devices[d]);
          return;
        }
        return Done(device);
      }
      var currentError := CurrentAssignmentError(device, open.value);
      if currentError.Some? {
        return Raised(currentError.value);
      }
      var availabilityError := AvailabilityError(devices, assetId, d);
      if availabilityError.Some? {
        return Raised(availabilityError.value);
      }
      ClosingTheOpenRow(history, d, now);
      if open.value.Some? {
        var row := open.value.value;
        history := history[row.id := row.(unassignedAt := Some(now))];
      }
      history := history + [Row(|history|, d, assetId, now, None)];
      device := device.(assetId := Some(assetId));
      if !device.active {
        device := device.(active := true, state := Off);
      }
      devices := devices[d := device];
      outcome := CommitOrRollback(before, device);
    }

    method ReleaseAsset(d: int, now: int) returns (outcome: Outcome)
      requires Valid()
      modifies this
      ensures Valid()
      ensures (State(), outcome) == Release(old(State()), d, now)
    {
      var before := State();
      if !(0 <= d < |devices|) || devices[d].deleted {
        return DeviceNotFound;
      }
      var device := devices[d];
      var open := ActiveAssignment(history, d);
      if open.Err? {
        return Raised(open.error);
      }
      if device.assetId.None? {
        if open.value.Some? {
          return Raised(InvariantBroken);
        }
        return Done(device);
      }
      var currentError := CurrentAssignmentError(device, open.value);
      if currentError.Some? {
        return Raised(currentError.value);
      }
      ClosingTheOpenRow(history, d, now);
      var row := open.value.value;
      history := history[row.id := row.(unassignedAt := Some(now))];
      device := device.(assetId := None, active := false, state := Off);
      devices := devices[d := device];
      outcome := CommitOrRollback(before, device);
    }

    method CreateInitialAssignment(persisted: bool, device: Device, assetId: Option<int>, asset: Asset, now: int)
      returns (outcome: Outcome)
      requires Valid()
      modifies this
      ensures Valid()
      ensures (State(), outcome) == CreateInitial(old(State()), persisted, device, assetId, asset, now)
    {
      var before := State();
      var inputError := NewDeviceError(persisted, device, assetId, asset);
      if inputError.Some? {
        return Raised(inputError.value);
      }
      var availabilityError := AvailabilityError(devices, assetId.value, -1);
      if availabilityError.Some? {
        return Raised(availabilityError.value);
      }
      var created := device.(assetId := assetId, deleted := false);
      var d := |devices|;
      devices := devices + [created];
      history := history + [Row(|history|, d, assetId.value, now, None)];
      outcome := CommitOrRollback(before, created);
    }
  }

  /** Row identifiers are positions. */
  predicate RowsNumbered(h: seq<Row>) {
    forall i :: 0 <= i < |h| ==> h[i].id == i
  }

  lemma {:induction false} SelectedRow(h: seq<Row>, p: Row -> bool, r: Row)
    requires r in Select(h, p)
    ensures p(r) && exists i :: 0 <= i < |h| && h[i] == r
  {
    var n := |h| - 1;
    if r in Select(h[..n], p) {
      SelectedRow(h[..n], p, r);
      var i :| 0 <= i < n && h[..n][i] == r;
      assert h[i] == r;
    } else {
      assert h[n] == r;
    }
  }

  lemma {:induction false} SelectsIndex(h: seq<Row>, p: Row -> bool, i: nat)
    requires i < |h| && p(h[i])
    ensures h[i] in Select(h, p)
  {
    var n := |h| - 1;
    if i < n {
      SelectsIndex(h[..n], p, i);
    }
  }

  lemma {:induction false} SelectsNothing(h: seq<Row>, p: Row -> bool)
    requires forall i :: 0 <= i < |h| ==> !p(h[i])
    ensures Select(h, p) == []
  {
    if h != [] {
      SelectsNothing(h[..|h| - 1], p);
    }
  }

  lemma {:induction false} SelectsOnly(h: seq<Row>, p: Row -> bool, i: nat)
    requires i < |h| && p(h[i]) && forall j :: 0 <= j < |h| && j != i ==> !p(h[j])
    ensures Select(h, p) == [h[i]]
  {
    var n := |h| - 1;
    if i < n {
      SelectsOnly(h[..n], p, i);
    } else {
      SelectsNothing(h[..n], p);
    }
  }

  /** With at most one open row, ending that row is ending every open row. */
  lemma ClosingTheOpenRow(h: seq<Row>, d: int, now: int)
    requires RowsNumbered(h) && ActiveAssignment(h, d).Ok?
    ensures match ActiveAssignment(h, d).value
            case None => CloseOpen(h, d, now) == h
            case Some(row) => row.id < |h| && h[row.id] == row
                              && CloseOpen(h, d, now) == h[row.id := row.(unassignedAt := Some(now))]
  {
    var p := (r: Row) => r.deviceId == d && IsOpen(r);
    var rows := Select(h, p);
    forall i | 0 <= i < |h| && p(h[i]) ensures h[i] in rows {
      SelectsIndex(h, p, i);
    }
    if rows != [] {
      SelectedRow(h, p, rows[0]);
    }
  }
}
