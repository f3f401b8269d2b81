/** Evaluation of locations against geofences: the status of each fence and asset, the events raised
    by its transitions, and the commands created for the events
    (src/service/geofence_evaluation_service.py, src/service/device_command_service.py).

    The spatial query is an input: for each effective fence, whether the point is covered and how
    far the boundary is. */
module GeofenceEvaluation {
  import opened Basics
  import W = WireContract

  datatype Status = Safe | NearLimit | Outside | GpsUncertain

  datatype EventType = NearLimitReached | Exited | Entered | Returned | GpsLost

  datatype Key = Key(fence: int, asset: int)

  datatype Event = Event(key: Key, device: int, kind: EventType)

  datatype Command = Command(
    event: nat, key: Key, commandType: W.CommandType, fields: W.Fields,
    commandSeq: int, payload: seq<W.Byte>)

  datatype Spatial = Spatial(fence: int, inside: bool, distance: Option<real>)

  datatype Thresholds = Thresholds(nearLimit: real, gpsUncertain: real)

  const DEFAULT_THRESHOLDS := Thresholds(50.0, 30.0)

  datatype Device = Device(
    id: int, assetId: Option<int>, chirpStack: bool, hasApplicationId: bool, hasDevEui: bool)

  /** One evaluated location. `allocate(n)` is the sequence number the n-th command would get. */
  datatype Evaluation = Evaluation(
    device: Device, accuracy: Option<real>, rows: seq<Spatial>, allocate: nat -> Option<int>)

  datatype Db = Db(states: map<Key, Status>, events: seq<Event>, commands: seq<Command>)

  // ----- Status and transition

  function ResolveStatus(t: Thresholds, row: Spatial, accuracy: Option<real>): Status {
    if accuracy.Some? && accuracy.value >= t.gpsUncertain then GpsUncertain
    else if !row.inside then Outside
    else if row.distance.Some? && row.distance.value <= t.nearLimit then NearLimit
    else Safe
  }

  /** The transition table; pairs not listed raise nothing. */
  function TransitionEvent(previous: Option<Status>, current: Status): Option<EventType> {
    match (previous, current)
    case (None, NearLimit) => Some(NearLimitReached)
    case (None, Outside) => Some(Exited)
    case (None, GpsUncertain) => Some(GpsLost)
    case (Some(Safe), NearLimit) => Some(NearLimitReached)
    case (Some(Safe), Outside) => Some(Exited)
    case (Some(Safe), GpsUncertain) => Some(GpsLost)
    case (Some(NearLimit), Outside) => Some(Exited)
    case (Some(NearLimit), GpsUncertain) => Some(GpsLost)
    case (Some(Outside), Safe) => Some(Returned)
    case (Some(Outside), NearLimit) => Some(Returned)
    case (Some(Outside), GpsUncertain) => Some(GpsLost)
    case (Some(GpsUncertain), NearLimit) => Some(NearLimitReached)
    case (Some(GpsUncertain), Outside) => Some(Exited)
    case _ => None
  }

  function ResolveEventType(previous: Option<Status>, current: Status): Option<EventType> {
    if previous == Some(current) then None else TransitionEvent(previous, current)
  }

  // ----- Commands

  datatype Spec = Spec(commandType: W.CommandType, fields: W.Fields)

  const NORMAL_REPORT_INTERVAL_SECONDS := 600

  function ReportEvery(seconds: int): Spec {
    Spec(W.SetReportInterval, W.NO_FIELDS.(intervalSeconds := Some(seconds)))
  }

  function Sound(millis: int): Spec {
    Spec(W.WarningSound, W.NO_FIELDS.(durationMs := Some(millis)))
  }

  function CommandSpecs(kind: EventType): seq<Spec> {
    match kind
    case NearLimitReached => [ReportEvery(15), Sound(1500)]
    case Exited => [ReportEvery(5), Sound(2000)]
    case Returned => [Spec(W.StopCorrection, W.NO_FIELDS), ReportEvery(NORMAL_REPORT_INTERVAL_SECONDS)]
    case GpsLost => [ReportEvery(30)]
    case Entered => []
  }

  /** The encoded payload, or nothing where creating the command raises. */
  function CreatePayload(device: Device, seqNo: Option<int>, spec: Spec): Option<seq<W.Byte>> {
    if !device.chirpStack || !device.hasApplicationId || !device.hasDevEui || seqNo.None? then None
    else
      match W.EncodeCommand(spec.commandType, seqNo.value, spec.fields)
      case Ok(payload) => Some(payload)
      case Err(_) => None
  }

  predicate HasCommand(commands: seq<Command>, event: nat, t: W.CommandType) {
    exists i :: 0 <= i < |commands| && commands[i].event == event && commands[i].commandType == t
  }

  /** Existing commands are skipped, failures are skipped, the rest is appended. */
  function WithCommand(commands: seq<Command>, n: nat, key: Key, e: Evaluation, spec: Spec): seq<Command> {
    if HasCommand(commands, n, spec.commandType) then commands
    else
      var seqNo := if e.device.chirpStack then e.allocate(|commands|) else None;
      match CreatePayload(e.device, seqNo, spec)
      case None => commands
      case Some(payload) =>
        commands + [Command(n, key, spec.commandType, spec.fields, seqNo.value, payload)]
  }

  function WithCommands(commands: seq<Command>, n: nat, key: Key, e: Evaluation, specs: seq<Spec>): seq<Command>
    decreases |specs|
  {
    if specs == [] then commands
    else WithCommands(WithCommand(commands, n, key, e, specs[0]), n, key, e, specs[1..])
  }

  // ----- Evaluation of a location

  function StatusOf(states: map<Key, Status>, key: Key): Option<Status> {
    if key in states then Some(states[key]) else None
  }

  function EvaluateRow(db: Db, t: Thresholds, e: Evaluation, asset: int, row: Spatial): Db {
    var current := ResolveStatus(t, row, e.accuracy);
    var key := Key(row.fence, asset);
    var kind := ResolveEventType(StatusOf(db.states, key), current);
    var states := db.states[key := current];
    if kind.None? then db.(states := states)
    else
      Db(states, db.events + [Event(key, e.device.id, kind.value)],
         WithCommands(db.commands, |db.events|, key, e, CommandSpecs(kind.value)))
  }

  function EvaluateRows(db: Db, t: Thresholds, e: Evaluation, asset: int, rows: seq<Spatial>): Db {
    if rows == [] then db
    else EvaluateRow(EvaluateRows(db, t, e, asset, rows[..|rows| - 1]), t, e, asset, rows[|rows| - 1])
  }

  lemma OneMoreRow(db: Db, t: Thresholds, e: Evaluation, asset: int, i: nat)
    requires i < |e.rows|
    ensures EvaluateRows(db, t, e, asset, e.rows[..i + 1])
            == EvaluateRow(EvaluateRows(db, t, e, asset, e.rows[..i]), t, e, asset, e.rows[i])
  {
    assert e.rows[..i + 1][..i] == e.rows[..i];
  }

  function Evaluate(db: Db, t: Thresholds, e: Evaluation): Db {
    if e.device.assetId.None? then db else EvaluateRows(db, t, e, e.device.assetId.value, e.rows)
  }

  datatype EvaluationResult = EvaluationResult(fence: int, level: Status, eventCreated: bool)

  function ResultOf(t: Thresholds, e: Evaluation, row: Spatial, eventsBefore: nat, eventsAfter: nat): EvaluationResult {
    EvaluationResult(row.fence, ResolveStatus(t, row, e.accuracy), eventsAfter > eventsBefore)
  }

  /** What is reported for the first n fences: status, and whether the number of events grew. */
  function Results(db: Db, t: Thresholds, e: Evaluation, asset: int, n: nat): seq<EvaluationResult>
    requires n <= |e.rows|
  {
    if n == 0 then []
    else
      var before, after := EvaluateRows(db, t, e, asset, e.rows[..n - 1]), EvaluateRows(db, t, e, asset, e.rows[..n]);
      Results(db, t, e, asset, n - 1) + [ResultOf(t, e, e.rows[n - 1], |before.events|, |after.events|)]
  }

  class GeoFenceEvaluationService {
    const thresholds: Thresholds
    var states: map<Key, Status>
    var events: seq<Event>
    var commands: seq<Command>

    function State(): Db
      reads this
    {
      Db(states, events, commands)
    }

    constructor (thresholds: Thresholds)
      ensures this.thresholds == thresholds && State() == Db(map[], [], [])
    {
      this.thresholds := thresholds;
      states, events, commands := map[], [], [];
    }

    method CreateCommandsForGeofenceEvent(n: nat, key: Key, kind: EventType, e: Evaluation)
      modifies this`commands
      ensures commands == WithCommands(old(commands), n, key, e, CommandSpecs(kind))
    {
      var specs := CommandSpecs(kind);
      for i := 0 to |specs|
        invariant WithCommands(commands, n, key, e, specs[i..])
                  == WithCommands(old(commands), n, key, e, CommandSpecs(kind))
      {
        assert specs[i..][0] == specs[i] && specs[i..][1..] == specs[i + 1..];
        if HasCommand(commands, n, specs[i].commandType) {
          continue;
        }
        var seqNo := if e.device.chirpStack then e.allocate(|commands|) else None;
        var payload := CreatePayload(e.device, seqNo, specs[i]);
        if payload.None? {
          continue;
        }
        commands := commands + [Command(n, key, specs[i].commandType, specs[i].fields, seqNo.value, payload.value)];
      }
    }

    /** One round of the loop over the fences. */
    method EvaluateFence(e: Evaluation, asset: int, row: Spatial) returns (result: EvaluationResult)
      modifies this
      ensures State() == EvaluateRow(old(State()), thresholds, e, asset, row)
      ensures result == ResultOf(thresholds, e, row, |old(events)|, |events|)
    {
      var current := ResolveStatus(thresholds, row, e.accuracy);
      var key := Key(row.fence, asset);
      var previous := StatusOf(states, key);
      var kind := ResolveEventType(previous, current);
      states := states[key := current];
      if kind.Some? {
        events := events + [Event(key, e.device.id, kind.value)];
        CreateCommandsForGeofenceEvent(|events| - 1, key, kind.value, e);
      }
      return EvaluationResult(row.fence, current, kind.Some?);
    }

    /** One result for each fence, in order, telling its status and whether it raised an event. */
    method EvaluateLocation(e: Evaluation) returns (results: seq<EvaluationResult>)
      modifies this
      ensures State() == Evaluate(old(State()), thresholds, e)
      ensures results == if e.device.assetId.None? then []
                         else Results(old(State()), thresholds, e, e.device.assetId.value, |e.rows|)
    {
      results := [];
      if e.device.assetId.None? {
        return;
      }
      var asset := e.device.assetId.value;
      for i := 0 to |e.rows|
        invariant State() == EvaluateRows(old(State()), thresholds, e, asset, e.rows[..i])
        invariant results == Results(old(State()), thresholds, e, asset, i)
      {
        OneMoreRow(old(State()), thresholds, e, asset, i);
        var result := EvaluateFence(e, asset, e.rows[i]);
        results := results + [result];
      }
      assert e.rows[..|e.rows|] == e.rows;
    }
  }

  // ----- Runs

  const EMPTY := Db(map[], [], [])

  function Run(t: Thresholds, es: seq<Evaluation>): Db {
    if |es| == 0 then EMPTY
    else Evaluate(Run(t, es[..|es| - 1]), t, es[|es| - 1])
  }

  /** The events of one fence and asset, in order. */
  function KeyEvents(events: seq<Event>, key: Key): seq<EventType> {
    if events == [] then []
    else
      var last := events[|events| - 1];
      KeyEvents(events[..|events| - 1], key) + if last.key == key then [last.kind] else []
  }

  function Count(kinds: seq<EventType>, kind: EventType): nat {
    if kinds == [] then 0
    else Count(kinds[..|kinds| - 1], kind) + if kinds[|kinds| - 1] == kind then 1 else 0
  }

  function LastOf(kinds: seq<EventType>): Option<EventType> {
    if kinds == [] then None else Some(kinds[|kinds| - 1])
  }

  /** Exits whose next event is a loss of GPS quality instead of a return. */
  function LostWhileOutside(kinds: seq<EventType>): nat {
    if |kinds| < 2 then 0
    else
      LostWhileOutside(kinds[..|kinds| - 1])
      + if kinds[|kinds| - 1] == GpsLost && kinds[|kinds| - 2] == Exited then 1 else 0
  }

  function Balance(kinds: seq<EventType>): int {
    Count(kinds, Exited) - Count(kinds, Returned) - LostWhileOutside(kinds)
  }

  /** Status, last event and balance of exits of one fence and asset fit together. */
  predicate Fits(status: Option<Status>, last: Option<EventType>, balance: int) {
    && (status.None? ==> last.None?)
    && (status == Some(Outside) <==> last == Some(Exited))
    && balance == if status == Some(Outside) then 1 else 0
  }

  predicate Matched(status: Option<Status>, kinds: seq<EventType>) {
    Fits(status, LastOf(kinds), Balance(kinds))
  }

  function BalanceAfter(last: Option<EventType>, balance: int, kind: EventType): int {
    match kind
    case Exited => balance + 1
    case Returned => balance - 1
    case GpsLost => if last == Some(Exited) then balance - 1 else balance
    case _ => balance
  }

  lemma KindAppended(kinds: seq<EventType>, kind: EventType)
    ensures LastOf(kinds + [kind]) == Some(kind)
    ensures Balance(kinds + [kind]) == BalanceAfter(LastOf(kinds), Balance(kinds), kind)
  {
    var after := kinds + [kind];
    assert after[..|after| - 1] == kinds;
  }

  /** No transition of the table breaks the balance, and none that raises nothing needed to. */
  lemma TransitionFits(previous: Option<Status>, current: Status, last: Option<EventType>, balance: int)
    requires Fits(previous, last, balance)
    ensures match ResolveEventType(previous, current)
            case None => Fits(Some(current), last, balance)
            case Some(kind) => Fits(Some(current), Some(kind), BalanceAfter(last, balance, kind))
  {
  }

  lemma TransitionKeepsMatch(previous: Option<Status>, current: Status, kinds: seq<EventType>)
    requires Matched(previous, kinds)
    ensures var kind := ResolveEventType(previous, current);
            Matched(Some(current), if kind.None? then kinds else kinds + [kind.value])
  {
    var kind := ResolveEventType(previous, current);
    TransitionFits(previous, current, LastOf(kinds), Balance(kinds));
    if kind.Some? {
      KindAppended(kinds, kind.value);
    }
  }

  lemma KeyEventsAppend(events: seq<Event>, e: Event, key: Key)
    ensures KeyEvents(events + [e], key) == KeyEvents(events, key) + if e.key == key then [e.kind] else []
  {
    assert (events + [e])[..|events|] == events;
  }

  predicate KeyMatched(db: Db, key: Key) {
    Matched(StatusOf(db.states, key), KeyEvents(db.events, key))
  }

  lemma RowKeepsMatch(db: Db, t: Thresholds, e: Evaluation, asset: int, row: Spatial, key: Key)
    requires KeyMatched(db, key)
    ensures KeyMatched(EvaluateRow(db, t, e, asset, row), key)
  {
    var rowKey, current := Key(row.fence, asset), ResolveStatus(t, row, e.accuracy);
    var kind := ResolveEventType(StatusOf(db.states, rowKey), current);
    if kind.Some? {
      KeyEventsAppend(db.events, Event(rowKey, e.device.id, kind.value), key);
    }
    if key == rowKey {
      TransitionKeepsMatch(StatusOf(db.states, key), current, KeyEvents(db.events, key));
    } else {
      assert KeyEvents(db.events, key) + [] == KeyEvents(db.events, key);
    }
  }

  lemma {:induction false} RowsKeepMatch(db: Db, t: Thresholds, e: Evaluation, asset: int, rows: seq<Spatial>, key: Key)
    requires KeyMatched(db, key)
    ensures KeyMatched(EvaluateRows(db, t, e, asset, rows), key)
  {
    if rows != [] {
      var n := |rows| - 1;
      RowsKeepMatch(db, t, e, asset, rows[..n], key);
      RowKeepsMatch(EvaluateRows(db, t, e, asset, rows[..n]), t, e, asset, rows[n], key);
    }
  }

  /** Over every run, for every fence and asset: it is outside exactly when its last event is an
      exit, and exits are balanced by returns and by losses of GPS quality while outside. */
  lemma {:induction false} ExitsAreBalanced(t: Thresholds, es: seq<Evaluation>, key: Key)
    ensures var db := Run(t, es);
            var status, kinds := StatusOf(db.states, key), KeyEvents(db.events, key);
            && (status == Some(Outside) <==> LastOf(kinds) == Some(Exited))
            && Count(kinds, Exited) - Count(kinds, Returned) - LostWhileOutside(kinds)
               == (if status == Some(Outside) then 1 else 0)
            && KeyMatched(db, key)
  {
    if |es| > 0 {
      var e := es[|es| - 1];
      ExitsAreBalanced(t, es[..|es| - 1], key);
      if e.device.assetId.Some? {
        RowsKeepMatch(Run(t, es[..|es| - 1]), t, e, e.device.assetId.value, e.rows, key);
      }
    }
  }

  // ----- The events as a function of what was observed

  /** The statuses the evaluations resolve for one fence and asset, in order: read off the inputs. */
  function Statuses(t: Thresholds, es: seq<Evaluation>, key: Key): seq<Status> {
    if |es| == 0 then []
    else
      var e := es[|es| - 1];
      Statuses(t, es[..|es| - 1], key)
      + if e.device.assetId == Some(key.asset) then RowStatuses(t, e, e.rows, key.fence) else []
  }

  function RowStatuses(t: Thresholds, e: Evaluation, rows: seq<Spatial>, fence: int): seq<Status> {
    if rows == [] then []
    else
      var row := rows[|rows| - 1];
      RowStatuses(t, e, rows[..|rows| - 1], fence)
      + if row.fence == fence then [ResolveStatus(t, row, e.accuracy)] else []
  }

  function LastStatus(statuses: seq<Status>): Option<Status> {
    if statuses == [] then None else Some(statuses[|statuses| - 1])
  }

  /** The events of a lone sequence of statuses. */
  function Transitions(statuses: seq<Status>): seq<EventType> {
    if statuses == [] then []
    else
      var init := statuses[..|statuses| - 1];
      var kind := ResolveEventType(LastStatus(init), statuses[|statuses| - 1]);
      Transitions(init) + if kind.None? then [] else [kind.value]
  }

  /** The tables know of the key exactly what its own statuses produce. */
  predicate Tracks(db: Db, statuses: seq<Status>, key: Key) {
    StatusOf(db.states, key) == LastStatus(statuses) && KeyEvents(db.events, key) == Transitions(statuses)
  }

  lemma TransitionsAppend(statuses: seq<Status>, current: Status)
    ensures var kind := ResolveEventType(LastStatus(statuses), current);
            Transitions(statuses + [current]) == Transitions(statuses) + if kind.None? then [] else [kind.value]
    ensures LastStatus(statuses + [current]) == Some(current)
  {
    assert (statuses + [current])[..|statuses|] == statuses;
  }

  lemma RowTracks(db: Db, t: Thresholds, e: Evaluation, asset: int, row: Spatial, key: Key, statuses: seq<Status>)
    requires Tracks(db, statuses, key)
    ensures var current := ResolveStatus(t, row, e.accuracy);
            Tracks(EvaluateRow(db, t, e, asset, row),
                   statuses + if Key(row.fence, asset) == key then [current] else [], key)
  {
    var rowKey, current := Key(row.fence, asset), ResolveStatus(t, row, e.accuracy);
    var kind := ResolveEventType(StatusOf(db.states, rowKey), current);
    if kind.Some? {
      KeyEventsAppend(db.events, Event(rowKey, e.device.id, kind.value), key);
    }
    assert KeyEvents(db.events, key) + [] == KeyEvents(db.events, key) && statuses + [] == statuses;
    if rowKey == key {
      TransitionsAppend(statuses, current);
    }
  }

  lemma {:induction false} RowsTrack(db: Db, t: Thresholds, e: Evaluation, rows: seq<Spatial>, key: Key,
                                     statuses: seq<Status>)
    requires Tracks(db, statuses, key)
    ensures Tracks(EvaluateRows(db, t, e, key.asset, rows), statuses + RowStatuses(t, e, rows, key.fence), key)
  {
    if rows == [] {
      assert statuses + [] == statuses;
    } else {
      var init, row := rows[..|rows| - 1], rows[|rows| - 1];
      var before := statuses + RowStatuses(t, e, init, key.fence);
      RowsTrack(db, t, e, init, key, statuses);
      RowTracks(EvaluateRows(db, t, e, key.asset, init), t, e, key.asset, row, key, before);
      var last := if row.fence == key.fence then [ResolveStatus(t, row, e.accuracy)] else [];
      assert before + last == statuses + (RowStatuses(t, e, init, key.fence) + last);
    }
  }

  lemma {:induction false} OtherAssetTracks(db: Db, t: Thresholds, e: Evaluation, asset: int, rows: seq<Spatial>,
                                            key: Key, statuses: seq<Status>)
    requires Tracks(db, statuses, key) && asset != key.asset
    ensures Tracks(EvaluateRows(db, t, e, asset, rows), statuses, key)
  {
    if rows != [] {
      var init, row := rows[..|rows| - 1], rows[|rows| - 1];
      OtherAssetTracks(db, t, e, asset, init, key, statuses);
      RowTracks(EvaluateRows(db, t, e, asset, init), t, e, asset, row, key, statuses);
      assert statuses + [] == statuses;
    }
  }

  /** Every run keeps the pairs of fence and asset apart: state and events of each are those of its
      own sequence of statuses, whatever is evaluated in between. */
  lemma {:induction false} EventsFollowStatuses(t: Thresholds, es: seq<Evaluation>, key: Key)
    ensures var db := Run(t, es);
            StatusOf(db.states, key) == LastStatus(Statuses(t, es, key))
            && KeyEvents(db.events, key) == Transitions(Statuses(t, es, key))
  {
    if |es| > 0 {
      var init, e := es[..|es| - 1], es[|es| - 1];
      var statuses := Statuses(t, init, key);
      EventsFollowStatuses(t, init, key);
      assert statuses + [] == statuses;
      if e.device.assetId == Some(key.asset) {
        RowsTrack(Run(t, init), t, e, e.rows, key, statuses);
      } else if e.device.assetId.Some? {
        OtherAssetTracks(Run(t, init), t, e, e.device.assetId.value, e.rows, key, statuses);
      }
    }
  }

  /** GPS quality is lost at moment i while the asset is outside. */
  predicate LostAt(statuses: seq<Status>, i: int) {
    0 < i < |statuses| && statuses[i - 1] == Outside && statuses[i] == GpsUncertain
  }

  function Losses(statuses: seq<Status>): nat {
    if statuses == [] then 0
    else Losses(statuses[..|statuses| - 1]) + if LostAt(statuses, |statuses| - 1) then 1 else 0
  }

  lemma {:induction false} LossesAreSomewhere(statuses: seq<Status>)
    ensures Losses(statuses) == 0 <==> forall i :: !LostAt(statuses, i)
  {
    if statuses != [] {
      var n := |statuses| - 1;
      LossesAreSomewhere(statuses[..n]);
      assert forall i :: 0 < i < n ==> (LostAt(statuses[..n], i) <==> LostAt(statuses, i));
      if Losses(statuses[..n]) != 0 {
        var i :| LostAt(statuses[..n], i);
        assert LostAt(statuses, i);
      }
    }
  }

  lemma CountAppended(kinds: seq<EventType>, kind: EventType, of: EventType)
    ensures Count(kinds + [kind], of) == Count(kinds, of) + if kind == of then 1 else 0
  {
    assert (kinds + [kind])[..|kinds|] == kinds;
  }

  function One(b: bool): int { if b then 1 else 0 }

  lemma TransitionCounts(previous: Option<Status>, current: Status)
    ensures var kind := ResolveEventType(previous, current);
            One(kind == Some(Exited)) - One(kind == Some(Returned))
            == One(previous == Some(Outside) && current == GpsUncertain)
               + One(current == Outside) - One(previous == Some(Outside))
  {
  }

  /** Exits not answered by a return: the losses of GPS quality outside, and the exit still going on. */
  lemma {:induction false} UnansweredExits(statuses: seq<Status>)
    ensures Count(Transitions(statuses), Exited) - Count(Transitions(statuses), Returned)
            == Losses(statuses) + One(LastStatus(statuses) == Some(Outside))
  {
    if statuses != [] {
      var n := |statuses| - 1;
      var init := statuses[..n];
      var kind := ResolveEventType(LastStatus(init), statuses[n]);
      UnansweredExits(init);
      TransitionCounts(LastStatus(init), statuses[n]);
      if kind.Some? {
        CountAppended(Transitions(init), kind.value, Exited);
        CountAppended(Transitions(init), kind.value, Returned);
      } else {
        assert Transitions(init) + [] == Transitions(init);
      }
    }
  }

  lemma AnsweredExactly(statuses: seq<Status>)
    ensures Count(Transitions(statuses), Exited) == Count(Transitions(statuses), Returned)
            <==> LastStatus(statuses) != Some(Outside) && forall i :: !LostAt(statuses, i)
  {
    UnansweredExits(statuses);
    LossesAreSomewhere(statuses);
  }

  /** Over every run, every exit is answered by a return exactly when the asset does not end outside
      and no location outside was directly followed by one with poor GPS: the way back through poor
      GPS is never reported. */
  lemma ExitsAreAnsweredExactly(t: Thresholds, es: seq<Evaluation>, key: Key)
    ensures var kinds, statuses := KeyEvents(Run(t, es).events, key), Statuses(t, es, key);
            Count(kinds, Exited) == Count(kinds, Returned)
            <==> LastStatus(statuses) != Some(Outside) && forall i :: !LostAt(statuses, i)
  {
    EventsFollowStatuses(t, es, key);
    AnsweredExactly(Statuses(t, es, key));
  }

  const COLLAR := Device(1, Some(7), false, false, false)

  function Seen(inside: bool, accuracy: real): Evaluation {
    Evaluation(COLLAR, Some(accuracy), [Spatial(3, inside, None)], _ => None)
  }

  lemma SeenStatus(es: seq<Evaluation>, inside: bool, accuracy: real, status: Status)
    requires status == ResolveStatus(DEFAULT_THRESHOLDS, Spatial(3, inside, None), Some(accuracy))
    ensures Statuses(DEFAULT_THRESHOLDS, es + [Seen(inside, accuracy)], Key(3, 7))
            == Statuses(DEFAULT_THRESHOLDS, es, Key(3, 7)) + [status]
  {
    var e := Seen(inside, accuracy);
    assert (es + [e])[..|es|] == es && e.rows[..0] == [];
    assert RowStatuses(DEFAULT_THRESHOLDS, e, e.rows, 3) == [status];
  }

  lemma OutLostBack()
    ensures Transitions([] + [Outside] + [GpsUncertain] + [Safe]) == [Exited, GpsLost]
    ensures LastStatus([] + [Outside] + [GpsUncertain] + [Safe]) == Some(Safe)
  {
    var out := [] + [Outside];
    var lost := out + [GpsUncertain];
    TransitionsAppend([], Outside);
    assert Transitions(out) == [Exited];
    TransitionsAppend(out, GpsUncertain);
    assert Transitions(lost) == [Exited, GpsLost];
    TransitionsAppend(lost, Safe);
  }

  /** The exception occurs: out of the fence, poor GPS, back inside, and no return is ever raised. */
  lemma SilentReturn(es: seq<Evaluation>)
    requires es == [] + [Seen(false, 5.0)] + [Seen(false, 80.0)] + [Seen(true, 5.0)]
    ensures var db := Run(DEFAULT_THRESHOLDS, es);
            StatusOf(db.states, Key(3, 7)) == Some(Safe) && KeyEvents(db.events, Key(3, 7)) == [Exited, GpsLost]
  {
    var out := [] + [Seen(false, 5.0)];
    var lost := out + [Seen(false, 80.0)];
    SeenStatus([], false, 5.0, Outside);
    SeenStatus(out, false, 80.0, GpsUncertain);
    SeenStatus(lost, true, 5.0, Safe);
    assert Statuses(DEFAULT_THRESHOLDS, [], Key(3, 7)) == [];
    OutLostBack();
    EventsFollowStatuses(DEFAULT_THRESHOLDS, es, Key(3, 7));
  }

  /** Evaluating a fence again to the status it already has raises no event and no command. */
  lemma RepeatedStatusIsSilent(db: Db, t: Thresholds, e: Evaluation, asset: int, row: Spatial)
    requires StatusOf(db.states, Key(row.fence, asset)) == Some(ResolveStatus(t, row, e.accuracy))
    ensures EvaluateRow(db, t, e, asset, row) == db
  {
    assert db.states[Key(row.fence, asset) := ResolveStatus(t, row, e.accuracy)] == db.states;
  }

  // ----- Commands over a run

  /** The device can be commanded: a ChirpStack device with its identifiers and numbers to spare. */
  ghost predicate Commandable(e: Evaluation) {
    e.device.chirpStack && e.device.hasApplicationId && e.device.hasDevEui
    && forall n: nat :: e.allocate(n).Some? && W.ValidSeq(e.allocate(n).value)
  }

  /** Every command the events ask for encodes. */
  lemma SpecsEncode(kind: EventType, i: nat, seqNo: int)
    requires i < |CommandSpecs(kind)| && W.ValidSeq(seqNo)
    ensures W.EncodeCommand(CommandSpecs(kind)[i].commandType, seqNo, CommandSpecs(kind)[i].fields).Ok?
  {
    assert W.CeilDiv(1500, 1000) == 2 && W.CeilDiv(2000, 1000) == 2;
  }

  /** Report interval last commanded on behalf of a fence and asset. */
  function LastInterval(commands: seq<Command>, key: Key): Option<int> {
    if commands == [] then None
    else
      var last := commands[|commands| - 1];
      if last.key == key && last.commandType == W.SetReportInterval then last.fields.intervalSeconds
      else LastInterval(commands[..|commands| - 1], key)
  }

  function IntervalFor(kind: Option<EventType>): Option<int> {
    match kind
    case Some(NearLimitReached) => Some(15)
    case Some(Exited) => Some(5)
    case Some(Returned) => Some(NORMAL_REPORT_INTERVAL_SECONDS)
    case Some(GpsLost) => Some(30)
    case _ => None
  }

  /** No command refers to an event that does not exist yet. */
  predicate CommandsOk(db: Db) {
    forall i :: 0 <= i < |db.commands| ==> db.commands[i].event < |db.events|
  }

  predicate IntervalOk(db: Db, key: Key) {
    LastInterval(db.commands, key) == IntervalFor(LastOf(KeyEvents(db.events, key)))
  }

  lemma CommandAppended(commands: seq<Command>, n: nat, key: Key, e: Evaluation, kind: EventType, i: nat, k: Key)
    requires Commandable(e) && i < |CommandSpecs(kind)|
    requires !HasCommand(commands, n, CommandSpecs(kind)[i].commandType)
    ensures var spec := CommandSpecs(kind)[i];
            var after := WithCommand(commands, n, key, e, spec);
            && |after| == |commands| + 1 && after[..|commands|] == commands
            && after[|commands|].event == n && after[|commands|].commandType == spec.commandType
            && LastInterval(after, k) ==
               if k == key && spec.commandType == W.SetReportInterval then spec.fields.intervalSeconds
               else LastInterval(commands, k)
  {
    SpecsEncode(kind, i, e.allocate(|commands|).value);
  }

  lemma TwoCommands(commands: seq<Command>, n: nat, key: Key, e: Evaluation, a: Spec, b: Spec)
    ensures WithCommands(commands, n, key, e, [a, b])
            == WithCommand(WithCommand(commands, n, key, e, a), n, key, e, b)
  {
    var first := WithCommand(commands, n, key, e, a);
    assert [a, b][1..] == [b] && [b][1..] == [];
    assert WithCommands(first, n, key, e, [b]) == WithCommand(first, n, key, e, b);
  }

  lemma {:induction false} CommandsPointBack(commands: seq<Command>, n: nat, key: Key, e: Evaluation, specs: seq<Spec>)
    requires forall i :: 0 <= i < |commands| ==> commands[i].event <= n
    ensures var after := WithCommands(commands, n, key, e, specs);
            forall i :: 0 <= i < |after| ==> after[i].event <= n
    decreases |specs|
  {
    if specs != [] {
      var first := WithCommand(commands, n, key, e, specs[0]);
      assert forall i :: 0 <= i < |first| ==> first[i].event <= n;
      CommandsPointBack(first, n, key, e, specs[1..]);
      assert WithCommands(commands, n, key, e, specs) == WithCommands(first, n, key, e, specs[1..]);
    } else {
      assert WithCommands(commands, n, key, e, specs) == commands;
    }
  }

  /** Appending a command of one type leaves the event without one of another type. */
  lemma StillMissing(commands: seq<Command>, n: nat, after: seq<Command>, t: W.CommandType)
    requires forall i :: 0 <= i < |commands| ==> commands[i].event < n
    requires |after| == |commands| + 1 && after[..|commands|] == commands
    requires after[|commands|].commandType != t
    ensures !HasCommand(after, n, t)
  {
    forall i | 0 <= i < |after| ensures after[i].event != n || after[i].commandType != t {
      assert i < |commands| ==> after[..|commands|][i] == commands[i];
    }
  }

  /** Commands for one fence and asset leave the interval of every other pair alone. */
  lemma {:induction false} OthersKeepInterval(commands: seq<Command>, n: nat, key: Key, e: Evaluation,
                                              specs: seq<Spec>, k: Key)
    requires k != key
    ensures LastInterval(WithCommands(commands, n, key, e, specs), k) == LastInterval(commands, k)
    decreases |specs|
  {
    if specs != [] {
      var first := WithCommand(commands, n, key, e, specs[0]);
      assert |first| > |commands| ==> first[..|first| - 1] == commands;
      OthersKeepInterval(first, n, key, e, specs[1..], k);
    }
  }

  /** The commands of one new event end with the interval the event asks for. */
  lemma EventCommands(commands: seq<Command>, n: nat, k: Key, e: Evaluation, kind: EventType)
    requires Commandable(e) && kind != Entered
    requires forall i :: 0 <= i < |commands| ==> commands[i].event < n
    ensures LastInterval(WithCommands(commands, n, k, e, CommandSpecs(kind)), k) == IntervalFor(Some(kind))
  {
    var specs := CommandSpecs(kind);
    CommandAppended(commands, n, k, e, kind, 0, k);
    if |specs| == 2 {
      var first := WithCommand(commands, n, k, e, specs[0]);
      StillMissing(commands, n, first, specs[1].commandType);
      CommandAppended(first, n, k, e, kind, 1, k);
      TwoCommands(commands, n, k, e, specs[0], specs[1]);
      assert specs == [specs[0], specs[1]];
    } else {
      assert specs[1..] == [];
    }
  }

  lemma RowKeepsInterval(db: Db, t: Thresholds, e: Evaluation, asset: int, row: Spatial, key: Key)
    requires (asset == key.asset ==> Commandable(e)) && CommandsOk(db) && IntervalOk(db, key)
    ensures var after := EvaluateRow(db, t, e, asset, row); CommandsOk(after) && IntervalOk(after, key)
  {
    var rowKey, current := Key(row.fence, asset), ResolveStatus(t, row, e.accuracy);
    var kind := ResolveEventType(StatusOf(db.states, rowKey), current);
    if kind.Some? {
      KeyEventsAppend(db.events, Event(rowKey, e.device.id, kind.value), key);
      if rowKey == key {
        EventCommands(db.commands, |db.events|, key, e, kind.value);
      } else {
        OthersKeepInterval(db.commands, |db.events|, rowKey, e, CommandSpecs(kind.value), key);
      }
      CommandsPointBack(db.commands, |db.events|, rowKey, e, CommandSpecs(kind.value));
      assert KeyEvents(db.events, key) + [] == KeyEvents(db.events, key);
    }
  }

  lemma {:induction false} RowsKeepInterval(db: Db, t: Thresholds, e: Evaluation, asset: int, rows: seq<Spatial>,
                                            key: Key)
    requires (asset == key.asset ==> Commandable(e)) && CommandsOk(db) && IntervalOk(db, key)
    ensures var after := EvaluateRows(db, t, e, asset, rows); CommandsOk(after) && IntervalOk(after, key)
  {
    if rows != [] {
      var n := |rows| - 1;
      RowsKeepInterval(db, t, e, asset, rows[..n], key);
      RowKeepsInterval(EvaluateRows(db, t, e, asset, rows[..n]), t, e, asset, rows[n], key);
    }
  }

  /** While every device that carries the asset can be commanded, the report interval a fence last
      commanded is the one its last event stands for, whatever other fences and assets did. */
  lemma {:induction false} IntervalFollowsLastEvent(t: Thresholds, es: seq<Evaluation>, key: Key)
    requires forall i :: 0 <= i < |es| && es[i].device.assetId == Some(key.asset) ==> Commandable(es[i])
    ensures var db := Run(t, es);
            CommandsOk(db) && LastInterval(db.commands, key) == IntervalFor(LastOf(KeyEvents(db.events, key)))
  {
    if |es| > 0 {
      var e := es[|es| - 1];
      IntervalFollowsLastEvent(t, es[..|es| - 1], key);
      if e.device.assetId.Some? {
        RowsKeepInterval(Run(t, es[..|es| - 1]), t, e, e.device.assetId.value, e.rows, key);
      }
    }
  }

  /** In particular an asset outside its fence is told to report every five seconds. */
  lemma OutsideReportsEveryFiveSeconds(t: Thresholds, es: seq<Evaluation>, key: Key)
    requires forall i :: 0 <= i < |es| && es[i].device.assetId == Some(key.asset) ==> Commandable(es[i])
    requires StatusOf(Run(t, es).states, key) == Some(Outside)
    ensures LastInterval(Run(t, es).commands, key) == Some(5)
  {
    ExitsAreBalanced(t, es, key);
    IntervalFollowsLastEvent(t, es, key);
  }
}
