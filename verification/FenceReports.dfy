/** What the evaluation of a location stores, reports, raises and commands, told from coverage,
    distance, accuracy and the earlier status alone. */
module FenceReports {
  import opened Basics
  import opened GeofenceEvaluation
  import W = WireContract

  // ----- The level of one fence

  /** An accuracy is given and is no better than the limit. */
  predicate PoorGps(t: Thresholds, accuracy: Option<real>) {
    accuracy.Some? && t.gpsUncertain <= accuracy.value
  }

  /** The level of a fence for a location. */
  predicate IsLevel(t: Thresholds, row: Spatial, accuracy: Option<real>, level: Status) {
    && (level == GpsUncertain <==> PoorGps(t, accuracy))
    && (level == Outside <==> !PoorGps(t, accuracy) && !row.inside)
    && (level == NearLimit
        <==> !PoorGps(t, accuracy) && row.inside && row.distance.Some? && row.distance.value <= t.nearLimit)
    && (level == Safe
        <==> !PoorGps(t, accuracy) && row.inside && (row.distance.None? || t.nearLimit < row.distance.value))
  }

  lemma LevelExactly(t: Thresholds, row: Spatial, accuracy: Option<real>)
    ensures IsLevel(t, row, accuracy, ResolveStatus(t, row, accuracy))
  {
  }

  lemma {:induction false} LaterRowsKeepState(db: Db, t: Thresholds, e: Evaluation, asset: int, i: nat, n: nat)
    requires i < n <= |e.rows| && forall j :: i < j < n ==> e.rows[j].fence != e.rows[i].fence
    ensures StatusOf(EvaluateRows(db, t, e, asset, e.rows[..n]).states, Key(e.rows[i].fence, asset))
            == Some(ResolveStatus(t, e.rows[i], e.accuracy))
  {
    OneMoreRow(db, t, e, asset, n - 1);
    if i < n - 1 {
      LaterRowsKeepState(db, t, e, asset, i, n - 1);
    }
  }

  lemma {:induction false} OtherStatesStay(db: Db, t: Thresholds, e: Evaluation, asset: int, key: Key, n: nat)
    requires n <= |e.rows| && forall j :: 0 <= j < n ==> Key(e.rows[j].fence, asset) != key
    ensures StatusOf(EvaluateRows(db, t, e, asset, e.rows[..n]).states, key) == StatusOf(db.states, key)
  {
    if n > 0 {
      OneMoreRow(db, t, e, asset, n - 1);
      OtherStatesStay(db, t, e, asset, key, n - 1);
    }
  }

  lemma {:induction false} ReportedLevel(db: Db, t: Thresholds, e: Evaluation, asset: int, n: nat, i: nat)
    requires i < n <= |e.rows|
    ensures |Results(db, t, e, asset, n)| == n
    ensures Results(db, t, e, asset, n)[i].fence == e.rows[i].fence
    ensures Results(db, t, e, asset, n)[i].level == ResolveStatus(t, e.rows[i], e.accuracy)
    ensures Results(db, t, e, asset, n)[i].eventCreated
            <==> |EvaluateRows(db, t, e, asset, e.rows[..i]).events|
                 < |EvaluateRows(db, t, e, asset, e.rows[..i + 1]).events|
  {
    if n - 1 > 0 {
      ReportedLevel(db, t, e, asset, n - 1, if i < n - 1 then i else 0);
    }
  }

  /** Evaluating a location stores and reports, for every fence it was measured against, the level
      given by coverage, distance and accuracy, and touches the state of nothing else. */
  lemma StoredAndReportedExactly(db: Db, t: Thresholds, e: Evaluation, i: nat)
    requires e.device.assetId.Some? && i < |e.rows|
    requires forall j :: i < j < |e.rows| ==> e.rows[j].fence != e.rows[i].fence
    ensures var asset := e.device.assetId.value;
            var stored := StatusOf(Evaluate(db, t, e).states, Key(e.rows[i].fence, asset));
            var results := Results(db, t, e, asset, |e.rows|);
            && |results| == |e.rows| && results[i].fence == e.rows[i].fence
            && stored == Some(results[i].level)
            && IsLevel(t, e.rows[i], e.accuracy, results[i].level)
  {
    var asset := e.device.assetId.value;
    assert e.rows[..|e.rows|] == e.rows;
    LaterRowsKeepState(db, t, e, asset, i, |e.rows|);
    ReportedLevel(db, t, e, asset, |e.rows|, i);
    LevelExactly(t, e.rows[i], e.accuracy);
  }

  lemma UnmeasuredStatesStay(db: Db, t: Thresholds, e: Evaluation, key: Key)
    requires e.device.assetId != Some(key.asset) || forall j :: 0 <= j < |e.rows| ==> e.rows[j].fence != key.fence
    ensures StatusOf(Evaluate(db, t, e).states, key) == StatusOf(db.states, key)
  {
    if e.device.assetId.Some? {
      assert e.rows[..|e.rows|] == e.rows;
      OtherStatesStay(db, t, e, e.device.assetId.value, key, |e.rows|);
    }
  }

  // ----- The event of one fence

  /** The event of a change of level, if any. Entering a fence is never reported as such. */
  predicate IsEvent(previous: Option<Status>, current: Status, kind: Option<EventType>) {
    && kind != Some(Entered)
    && (kind == Some(Exited) <==> current == Outside && previous != Some(Outside))
    && (kind == Some(Returned) <==> previous == Some(Outside) && (current == Safe || current == NearLimit))
    && (kind == Some(GpsLost) <==> current == GpsUncertain && previous != Some(GpsUncertain))
    && (kind == Some(NearLimitReached)
        <==> current == NearLimit && previous != Some(NearLimit) && previous != Some(Outside))
  }

  /** One fence raises the event of its change of level, for its own fence, asset and device, and
      reports that it did exactly if it did. */
  lemma RaisedExactly(db: Db, t: Thresholds, e: Evaluation, asset: int, row: Spatial)
    ensures var after, key := EvaluateRow(db, t, e, asset, row), Key(row.fence, asset);
            if |after.events| == |db.events| then
              after.events == db.events && after.commands == db.commands
              && IsEvent(StatusOf(db.states, key), ResolveStatus(t, row, e.accuracy), None)
            else
              && |after.events| == |db.events| + 1 && after.events[..|db.events|] == db.events
              && var raised := after.events[|db.events|];
                 raised.key == key && raised.device == e.device.id
                 && IsEvent(StatusOf(db.states, key), ResolveStatus(t, row, e.accuracy), Some(raised.kind))
  {
    var previous, current := StatusOf(db.states, Key(row.fence, asset)), ResolveStatus(t, row, e.accuracy);
    EventExactly(previous, current);
  }

  lemma EventExactly(previous: Option<Status>, current: Status)
    ensures IsEvent(previous, current, ResolveEventType(previous, current))
  {
  }

  // ----- The commands of one event

  /** Type and parameter of the commands an event calls for, as the device reads them. */
  function Orders(kind: EventType): seq<(W.CommandType, Option<int>)> {
    match kind
    case NearLimitReached => [(W.SetReportInterval, Some(15)), (W.WarningSound, Some(2))]
    case Exited => [(W.SetReportInterval, Some(5)), (W.WarningSound, Some(2))]
    case Returned => [(W.StopCorrection, None), (W.SetReportInterval, Some(600))]
    case GpsLost => [(W.SetReportInterval, Some(30))]
    case Entered => []
  }

  /** The command carries the order, for this event, under the number allocated to it. */
  predicate Carries(c: Command, n: nat, key: Key, seqNo: int, order: (W.CommandType, Option<int>)) {
    && c.event == n && c.key == key && c.commandType == order.0 && c.commandSeq == seqNo
    && W.DecodeCommand(c.payload) == Ok(W.Decoded(order.0, seqNo, 0, order.1))
  }

  /** The order is what the device reads, whatever number the command gets. */
  ghost predicate Means(spec: Spec, order: (W.CommandType, Option<int>)) {
    && spec.commandType == order.0
    && forall seqNo :: W.ValidSeq(seqNo) ==>
         var encoded := W.EncodeCommand(spec.commandType, seqNo, spec.fields);
         encoded.Ok? && W.DecodeCommand(encoded.value) == Ok(W.Decoded(order.0, seqNo, 0, order.1))
  }

  lemma SpecsMeanOrders(kind: EventType, j: nat)
    requires j < |CommandSpecs(kind)|
    ensures |Orders(kind)| == |CommandSpecs(kind)| && Means(CommandSpecs(kind)[j], Orders(kind)[j])
  {
    var spec := CommandSpecs(kind)[j];
    forall seqNo | W.ValidSeq(seqNo)
      ensures var encoded := W.EncodeCommand(spec.commandType, seqNo, spec.fields);
              encoded.Ok?
              && W.DecodeCommand(encoded.value) == Ok(W.Decoded(Orders(kind)[j].0, seqNo, 0, Orders(kind)[j].1))
    {
      SpecsEncode(kind, j, seqNo);
      W.DecodeAfterEncode(spec.commandType, seqNo, spec.fields);
      assert W.CeilDiv(1500, 1000) == 2 && W.CeilDiv(2000, 1000) == 2;
    }
  }

  lemma OrderAppended(commands: seq<Command>, n: nat, key: Key, e: Evaluation, spec: Spec,
                      order: (W.CommandType, Option<int>))
    requires Commandable(e) && Means(spec, order) && !HasCommand(commands, n, spec.commandType)
    ensures var after := WithCommand(commands, n, key, e, spec);
            && |after| == |commands| + 1 && after[..|commands|] == commands
            && Carries(after[|commands|], n, key, e.allocate(|commands|).value, order)
  {
    assert W.ValidSeq(e.allocate(|commands|).value);
  }

  /** The new commands carry the orders, one each and in order. */
  ghost predicate AreGiven(commands: seq<Command>, after: seq<Command>, n: nat, key: Key, e: Evaluation,
                           orders: seq<(W.CommandType, Option<int>)>)
  {
    && |after| == |commands| + |orders| && after[..|commands|] == commands
    && forall j :: 0 <= j < |orders| ==>
         var seqNo := e.allocate(|commands| + j);
         seqNo.Some? && Carries(after[|commands| + j], n, key, seqNo.value, orders[j])
  }

  lemma TwoOrders(commands: seq<Command>, n: nat, key: Key, e: Evaluation, a: Spec, b: Spec,
                  first: (W.CommandType, Option<int>), second: (W.CommandType, Option<int>))
    requires Commandable(e) && forall i :: 0 <= i < |commands| ==> commands[i].event < n
    requires Means(a, first) && Means(b, second) && a.commandType != b.commandType
    ensures AreGiven(commands, WithCommands(commands, n, key, e, [a, b]), n, key, e, [first, second])
  {
    var one := WithCommand(commands, n, key, e, a);
    OrderAppended(commands, n, key, e, a, first);
    StillMissing(commands, n, one, b.commandType);
    OrderAppended(one, n, key, e, b, second);
    TwoCommands(commands, n, key, e, a, b);
    GivenTwice(commands, one, WithCommand(one, n, key, e, b), n, key, e, first, second);
  }

  lemma GivenTwice(commands: seq<Command>, one: seq<Command>, two: seq<Command>, n: nat, key: Key, e: Evaluation,
                   first: (W.CommandType, Option<int>), second: (W.CommandType, Option<int>))
    requires |one| == |commands| + 1 && one[..|commands|] == commands
    requires |two| == |one| + 1 && two[..|one|] == one
    requires e.allocate(|commands|).Some? && e.allocate(|one|).Some?
    requires Carries(one[|commands|], n, key, e.allocate(|commands|).value, first)
    requires Carries(two[|one|], n, key, e.allocate(|one|).value, second)
    ensures AreGiven(commands, two, n, key, e, [first, second])
  {
    AppendedTwice(commands, one, two);
  }

  lemma AppendedTwice<T>(s: seq<T>, first: seq<T>, second: seq<T>)
    requires |first| == |s| + 1 && first[..|s|] == s && |second| == |first| + 1 && second[..|first|] == first
    ensures second[..|s|] == s && second[|s|] == first[|s|]
  {
    assert second[..|s|] == second[..|first|][..|s|];
  }

  lemma OneOrder(commands: seq<Command>, n: nat, key: Key, e: Evaluation, a: Spec, order: (W.CommandType, Option<int>))
    requires Commandable(e) && forall i :: 0 <= i < |commands| ==> commands[i].event < n
    requires Means(a, order)
    ensures AreGiven(commands, WithCommands(commands, n, key, e, [a]), n, key, e, [order])
  {
    OrderAppended(commands, n, key, e, a, order);
    assert [a][1..] == [];
  }

  /** For a device that can be commanded, a new event adds exactly its orders, in order, each under a
      number of its own, and nothing else. */
  lemma OrdersAreGiven(commands: seq<Command>, n: nat, key: Key, e: Evaluation, kind: EventType)
    requires Commandable(e) && forall i :: 0 <= i < |commands| ==> commands[i].event < n
    ensures AreGiven(commands, WithCommands(commands, n, key, e, CommandSpecs(kind)), n, key, e, Orders(kind))
  {
    var specs, orders := CommandSpecs(kind), Orders(kind);
    if |specs| == 2 {
      SpecsMeanOrders(kind, 0);
      SpecsMeanOrders(kind, 1);
      TwoOrders(commands, n, key, e, specs[0], specs[1], orders[0], orders[1]);
      assert specs == [specs[0], specs[1]] && orders == [orders[0], orders[1]];
    } else if |specs| == 1 {
      SpecsMeanOrders(kind, 0);
      OneOrder(commands, n, key, e, specs[0], orders[0]);
      assert specs == [specs[0]] && orders == [orders[0]];
    }
  }

  /** A device that is not a ChirpStack device, or lacks an identifier, gets no command at all. */
  lemma {:induction false} NobodyElseIsCommanded(commands: seq<Command>, n: nat, key: Key, e: Evaluation,
                                                 specs: seq<Spec>)
    requires !e.device.chirpStack || !e.device.hasApplicationId || !e.device.hasDevEui
    ensures WithCommands(commands, n, key, e, specs) == commands
    decreases |specs|
  {
    if specs != [] {
      NobodyElseIsCommanded(commands, n, key, e, specs[1..]);
    }
  }

  /** Nor is a command given twice for the same event and type, or without a number. */
  lemma NoSecondCommand(commands: seq<Command>, n: nat, key: Key, e: Evaluation, spec: Spec)
    requires (exists i :: 0 <= i < |commands| && commands[i].event == n && commands[i].commandType == spec.commandType)
             || e.allocate(|commands|).None?
    ensures WithCommand(commands, n, key, e, spec) == commands
  {
  }

  // ----- Examples

  /** A location covered by fence 3, so many metres from its boundary. */
  function Inside(distance: real, accuracy: real): Evaluation {
    Evaluation(COLLAR.(chirpStack := true, hasApplicationId := true, hasDevEui := true), Some(accuracy),
               [Spatial(3, true, Some(distance))], (n: nat) => Some(1))
  }

  /** The level, the events and the orders of the first location of asset 7. */
  ghost predicate FirstSeen(e: Evaluation, level: Status, kinds: seq<EventType>,
                            orders: seq<(W.CommandType, Option<int>)>)
  {
    var db := Evaluate(EMPTY, DEFAULT_THRESHOLDS, e);
    && db.states == map[Key(3, 7) := level]
    && |db.events| == |kinds|
    && (forall i :: 0 <= i < |kinds| ==> db.events[i] == Event(Key(3, 7), 1, kinds[i]))
    && AreGiven([], db.commands, 0, Key(3, 7), e, orders)
  }

  lemma FirstEvaluation(e: Evaluation, level: Status, kind: EventType)
    requires Commandable(e) && e.device.id == 1 && e.device.assetId == Some(7) && |e.rows| == 1 && e.rows[0].fence == 3
    requires level == ResolveStatus(DEFAULT_THRESHOLDS, e.rows[0], e.accuracy)
    requires ResolveEventType(None, level) == Some(kind)
    ensures FirstSeen(e, level, [kind], Orders(kind))
  {
    FirstRow(e);
    OrdersAreGiven([], 0, Key(3, 7), e, kind);
    var db := EvaluateRow(EMPTY, DEFAULT_THRESHOLDS, e, 7, e.rows[0]);
    assert db.events == [Event(Key(3, 7), 1, kind)];
    assert db.commands == WithCommands([], 0, Key(3, 7), e, CommandSpecs(kind));
  }

  lemma FirstRow(e: Evaluation)
    requires e.device.assetId == Some(7) && |e.rows| == 1
    ensures Evaluate(EMPTY, DEFAULT_THRESHOLDS, e) == EvaluateRow(EMPTY, DEFAULT_THRESHOLDS, e, 7, e.rows[0])
  {
    assert e.rows[..|e.rows| - 1] == [];
    assert EvaluateRows(EMPTY, DEFAULT_THRESHOLDS, e, 7, []) == EMPTY;
  }

  /** 500 m or 51 m from the boundary the animal is safe and nothing happens; at 50 m and at 10 m it is
      near the limit, reports every 15 seconds and is warned for 2; an accuracy of exactly 30 m is poor. */
  lemma LevelsOfAFence()
    ensures FirstSeen(Inside(500.0, 5.0), Safe, [], []) && FirstSeen(Inside(51.0, 29.0), Safe, [], [])
    ensures FirstSeen(Inside(50.0, 5.0), NearLimit, [NearLimitReached],
                      [(W.SetReportInterval, Some(15)), (W.WarningSound, Some(2))])
    ensures FirstSeen(Inside(10.0, 5.0), NearLimit, [NearLimitReached],
                      [(W.SetReportInterval, Some(15)), (W.WarningSound, Some(2))])
    ensures FirstSeen(Inside(500.0, 30.0), GpsUncertain, [GpsLost], [(W.SetReportInterval, Some(30))])
  {
    SafeAndSilent(500.0, 5.0);
    SafeAndSilent(51.0, 29.0);
    FirstEvaluation(Inside(50.0, 5.0), NearLimit, NearLimitReached);
    FirstEvaluation(Inside(10.0, 5.0), NearLimit, NearLimitReached);
    FirstEvaluation(Inside(500.0, 30.0), GpsUncertain, GpsLost);
  }

  lemma SafeAndSilent(distance: real, accuracy: real)
    requires distance > 50.0 && accuracy < 30.0
    ensures FirstSeen(Inside(distance, accuracy), Safe, [], [])
  {
    FirstRow(Inside(distance, accuracy));
  }
}
