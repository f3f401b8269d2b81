/** The life of a device command row under its five writers: the expiry sweep, the dispatcher, the
    transmission acknowledgement, the network acknowledgement and the application acknowledgement
    (command_dispatcher_worker/main.py, src/integrations/chirpstack/service.py,
    src/service/device_command_ack_service.py). */
module CommandLifecycle {
  import opened Basics

  datatype CommandStatus = Pending | Sent | Acked | Failed | Expired

  datatype AckStatus = Executed | Duplicate | AckExpired | Rejected | AckFailed

  /** A row of `device_commands`; the columns that no writer changes are only those needed here. */
  datatype Command = Command(
    deviceId: int, commandSeq: int, createdAt: int, expiresAt: Option<int>,
    status: CommandStatus, queueItemId: Option<string>,
    sentAt: Option<int>, txAckedAt: Option<int>, lorawanAckAt: Option<int>,
    ackAt: Option<int>, failedAt: Option<int>, errorMessage: Option<string>)

  /** Outcome of handing a command to the transport. */
  datatype EnqueueResult = EnqueueResult(
    sent: bool, queueItemId: Option<string>, errorMessage: Option<string>, retryable: bool)

  predicate IsTerminal(s: CommandStatus) {
    s == Acked || s == Failed || s == Expired
  }

  /** Python's `value or default`: a missing or empty text is replaced. */
  function TextOr(text: Option<string>, default: string): string {
    if text.Some? && text.value != "" then text.value else default
  }

  function Truncated(s: string): string {
    if |s| <= 500 then s else s[..500]
  }

  function OrNow(time: Option<int>, now: int): int {
    if time.Some? then time.value else now
  }

  // ----- Each writer as a function of the row

  /** Selected by the expiry sweep. */
  predicate IsDue(c: Command, now: int) {
    !IsTerminal(c.status) && c.expiresAt.Some? && c.expiresAt.value <= now
  }

  function Sweep(c: Command, now: int): Command {
    if IsDue(c, now)
    then c.(status := Expired, failedAt := Some(now),
            errorMessage := Some("Command expired before application ACK"))
    else c
  }

  /** Selected by the dispatcher. */
  predicate IsDispatchable(c: Command, now: int) {
    c.status == Pending && (c.expiresAt.None? || c.expiresAt.value > now)
  }

  function Enqueue(c: Command, r: EnqueueResult, now: int): Command {
    if r.sent then
      c.(queueItemId := if r.queueItemId.Some? && r.queueItemId.value != "" then r.queueItemId else c.queueItemId,
         status := Sent, sentAt := Some(now), failedAt := None, errorMessage := None)
    else
      var refused := c.(errorMessage := Some(Truncated(TextOr(r.errorMessage, "Command enqueue failed"))));
      if r.retryable then refused else refused.(status := Failed, failedAt := Some(now))
  }

  predicate IsOkTxStatus(txStatus: string) {
    txStatus == "" || txStatus == "OK"
  }

  /** A transmission acknowledgement with its normalised (trimmed, upper-case) status. */
  function TxAck(c: Command, queueItemId: string, txStatus: string, time: Option<int>, now: int): Command {
    var linked := if c.queueItemId.None? then c.(queueItemId := Some(queueItemId)) else c;
    if IsOkTxStatus(txStatus) then
      linked.(txAckedAt := if c.txAckedAt.None? then Some(OrNow(time, now)) else c.txAckedAt, errorMessage := None)
    else
      FailUnlessTerminal(linked, now).(
        errorMessage := Some("LoRaWAN downlink transmission status was " + txStatus))
  }

  function FailUnlessTerminal(c: Command, now: int): Command {
    if IsTerminal(c.status) then c else c.(status := Failed, failedAt := Some(now))
  }

  function NetworkAck(c: Command, queueItemId: string, acknowledged: Option<bool>, time: Option<int>, now: int)
    : Command
  {
    var linked := if c.queueItemId.None? then c.(queueItemId := Some(queueItemId)) else c;
    match acknowledged
    case Some(true) => linked.(lorawanAckAt := Some(OrNow(time, now)), errorMessage := None)
    case Some(false) =>
      FailUnlessTerminal(linked, now).(errorMessage := Some("LoRaWAN downlink was not acknowledged"))
    case None => linked
  }

  function ApplicationAck(c: Command, status: AckStatus, executedAt: Option<int>,
                          message: Option<string>, now: int): Command {
    match status
    case Executed =>
      c.(status := Acked, ackAt := Some(OrNow(executedAt, now)), failedAt := None, errorMessage := message)
    case Duplicate =>
      c.(status := Acked, ackAt := Some(OrNow(executedAt, now)), failedAt := None, errorMessage := message)
    case AckExpired => c.(status := Expired, errorMessage := Some(TextOr(message, "Device reported command expired")))
    case Rejected => c.(status := Failed, failedAt := Some(now),
                        errorMessage := Some(TextOr(message, "Device reported command rejected")))
    case AckFailed => c.(status := Failed, failedAt := Some(now),
                         errorMessage := Some(TextOr(message, "Device reported command failed")))
  }

  // ----- The row as the object the handlers mutate

  class DeviceCommand {
    const deviceId: int
    const commandSeq: int
    const createdAt: int
    const expiresAt: Option<int>
    var status: CommandStatus
    var queueItemId: Option<string>
    var sentAt: Option<int>
    var txAckedAt: Option<int>
    var lorawanAckAt: Option<int>
    var ackAt: Option<int>
    var failedAt: Option<int>
    var errorMessage: Option<string>

    function Value(): Command
      reads this
    {
      Command(deviceId, commandSeq, createdAt, expiresAt, status, queueItemId, sentAt, txAckedAt,
              lorawanAckAt, ackAt, failedAt, errorMessage)
    }

    constructor Create(deviceId: int, commandSeq: int, createdAt: int, expiresAt: Option<int>)
      ensures Value() == Created(deviceId, commandSeq, createdAt, expiresAt)
    {
      this.deviceId, this.commandSeq := deviceId, commandSeq;
      this.createdAt, this.expiresAt := createdAt, expiresAt;
      status, queueItemId, sentAt, txAckedAt := Pending, None, None, None;
      lorawanAckAt, ackAt, failedAt, errorMessage := None, None, None, None;
    }

    /** The update made by the sweep to a row it selected. */
    method Expire(now: int)
      requires IsDue(Value(), now)
      modifies this
      ensures Value() == Sweep(old(Value()), now)
    {
      status := Expired;
      failedAt := Some(now);
      errorMessage := Some("Command expired before application ACK");
    }

    method ApplyEnqueueResult(result: EnqueueResult, now: int)
      modifies this
      ensures Value() == Enqueue(old(Value()), result, now)
    {
      if !result.sent {
        errorMessage := Some(Truncated(TextOr(result.errorMessage, "Command enqueue failed")));
        if result.retryable {
          return;
        }
        status := Failed;
        failedAt := Some(now);
        return;
      }
      if result.queueItemId.Some? && result.queueItemId.value != "" {
        queueItemId := result.queueItemId;
      }
      status := Sent;
      sentAt := Some(now);
      failedAt := None;
      errorMessage := None;
    }

    /** `normalize` stands for the library's trimming and upper-casing of text. */
    method ApplyTxAck(eventQueueItemId: string, rawStatus: Option<string>, normalize: string -> string,
                      time: Option<int>, now: int)
      modifies this
      ensures Value() == TxAck(old(Value()), eventQueueItemId, normalize(TextOr(rawStatus, "")), time, now)
    {
      var txStatus := normalize(TextOr(rawStatus, ""));
      if queueItemId.None? {
        queueItemId := Some(eventQueueItemId);
      }
      if txStatus == "" || txStatus == "OK" {
        if txAckedAt.None? {
          txAckedAt := Some(OrNow(time, now));
        }
        errorMessage := None;
      } else {
        if !IsTerminal(status) {
          status := Failed;
          failedAt := Some(now);
        }
        errorMessage := Some("LoRaWAN downlink transmission status was " + txStatus);
      }
    }

    method ApplyNetworkAck(eventQueueItemId: string, acknowledged: Option<bool>, time: Option<int>, now: int)
      returns (processed: bool)
      modifies this
      ensures Value() == NetworkAck(old(Value()), eventQueueItemId, acknowledged, time, now)
      ensures processed == acknowledged.Some?
    {
      if queueItemId.None? {
        queueItemId := Some(eventQueueItemId);
      }
      if acknowledged == Some(true) {
        lorawanAckAt := Some(OrNow(time, now));
        errorMessage := None;
        processed := true;
      } else if acknowledged == Some(false) {
        if !IsTerminal(status) {
          status := Failed;
          failedAt := Some(now);
        }
        errorMessage := Some("LoRaWAN downlink was not acknowledged");
        processed := true;
      } else {
        processed := false;
      }
    }

    method ApplyApplicationAck(ack: AckStatus, executedAt: Option<int>, message: Option<string>, now: int)
      returns (previous: CommandStatus)
      modifies this
      ensures Value() == ApplicationAck(old(Value()), ack, executedAt, message, now)
      ensures previous == old(status)
    {
      previous := status;
      if ack == Executed || ack == Duplicate {
        status := Acked;
        ackAt := Some(OrNow(executedAt, now));
        failedAt := None;
        errorMessage := message;
      } else if ack == AckExpired {
        status := Expired;
        errorMessage := Some(TextOr(message, "Device reported command expired"));
      } else {
        status := Failed;
        failedAt := Some(now);
        errorMessage := Some(TextOr(message, if ack == Rejected then "Device reported command rejected"
                                             else "Device reported command failed"));
      }
    }
  }

  // ----- Interleavings of the writers over a table of rows

  function Created(deviceId: int, commandSeq: int, createdAt: int, expiresAt: Option<int>): Command {
    Command(deviceId, commandSeq, createdAt, expiresAt, Pending, None, None, None, None, None, None, None)
  }

  /** One committed transaction of one of the writers. Network events name a queue item and arrive
      for a device; application acknowledgements arrive from a device and name a row, directly or by
      that device and a number. */
  datatype Action =
    | CreateCommand(newDevice: int, newSeq: int, createdAt: int, expiresAt: Option<int>)
    | SweepRows(rows: set<nat>, sweepNow: int)
    | Dispatch(row: nat, selectedAt: int, result: EnqueueResult, sentNow: int)
    | ReceiveTxAck(txDevice: int, txQueueItem: Option<string>, txStatus: string, txTime: Option<int>, txNow: int)
    | ReceiveNetworkAck(naDevice: int, naQueueItem: Option<string>, acknowledged: Option<bool>,
                        naTime: Option<int>, naNow: int)
    | ReceiveAckById(idDevice: int, ackRow: nat, idStatus: AckStatus,
                     idExecutedAt: Option<int>, idMessage: Option<string>, idNow: int)
    | ReceiveAckBySeq(ackDevice: int, ackSeq: int, seqStatus: AckStatus,
                      seqExecutedAt: Option<int>, seqMessage: Option<string>, seqNow: int)

  predicate OnlyRow(table: seq<Command>, p: Command -> bool, i: nat) {
    i < |table| && p(table[i]) && forall j :: 0 <= j < |table| && j != i ==> !p(table[j])
  }

  /** `_resolve_command_for_network_event`: the one row with this queue item, if it belongs to the
      device. Several such rows raise and the transaction is rolled back. */
  predicate ResolvesTo(table: seq<Command>, device: int, queueItem: Option<string>, i: nat) {
    && queueItem.Some? && queueItem.value != ""
    && OnlyRow(table, (c: Command) => c.queueItemId == queueItem, i)
    && table[i].deviceId == device
  }

  predicate ResolvesBySeq(table: seq<Command>, device: int, seqNo: int, i: nat) {
    OnlyRow(table, (c: Command) => c.deviceId == device && c.commandSeq == seqNo, i)
  }

  /** What one action does to the row at position i. */
  function RowAfter(table: seq<Command>, a: Action, i: nat): Command
    requires i < |table|
  {
    var c := table[i];
    match a
    case CreateCommand(_, _, _, _) => c
    case SweepRows(rows, now) => if i in rows then Sweep(c, now) else c
    case Dispatch(row, selectedAt, result, now) =>
      if row == i && IsDispatchable(c, selectedAt) then Enqueue(c, result, now) else c
    case ReceiveTxAck(device, item, status, time, now) =>
      if ResolvesTo(table, device, item, i) then TxAck(c, item.value, status, time, now) else c
    case ReceiveNetworkAck(device, item, acknowledged, time, now) =>
      if ResolvesTo(table, device, item, i) then NetworkAck(c, item.value, acknowledged, time, now) else c
    case ReceiveAckById(_, row, status, executedAt, message, now) =>
      if row == i then ApplicationAck(c, status, executedAt, message, now) else c
    case ReceiveAckBySeq(device, seqNo, status, executedAt, message, now) =>
      if ResolvesBySeq(table, device, seqNo, i) then ApplicationAck(c, status, executedAt, message, now) else c
  }

  function Step(table: seq<Command>, a: Action): (after: seq<Command>)
    ensures |table| <= |after|
  {
    seq(|table|, i requires 0 <= i < |table| => RowAfter(table, a, i))
    + if a.CreateCommand? then [Created(a.newDevice, a.newSeq, a.createdAt, a.expiresAt)] else []
  }

  function Run(actions: seq<Action>): seq<Command> {
    if actions == [] then [] else Step(Run(actions[..|actions| - 1]), actions[|actions| - 1])
  }

  /** A table after further actions. */
  function Replay(table: seq<Command>, actions: seq<Action>): (after: seq<Command>)
    ensures |table| <= |after|
  {
    if actions == [] then table else Step(Replay(table, actions[..|actions| - 1]), actions[|actions| - 1])
  }

  /** What no action undoes: identity and times of a row, leaving PENDING, and being finished. */
  predicate Persists(c: Command, after: Command) {
    && after.deviceId == c.deviceId && after.commandSeq == c.commandSeq
    && after.createdAt == c.createdAt && after.expiresAt == c.expiresAt
    && (c.status != Pending ==> after.status != Pending)
    && (IsTerminal(c.status) ==> IsTerminal(after.status))
  }

  lemma RowPersists(table: seq<Command>, a: Action, i: nat)
    requires i < |table|
    ensures Persists(table[i], RowAfter(table, a, i))
  {
  }

  lemma {:induction false} ReplayPersists(table: seq<Command>, actions: seq<Action>, i: nat)
    requires i < |table|
    ensures Persists(table[i], Replay(table, actions)[i])
  {
    if actions != [] {
      var init, a := actions[..|actions| - 1], actions[|actions| - 1];
      ReplayPersists(table, init, i);
      RowPersists(Replay(table, init), a, i);
    }
  }

  // ----- What every reachable row satisfies

  predicate RowOk(c: Command) {
    && (c.status == Pending ==>
          c.queueItemId.None? && c.sentAt.None? && c.ackAt.None? && c.failedAt.None?)
    && (c.status == Sent ==> c.sentAt.Some? && c.failedAt.None?)
    && (c.status == Failed ==> c.failedAt.Some?)
    && (c.status == Acked ==> c.ackAt.Some? && c.failedAt.None?)
    && (c.queueItemId.Some? ==> c.sentAt.Some?)
    && (c.txAckedAt.Some? || c.lorawanAckAt.Some? ==> c.queueItemId.Some? && c.sentAt.Some?)
  }

  function Rank(s: CommandStatus): int {
    match s
    case Pending => 0
    case Sent => 1
    case _ => 2
  }

  /** The status never moves backwards, the time of the first transmission acknowledgement is never
      rewritten, and the queue item and the moment of sending are never forgotten. */
  predicate Progress(c: Command, after: Command) {
    && Rank(c.status) <= Rank(after.status)
    && (c.status != Pending ==> after.status != Pending)
    && (c.txAckedAt.Some? ==> after.txAckedAt == c.txAckedAt)
    && (c.queueItemId.Some? ==> after.queueItemId == c.queueItemId)
    && (c.sentAt.Some? ==> after.sentAt == c.sentAt)
  }

  lemma SweepOk(c: Command, now: int)
    requires RowOk(c)
    ensures RowOk(Sweep(c, now)) && Progress(c, Sweep(c, now))
  {
  }

  lemma EnqueueOk(c: Command, r: EnqueueResult, now: int)
    requires RowOk(c) && c.status == Pending
    ensures RowOk(Enqueue(c, r, now)) && Progress(c, Enqueue(c, r, now))
  {
  }

  lemma TxAckOk(c: Command, item: string, txStatus: string, time: Option<int>, now: int)
    requires RowOk(c) && c.queueItemId == Some(item)
    ensures var after := TxAck(c, item, txStatus, time, now);
            RowOk(after) && Progress(c, after) && (IsTerminal(c.status) ==> after.status == c.status)
  {
  }

  lemma NetworkAckOk(c: Command, item: string, acknowledged: Option<bool>, time: Option<int>, now: int)
    requires RowOk(c) && c.queueItemId == Some(item)
    ensures var after := NetworkAck(c, item, acknowledged, time, now);
            RowOk(after) && Progress(c, after) && (IsTerminal(c.status) ==> after.status == c.status)
  {
  }

  lemma ApplicationAckOk(c: Command, status: AckStatus, executedAt: Option<int>, message: Option<string>, now: int)
    requires RowOk(c)
    ensures var after := ApplicationAck(c, status, executedAt, message, now);
            RowOk(after) && Progress(c, after) && after.status == Image(status)
  {
  }

  /** One action keeps the row consistent and moving forward, and changes a terminal status only
      when it is an application acknowledgement. */
  lemma RowStep(table: seq<Command>, a: Action, i: nat)
    requires i < |table| && RowOk(table[i])
    ensures RowOk(RowAfter(table, a, i)) && Progress(table[i], RowAfter(table, a, i))
    ensures IsTerminal(table[i].status) && AckApplied(table, a, i).None? ==>
              RowAfter(table, a, i).status == table[i].status
  {
    var c := table[i];
    match a
    case CreateCommand(_, _, _, _) =>
    case SweepRows(rows, now) => SweepOk(c, now);
    case Dispatch(row, at, result, now) => if IsDispatchable(c, at) { EnqueueOk(c, result, now); }
    case ReceiveTxAck(device, item, status, time, now) =>
      if ResolvesTo(table, device, item, i) { TxAckOk(c, item.value, status, time, now); }
    case ReceiveNetworkAck(device, item, acknowledged, time, now) =>
      if ResolvesTo(table, device, item, i) { NetworkAckOk(c, item.value, acknowledged, time, now); }
    case ReceiveAckById(_, row, status, executedAt, message, now) =>
      ApplicationAckOk(c, status, executedAt, message, now);
    case ReceiveAckBySeq(device, seqNo, status, executedAt, message, now) =>
      ApplicationAckOk(c, status, executedAt, message, now);
  }

  lemma {:induction false} ReachableRowsOk(actions: seq<Action>, i: nat)
    requires i < |Run(actions)|
    ensures RowOk(Run(actions)[i])
  {
    if actions != [] {
      var init, a := actions[..|actions| - 1], actions[|actions| - 1];
      if i < |Run(init)| {
        ReachableRowsOk(init, i);
        RowStep(Run(init), a, i);
      }
    }
  }

  /** What an earlier state of a row fixes for ever. */
  lemma {:induction false} HistoryOfARow(actions: seq<Action>, k: nat, i: nat)
    requires k <= |actions| && i < |Run(actions[..k])|
    ensures i < |Run(actions)|
    ensures Progress(Run(actions[..k])[i], Run(actions)[i])
  {
    if k == |actions| {
      assert actions[..k] == actions;
    } else {
      var init := actions[..|actions| - 1];
      assert init[..k] == actions[..k];
      HistoryOfARow(init, k, i);
      ReachableRowsOk(init, i);
      RowStep(Run(init), actions[|actions| - 1], i);
    }
  }

  // ----- The last application acknowledgement decides

  /** The acknowledgement an action applies to row i, if any. */
  function AckApplied(table: seq<Command>, a: Action, i: nat): Option<AckStatus>
    requires i < |table|
  {
    match a
    case ReceiveAckById(_, row, status, _, _, _) => if row == i then Some(status) else None
    case ReceiveAckBySeq(device, seqNo, status, _, _, _) =>
      if ResolvesBySeq(table, device, seqNo, i) then Some(status) else None
    case _ => None
  }

  function LastAck(actions: seq<Action>, i: nat): Option<AckStatus> {
    if actions == [] then None
    else
      var init, a := actions[..|actions| - 1], actions[|actions| - 1];
      if i < |Run(init)| && AckApplied(Run(init), a, i).Some? then AckApplied(Run(init), a, i)
      else LastAck(init, i)
  }

  function Image(s: AckStatus): CommandStatus {
    match s
    case Executed => Acked
    case Duplicate => Acked
    case AckExpired => Expired
    case Rejected => Failed
    case AckFailed => Failed
  }

  /** In any interleaving of the five writers, once an application acknowledgement has reached a row
      the row's status is the image of the most recent one, whatever else happened since. */
  lemma {:induction false} LastAckDecides(actions: seq<Action>, i: nat)
    requires i < |Run(actions)| && LastAck(actions, i).Some?
    ensures Run(actions)[i].status == Image(LastAck(actions, i).value)
  {
    var init, a := actions[..|actions| - 1], actions[|actions| - 1];
    if i < |Run(init)| {
      if AckApplied(Run(init), a, i).None? {
        LastAckDecides(init, i);
        ReachableRowsOk(init, i);
        RowStep(Run(init), a, i);
      }
    } else {
      NoAckBeforeCreation(init, i);
    }
  }

  lemma {:induction false} NoAckBeforeCreation(actions: seq<Action>, i: nat)
    requires |Run(actions)| <= i
    ensures LastAck(actions, i).None?
  {
    if actions != [] {
      NoAckBeforeCreation(actions[..|actions| - 1], i);
    }
  }

  /** A command the device never answered is acknowledged by nobody else. */
  lemma {:induction false} OnlyAcksAcknowledge(actions: seq<Action>, i: nat)
    requires i < |Run(actions)| && Run(actions)[i].status == Acked
    ensures LastAck(actions, i) == Some(Executed) || LastAck(actions, i) == Some(Duplicate)
  {
    var init, a := actions[..|actions| - 1], actions[|actions| - 1];
    if i < |Run(init)| && AckApplied(Run(init), a, i).None? {
      OnlyAcksAcknowledge(init, i);
    }
  }

  // ----- Whose acknowledgement it is

  predicate IsAck(a: Action) { a.ReceiveAckById? || a.ReceiveAckBySeq? }

  function Sender(a: Action): int
    requires IsAck(a)
  {
    if a.ReceiveAckById? then a.idDevice else a.ackDevice
  }

  /** An acknowledgement reaches only rows of the device that sent it exactly when it names the row by
      number, or the row it names directly is the device's or does not exist: the direct lookup does
      not compare the two. */
  lemma AckStaysWithItsSenderExactly(table: seq<Command>, a: Action)
    requires IsAck(a)
    ensures (forall i :: 0 <= i < |table| && AckApplied(table, a, i).Some? ==> table[i].deviceId == Sender(a))
            <==> (a.ReceiveAckBySeq? || a.ackRow >= |table| || table[a.ackRow].deviceId == Sender(a))
  {
    if a.ReceiveAckById? && a.ackRow < |table| {
      assert AckApplied(table, a, a.ackRow).Some?;
    }
  }

  /** The exception occurs: device 2 acknowledges a command of device 1. */
  lemma AckedByAnotherDevice(actions: seq<Action>)
    requires actions == [CreateCommand(1, 1, 0, None)] + [ReceiveAckById(2, 0, Executed, None, None, 5)]
    ensures |Run(actions)| == 1 && Run(actions)[0].deviceId == 1 && Run(actions)[0].status == Acked
  {
    var created := [CreateCommand(1, 1, 0, None)];
    assert created[..0] == [] && actions[..1] == created;
    assert Run(created) == [Created(1, 1, 0, None)];
  }
}
