/** What each of the five writers does to a command row, field by field and text by text, in every
    reachable table; and that it does nothing else. */
module CommandEffects {
  import opened Basics
  import opened CommandLifecycle

  /** The text, or the default where it is missing or empty. */
  function Given(text: Option<string>, default: string): string {
    match text case None => default case Some(s) => if |s| == 0 then default else s
  }

  /** Row i becomes c and all others stay. */
  predicate OnlyRowChanges(before: seq<Command>, after: seq<Command>, i: nat, c: Command) {
    i < |before| && after == before[i := c]
  }

  // ----- Creation

  lemma CreationAddsAPendingRow(table: seq<Command>, device: int, seqNo: int, at: int, expiresAt: Option<int>)
    ensures Step(table, CreateCommand(device, seqNo, at, expiresAt))
            == table + [Command(device, seqNo, at, expiresAt, Pending, None, None, None, None, None, None, None)]
  {
  }

  // ----- Expiry

  /** The sweep expires exactly the rows selected that are pending or sent and whose time has come. */
  lemma SweepEffect(table: seq<Command>, rows: set<nat>, now: int, i: nat)
    requires i < |table|
    ensures var after := Step(table, SweepRows(rows, now));
            && |after| == |table|
            && after[i] == if i in rows && (table[i].status == Pending || table[i].status == Sent)
                              && table[i].expiresAt.Some? && table[i].expiresAt.value <= now
                           then table[i].(status := Expired, failedAt := Some(now),
                                          errorMessage := Some("Command expired before application ACK"))
                           else table[i]
  {
  }

  // ----- Dispatch

  /** Dispatching a pending row that has not expired: sent, with the transport's queue item; still
      pending, with the reason, if it may be retried; failed otherwise. The reason is the transport's,
      cut to 500 characters, or a default. Any other row is left as it is. */
  lemma DispatchEffect(table: seq<Command>, row: nat, selectedAt: int, r: EnqueueResult, now: int)
    requires row < |table|
    ensures var after := Step(table, Dispatch(row, selectedAt, r, now));
            var c := table[row];
            var reason := Given(r.errorMessage, "Command enqueue failed");
            if c.status != Pending || (c.expiresAt.Some? && c.expiresAt.value <= selectedAt) then after == table
            else
              OnlyRowChanges(table, after, row,
                if r.sent then
                  c.(status := Sent, sentAt := Some(now), failedAt := None, errorMessage := None,
                     queueItemId := if Given(r.queueItemId, "") == "" then c.queueItemId else r.queueItemId)
                else if r.retryable then
                  c.(errorMessage := Some(if |reason| <= 500 then reason else reason[..500]))
                else
                  c.(status := Failed, failedAt := Some(now),
                     errorMessage := Some(if |reason| <= 500 then reason else reason[..500])))
  {
    var after := Step(table, Dispatch(row, selectedAt, r, now));
    assert forall j :: 0 <= j < |table| && j != row ==> after[j] == table[j];
  }

  // ----- Network events

  /** The event names row i: its queue item is that row's and no other's, and the row is the device's. */
  predicate Names(table: seq<Command>, device: int, item: Option<string>, i: nat) {
    && i < |table| && item.Some? && |item.value| > 0 && table[i].queueItemId == item && table[i].deviceId == device
    && forall j :: 0 <= j < |table| && j != i ==> table[j].queueItemId != item
  }

  lemma NamesExactly(table: seq<Command>, device: int, item: Option<string>, i: nat)
    ensures ResolvesTo(table, device, item, i) <==> Names(table, device, item, i)
  {
  }

  /** After "" or "OK" the row keeps its status, the first transmission time is recorded and the error
      is cleared. After any other text a row not yet finished fails, and the reason is kept. */
  lemma TxAckEffect(actions: seq<Action>, device: int, item: Option<string>, text: string, time: Option<int>,
                    now: int, i: nat)
    requires Names(Run(actions), device, item, i)
    ensures var table := Run(actions);
            var c := table[i];
            var at := if time.Some? then time.value else now;
            OnlyRowChanges(table, Step(table, ReceiveTxAck(device, item, text, time, now)), i,
              if text == "" || text == "OK" then
                c.(txAckedAt := if c.txAckedAt.Some? then c.txAckedAt else Some(at), errorMessage := None)
              else if c.status == Pending || c.status == Sent then
                c.(status := Failed, failedAt := Some(now),
                   errorMessage := Some("LoRaWAN downlink transmission status was " + text))
              else c.(errorMessage := Some("LoRaWAN downlink transmission status was " + text)))
  {
    var table := Run(actions);
    NamesExactly(table, device, item, i);
    NobodyElse(table, device, item, i);
    assert Step(table, ReceiveTxAck(device, item, text, time, now))[i] == TxAck(table[i], item.value, text, time, now);
  }

  lemma NobodyElse(table: seq<Command>, device: int, item: Option<string>, i: nat)
    requires Names(table, device, item, i)
    ensures forall j :: 0 <= j < |table| && j != i ==> !ResolvesTo(table, device, item, j)
  {
    forall j | 0 <= j < |table| && j != i ensures !ResolvesTo(table, device, item, j) {
      NamesExactly(table, device, item, j);
    }
  }

  /** An acknowledged downlink is stamped and its error cleared; one that was not acknowledged fails
      the row if it is not finished yet; without the flag nothing changes. */
  lemma NetworkAckEffect(actions: seq<Action>, device: int, item: Option<string>, acknowledged: Option<bool>,
                         time: Option<int>, now: int, i: nat)
    requires Names(Run(actions), device, item, i)
    ensures var table := Run(actions);
            var c := table[i];
            var at := if time.Some? then time.value else now;
            OnlyRowChanges(table, Step(table, ReceiveNetworkAck(device, item, acknowledged, time, now)), i,
              if acknowledged == Some(true) then c.(lorawanAckAt := Some(at), errorMessage := None)
              else if acknowledged == None then c
              else if c.status == Pending || c.status == Sent then
                c.(status := Failed, failedAt := Some(now),
                   errorMessage := Some("LoRaWAN downlink was not acknowledged"))
              else c.(errorMessage := Some("LoRaWAN downlink was not acknowledged")))
  {
    var table := Run(actions);
    NamesExactly(table, device, item, i);
    NobodyElse(table, device, item, i);
    assert Step(table, ReceiveNetworkAck(device, item, acknowledged, time, now))[i]
        == NetworkAck(table[i], item.value, acknowledged, time, now);
  }

  /** A network event that names no row, because its queue item is missing, empty, unknown, used twice
      or another device's, changes nothing. */
  lemma UnresolvedEventIsIgnored(table: seq<Command>, device: int, item: Option<string>, text: string,
                                 acknowledged: Option<bool>, time: Option<int>, now: int)
    requires forall i: nat :: !Names(table, device, item, i)
    ensures Step(table, ReceiveTxAck(device, item, text, time, now)) == table
    ensures Step(table, ReceiveNetworkAck(device, item, acknowledged, time, now)) == table
  {
    forall i | 0 <= i < |table| ensures !ResolvesTo(table, device, item, i) {
      NamesExactly(table, device, item, i);
    }
  }

  // ----- Application acknowledgements

  /** The row after an acknowledgement with this status, message and execution time. */
  predicate IsAcknowledged(c: Command, after: Command, status: AckStatus, executedAt: Option<int>,
                           message: Option<string>, now: int)
  {
    var at := if executedAt.Some? then executedAt.value else now;
    after == match status
             case Executed => c.(status := Acked, ackAt := Some(at), failedAt := None, errorMessage := message)
             case Duplicate => c.(status := Acked, ackAt := Some(at), failedAt := None, errorMessage := message)
             case AckExpired =>
               c.(status := Expired, errorMessage := Some(Given(message, "Device reported command expired")))
             case Rejected =>
               c.(status := Failed, failedAt := Some(now),
                  errorMessage := Some(Given(message, "Device reported command rejected")))
             case AckFailed =>
               c.(status := Failed, failedAt := Some(now),
                  errorMessage := Some(Given(message, "Device reported command failed")))
  }

  /** An acknowledgement by number reaches the one row with this device and number, whatever its
      status, and no other; one that finds none or several changes nothing. */
  lemma AckBySeqEffect(table: seq<Command>, device: int, seqNo: int, status: AckStatus, executedAt: Option<int>,
                       message: Option<string>, now: int, i: nat)
    requires i < |table|
    ensures var after := Step(table, ReceiveAckBySeq(device, seqNo, status, executedAt, message, now));
            && |after| == |table|
            && if table[i].deviceId == device && table[i].commandSeq == seqNo
                  && (forall j :: 0 <= j < |table| && j != i ==>
                        table[j].deviceId != device || table[j].commandSeq != seqNo)
               then IsAcknowledged(table[i], after[i], status, executedAt, message, now)
               else after[i] == table[i]
  {
    var p := (c: Command) => c.deviceId == device && c.commandSeq == seqNo;
    assert ResolvesBySeq(table, device, seqNo, i)
      <==> p(table[i]) && forall j :: 0 <= j < |table| && j != i ==> !p(table[j]);
  }

  lemma AckByIdEffect(table: seq<Command>, device: int, row: nat, status: AckStatus, executedAt: Option<int>,
                      message: Option<string>, now: int, i: nat)
    requires i < |table|
    ensures var after := Step(table, ReceiveAckById(device, row, status, executedAt, message, now));
            && |after| == |table|
            && if i == row then IsAcknowledged(table[i], after[i], status, executedAt, message, now)
               else after[i] == table[i]
  {
  }

  // ----- An example

  const SENT_COMMAND := Command(1, 1, 0, None, Sent, Some("q"), Some(5), None, None, None, None, None)

  /** A command on its way: created and handed to the transport. */
  lemma SentExample(actions: seq<Action>)
    requires actions == [CreateCommand(1, 1, 0, None)]
                        + [Dispatch(0, 3, EnqueueResult(true, Some("q"), None, false), 5)]
    ensures Run(actions) == [SENT_COMMAND]
  {
    var created := [CreateCommand(1, 1, 0, None)];
    assert created[..0] == [] && actions[..1] == created;
    assert Run([]) == [];
    assert Run(created) == [Created(1, 1, 0, None)];
  }

  /** A transmission reported as OK leaves it sent and stamps it; one reported late fails it. */
  lemma TransmissionExamples(actions: seq<Action>)
    requires actions == [CreateCommand(1, 1, 0, None)]
                        + [Dispatch(0, 3, EnqueueResult(true, Some("q"), None, false), 5)]
    ensures Step(Run(actions), ReceiveTxAck(1, Some("q"), "OK", Some(7), 8)) == [SENT_COMMAND.(txAckedAt := Some(7))]
    ensures Step(Run(actions), ReceiveTxAck(1, Some("q"), "TOO_LATE", Some(7), 8))
            == [SENT_COMMAND.(status := Failed, failedAt := Some(8),
                              errorMessage := Some("LoRaWAN downlink transmission status was TOO_LATE"))]
  {
    SentExample(actions);
    assert "LoRaWAN downlink transmission status was " + "TOO_LATE"
        == "LoRaWAN downlink transmission status was TOO_LATE";
    TxAckEffect(actions, 1, Some("q"), "OK", Some(7), 8, 0);
    TxAckEffect(actions, 1, Some("q"), "TOO_LATE", Some(7), 8, 0);
  }
}
