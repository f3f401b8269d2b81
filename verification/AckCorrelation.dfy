/** From a command to its acknowledgement and back: sequence numbers, the bytes of the downlink, the
    device's reply and the command row the reply is applied to, over every joint run of the
    allocating sessions and the writers of command rows. */
module AckCorrelation {
  import opened Basics
  import W = WireContract
  import S = CommandSequence
  import L = CommandLifecycle

  // ----- The device

  const ACK_EXECUTED: W.Byte := 1
  const ACK_FAILED: W.Byte := 3
  const ERROR_NONE: W.Byte := 0
  const ERROR_INVALID_PAYLOAD: W.Byte := 2

  lemma ExtractedFits(payload: seq<W.Byte>)
    requires W.ExtractCommandSeq(payload).Ok?
    ensures W.ValidSeq(W.ExtractCommandSeq(payload).value)
  {
    W.U16RoundTrip(1, payload[2..4]);
  }

  /** The acknowledgement the simulated device sends for a downlink payload, if any: the command is
      executed when it decodes; otherwise a failure is reported if a number can still be read. */
  function Reply(payload: seq<W.Byte>): Option<seq<W.Byte>> {
    if payload == [] || W.ExtractCommandSeq(payload).Err? then None
    else
      ExtractedFits(payload);
      var seqNo := W.ExtractCommandSeq(payload).value;
      if W.GoDecodeCommand(payload).Ok? then Some(W.AckBytes(seqNo, ACK_EXECUTED, ERROR_NONE))
      else Some(W.AckBytes(seqNo, ACK_FAILED, ERROR_INVALID_PAYLOAD))
  }

  /** The backend accepts every reply; it reads `Executed` exactly when its own decoder would have
      accepted the payload, and then with the number that decoder reads. */
  lemma ReplyTellsAcceptance(payload: seq<W.Byte>)
    ensures W.DecodeCommand(payload).Ok? ==>
              && Reply(payload).Some?
              && W.DecodeAck(Reply(payload).value)
                 == Ok(W.AckPayload(W.DecodeCommand(payload).value.commandSeq, W.Executed, ERROR_NONE))
    ensures W.DecodeCommand(payload).Err? && Reply(payload).Some? ==>
              && W.ExtractCommandSeq(payload).Ok?
              && W.DecodeAck(Reply(payload).value)
                 == Ok(W.AckPayload(W.ExtractCommandSeq(payload).value, W.Failed, ERROR_INVALID_PAYLOAD))
    ensures Reply(payload).None? <==> W.ExtractCommandSeq(payload).Err?
  {
    W.DecodersAgree(payload);
    if Reply(payload).Some? {
      ExtractedFits(payload);
      var seqNo := W.ExtractCommandSeq(payload).value;
      W.AckRoundTrip(seqNo, ACK_EXECUTED, ERROR_NONE);
      W.AckRoundTrip(seqNo, ACK_FAILED, ERROR_INVALID_PAYLOAD);
    }
  }

  // ----- The backend: rows appear when a session commits them

  datatype Stamp = Stamp(createdAt: int, expiresAt: Option<int>)

  datatype Step =
    | Session(step: S.Action, stamp: nat -> Stamp)
    | Writer(action: L.Action)

  /** Sequence numbers and sessions, and the history of the table of command rows. */
  datatype Backend = Backend(sys: S.System, history: seq<L.Action>)

  function Creation(key: S.Key, stamp: Stamp): L.Action {
    L.CreateCommand(key.device, key.seqNo, stamp.createdAt, stamp.expiresAt)
  }

  /** One row per committed key, in order. */
  function Creations(keys: seq<S.Key>, stamp: nat -> Stamp): seq<L.Action> {
    if keys == [] then []
    else
      var n := |keys| - 1;
      Creations(keys[..n], stamp) + [Creation(keys[n], stamp(n))]
  }

  function NewKeys(before: seq<S.Key>, after: seq<S.Key>): seq<S.Key> {
    if |before| <= |after| then after[|before|..] else []
  }

  function Advance(b: Backend, step: Step): Backend {
    match step
    case Session(a, stamp) =>
      var sys := S.Step(b.sys, a);
      Backend(sys, b.history + Creations(NewKeys(b.sys.committed, sys.committed), stamp))
    case Writer(a) =>
      if a.CreateCommand? then b else b.(history := b.history + [a])
  }

  function Run(n: nat, steps: seq<Step>): Backend {
    if steps == [] then Backend(S.Initial(n), [])
    else Advance(Run(n, steps[..|steps| - 1]), steps[|steps| - 1])
  }

  function Table(b: Backend): seq<L.Command> {
    L.Run(b.history)
  }

  function KeyOf(c: L.Command): S.Key {
    S.Key(c.deviceId, c.commandSeq)
  }

  function Keys(table: seq<L.Command>): seq<S.Key> {
    seq(|table|, i requires 0 <= i < |table| => KeyOf(table[i]))
  }

  // ----- Rows and committed keys are the same

  lemma {:induction false} CreationsAddKeys(history: seq<L.Action>, keys: seq<S.Key>, stamp: nat -> Stamp)
    ensures Keys(L.Run(history + Creations(keys, stamp))) == Keys(L.Run(history)) + keys
  {
    if keys == [] {
      assert history + Creations(keys, stamp) == history;
    } else {
      var n := |keys| - 1;
      var before := history + Creations(keys[..n], stamp);
      CreationsAddKeys(history, keys[..n], stamp);
      CreationAddsKey(before, keys[n], stamp(n));
      assert history + Creations(keys, stamp) == before + [Creation(keys[n], stamp(n))];
      assert Keys(L.Run(history)) + keys[..n] + [keys[n]] == Keys(L.Run(history)) + keys;
    }
  }

  lemma CreationAddsKey(history: seq<L.Action>, key: S.Key, stamp: Stamp)
    ensures Keys(L.Run(history + [Creation(key, stamp)])) == Keys(L.Run(history)) + [key]
  {
    assert (history + [Creation(key, stamp)])[..|history|] == history;
  }

  lemma WriterKeepsKeys(history: seq<L.Action>, a: L.Action)
    requires !a.CreateCommand?
    ensures Keys(L.Run(history + [a])) == Keys(L.Run(history))
  {
    assert (history + [a])[..|history|] == history;
  }

  lemma CommittedGrows(sys: S.System, a: S.Action)
    ensures sys.committed <= S.Step(sys, a).committed
  {
  }

  ghost predicate Coupled(b: Backend) {
    S.Inv(b.sys) && Keys(Table(b)) == b.sys.committed
  }

  lemma {:induction false} RunIsCoupled(n: nat, steps: seq<Step>)
    ensures Coupled(Run(n, steps))
  {
    if steps == [] {
      S.RunKeepsInv(n, []);
    } else {
      var b, step := Run(n, steps[..|steps| - 1]), steps[|steps| - 1];
      RunIsCoupled(n, steps[..|steps| - 1]);
      match step
      case Session(a, stamp) =>
        S.StepKeepsInv(b.sys, a);
        CommittedGrows(b.sys, a);
        CreationsAddKeys(b.history, NewKeys(b.sys.committed, S.Step(b.sys, a).committed), stamp);
      case Writer(a) => if !a.CreateCommand? { WriterKeepsKeys(b.history, a); }
    }
  }

  /** A device and a number name at most one row, and every row has a number that can be sent. */
  lemma RowIsNamed(n: nat, steps: seq<Step>, i: nat)
    requires i < |Table(Run(n, steps))|
    ensures var table := Table(Run(n, steps));
            && L.ResolvesBySeq(table, table[i].deviceId, table[i].commandSeq, i)
            && W.ValidSeq(table[i].commandSeq)
  {
    var b := Run(n, steps);
    var table, keys := Table(b), b.sys.committed;
    RunIsCoupled(n, steps);
    assert forall j :: 0 <= j < |table| ==> keys[j] == KeyOf(table[j]);
    forall j | 0 <= j < |table| && j != i ensures KeyOf(table[j]) != KeyOf(table[i]) {
      S.DistinctKeys(keys, Min(i, j), Max(i, j));
    }
    var seqs := S.Seqs(keys, keys[i].device);
    S.KeyIsListed(keys, i);
    var p :| 0 <= p < |seqs| && seqs[p] == keys[i].seqNo;
    assert S.Gapless(seqs) && S.UpTo(|seqs|)[p] == p + 1;
  }

  // ----- The way back

  function StatusOf(s: W.AckStatus): L.AckStatus {
    match s
    case Executed => L.Executed
    case Duplicate => L.Duplicate
    case Expired => L.AckExpired
    case Rejected => L.Rejected
    case Failed => L.AckFailed
  }

  /** Applying an acknowledgement received from a device. */
  function Correlate(device: int, ack: W.AckPayload, executedAt: Option<int>, message: Option<string>, now: int)
    : L.Action
  {
    L.ReceiveAckBySeq(device, ack.commandSeq, StatusOf(ack.status), executedAt, message, now)
  }

  /** What the backend does with the reply to a payload sent to a device. */
  function OnReply(device: int, payload: seq<W.Byte>, executedAt: Option<int>, message: Option<string>, now: int)
    : Option<L.Action>
  {
    if Reply(payload).None? then None
    else
      match W.DecodeAck(Reply(payload).value)
      case Ok(ack) => Some(Correlate(device, ack, executedAt, message, now))
      case Err(_) => None
  }

  lemma AckHitsOneRow(table: seq<L.Command>, i: nat, status: L.AckStatus, executedAt: Option<int>,
                      message: Option<string>, now: int)
    requires i < |table| && L.ResolvesBySeq(table, table[i].deviceId, table[i].commandSeq, i)
    ensures var a := L.ReceiveAckBySeq(table[i].deviceId, table[i].commandSeq, status, executedAt, message, now);
            && L.AckApplied(table, a, i) == Some(status)
            && L.Step(table, a) == table[i := L.ApplicationAck(table[i], status, executedAt, message, now)]
  {
    var d, n := table[i].deviceId, table[i].commandSeq;
    var a := L.ReceiveAckBySeq(d, n, status, executedAt, message, now);
    forall j | 0 <= j < |table| && j != i ensures L.RowAfter(table, a, j) == table[j] {
      assert !(table[j].deviceId == d && table[j].commandSeq == n);
    }
  }

  /** End to end: at any moment of any run, encode any command for any row, let the device that owns
      it answer the bytes, and let the backend apply the answer: exactly that row is acknowledged, no
      other row changes, and the answer counts as the row's last acknowledgement. */
  lemma AckReachesItsCommand(n: nat, steps: seq<Step>, i: nat, t: W.CommandType, f: W.Fields,
                             executedAt: Option<int>, message: Option<string>, now: int)
    requires i < |Table(Run(n, steps))|
    requires W.EncodeCommand(t, Table(Run(n, steps))[i].commandSeq, f).Ok?
    ensures var b := Run(n, steps);
            var table := Table(b);
            var c := table[i];
            var reaction := OnReply(c.deviceId, W.EncodeCommand(t, c.commandSeq, f).value, executedAt, message, now);
            && reaction.Some?
            && L.Run(b.history + [reaction.value])
               == table[i := L.ApplicationAck(c, L.Executed, executedAt, message, now)]
            && L.Run(b.history + [reaction.value])[i].status == L.Acked
            && L.LastAck(b.history + [reaction.value], i) == Some(L.Executed)
  {
    var b := Run(n, steps);
    var table := Table(b);
    var c := table[i];
    var payload := W.EncodeCommand(t, c.commandSeq, f).value;
    W.DecodeAfterEncode(t, c.commandSeq, f);
    ReplyTellsAcceptance(payload);
    RowIsNamed(n, steps, i);
    AckHitsOneRow(table, i, L.Executed, executedAt, message, now);
    var reaction := OnReply(c.deviceId, payload, executedAt, message, now).value;
    var later := b.history + [reaction];
    assert later[..|later| - 1] == b.history && later[|later| - 1] == reaction;
  }

  lemma AckOnRow(table: seq<L.Command>, j: nat, device: int, seqNo: int, status: L.AckStatus, executedAt: Option<int>,
                 message: Option<string>, now: int)
    requires j < |table| && L.ResolvesBySeq(table, table[j].deviceId, table[j].commandSeq, j)
    ensures var after := L.Step(table, L.ReceiveAckBySeq(device, seqNo, status, executedAt, message, now));
            && |after| == |table|
            && (KeyOf(table[j]) != S.Key(device, seqNo) ==> after[j] == table[j])
            && (KeyOf(table[j]) == S.Key(device, seqNo) ==> after[j].status == L.Image(status))
  {
  }

  /** A reply to arbitrary bytes is never lost track of: it concerns at most one row, the one whose
      number is in the bytes, and acknowledges it only if the bytes are a command. */
  lemma ReplyNeverStrays(n: nat, steps: seq<Step>, device: int, payload: seq<W.Byte>, j: nat,
                         executedAt: Option<int>, message: Option<string>, now: int)
    requires j < |Table(Run(n, steps))|
    requires OnReply(device, payload, executedAt, message, now).Some?
    ensures var b := Run(n, steps);
            var table := Table(b);
            var after := L.Run(b.history + [OnReply(device, payload, executedAt, message, now).value]);
            && |after| == |table|
            && W.ExtractCommandSeq(payload).Ok?
            && (KeyOf(table[j]) != S.Key(device, W.ExtractCommandSeq(payload).value) ==> after[j] == table[j])
            && (KeyOf(table[j]) == S.Key(device, W.ExtractCommandSeq(payload).value) ==>
                  after[j].status == if W.DecodeCommand(payload).Ok? then L.Acked else L.Failed)
  {
    var b := Run(n, steps);
    var reaction := OnReply(device, payload, executedAt, message, now).value;
    var later := b.history + [reaction];
    assert later[..|later| - 1] == b.history && later[|later| - 1] == reaction;
    var seqNo := W.ExtractCommandSeq(payload).value;
    var status := if W.DecodeCommand(payload).Ok? then L.Executed else L.AckFailed;
    ReplyIsAck(device, payload, executedAt, message, now);
    RowIsNamed(n, steps, j);
    AckOnRow(Table(b), j, device, seqNo, status, executedAt, message, now);
  }

  /** The backend's reaction to a reply: an acknowledgement for the number in the bytes. */
  lemma ReplyIsAck(device: int, payload: seq<W.Byte>, executedAt: Option<int>, message: Option<string>, now: int)
    requires OnReply(device, payload, executedAt, message, now).Some?
    ensures W.ExtractCommandSeq(payload).Ok?
    ensures OnReply(device, payload, executedAt, message, now).value
            == L.ReceiveAckBySeq(device, W.ExtractCommandSeq(payload).value,
                                 if W.DecodeCommand(payload).Ok? then L.Executed else L.AckFailed,
                                 executedAt, message, now)
  {
    ReplyTellsAcceptance(payload);
    W.DecodersAgree(payload);
  }

  // ----- Whose acknowledgements a row has received

  lemma {:induction false} RowsStay(n: nat, steps: seq<Step>, k: nat, i: nat)
    requires k <= |steps| && i < |Table(Run(n, steps[..k]))|
    ensures i < |Table(Run(n, steps))| && KeyOf(Table(Run(n, steps))[i]) == KeyOf(Table(Run(n, steps[..k]))[i])
  {
    if k == |steps| {
      assert steps[..k] == steps;
    } else {
      var init, step := steps[..|steps| - 1], steps[|steps| - 1];
      assert init[..k] == steps[..k];
      RowsStay(n, init, k, i);
      RunIsCoupled(n, init);
      RunIsCoupled(n, steps);
      var before, after := Run(n, init), Run(n, steps);
      if step.Session? {
        CommittedGrows(before.sys, step.step);
      }
      assert Keys(Table(before))[i] == before.sys.committed[i] == after.sys.committed[i] == Keys(Table(after))[i];
    }
  }

  /** Step k is an acknowledgement that reaches row i. */
  predicate AckReaches(n: nat, steps: seq<Step>, k: nat, i: nat) {
    && k < |steps| && steps[k].Writer? && L.IsAck(steps[k].action)
    && i < |Table(Run(n, steps[..k]))|
    && L.AckApplied(Table(Run(n, steps[..k])), steps[k].action, i).Some?
  }

  /** Step k names row i, which exists by then, directly and comes from a device other than d. */
  predicate NamedByAnother(n: nat, steps: seq<Step>, k: nat, i: nat, d: int) {
    && k < |steps| && steps[k].Writer? && steps[k].action.ReceiveAckById?
    && i < |Table(Run(n, steps[..k]))|
    && steps[k].action.ackRow == i && steps[k].action.idDevice != d
  }

  lemma SenderOfAck(table: seq<L.Command>, a: L.Action, i: nat)
    requires i < |table| && L.IsAck(a)
    ensures L.AckApplied(table, a, i).Some? && L.Sender(a) != table[i].deviceId
            <==> a.ReceiveAckById? && a.ackRow == i && a.idDevice != table[i].deviceId
  {
  }

  lemma NamedExactly(n: nat, steps: seq<Step>, k: nat, i: nat, d: int)
    requires i < |Table(Run(n, steps))| && d == Table(Run(n, steps))[i].deviceId
    ensures NamedByAnother(n, steps, k, i, d) <==> AckReaches(n, steps, k, i) && L.Sender(steps[k].action) != d
  {
    if k < |steps| && i < |Table(Run(n, steps[..k]))| && steps[k].Writer? && L.IsAck(steps[k].action) {
      RowsStay(n, steps, k, i);
      SenderOfAck(Table(Run(n, steps[..k])), steps[k].action, i);
    }
  }

  /** Over a whole joint run, every acknowledgement that reached a row came from the row's own device
      exactly if none named the row directly from another device after its creation. */
  lemma AcksComeFromTheOwnerExactly(n: nat, steps: seq<Step>, i: nat)
    requires i < |Table(Run(n, steps))|
    ensures var d := Table(Run(n, steps))[i].deviceId;
            (forall k: nat :: AckReaches(n, steps, k, i) ==> L.Sender(steps[k].action) == d)
            <==> (forall k: nat :: !NamedByAnother(n, steps, k, i, d))
  {
    var d := Table(Run(n, steps))[i].deviceId;
    forall k: nat
      ensures NamedByAnother(n, steps, k, i, d)
              <==> AckReaches(n, steps, k, i) && L.Sender(steps[k].action) != d
    {
      NamedExactly(n, steps, k, i, d);
    }
  }

  /** The status the bytes of an acknowledgement leave on its row, code by code: executed and
      duplicate acknowledge it, rejected and failed fail it, expired expires it. */
  lemma AckCodeDecidesStatus(n: nat, steps: seq<Step>, i: nat, code: W.Byte, error: W.Byte,
                             executedAt: Option<int>, message: Option<string>, now: int)
    requires i < |Table(Run(n, steps))| && 1 <= code <= 5
    ensures var table := Table(Run(n, steps));
            W.ValidSeq(table[i].commandSeq)
            && var received := W.DecodeAck(W.AckBytes(table[i].commandSeq, code, error));
               received.Ok?
               && var after := L.Step(table, Correlate(table[i].deviceId, received.value, executedAt, message, now));
                  && |after| == |table|
                  && after[i].status == (if code == 1 || code == 5 then L.Acked
                                         else if code == 4 then L.Expired else L.Failed)
                  && forall j :: 0 <= j < |table| && j != i ==> after[j] == table[j]
  {
    var table := Table(Run(n, steps));
    RowIsNamed(n, steps, i);
    W.AckRoundTrip(table[i].commandSeq, code, error);
    var ack := W.DecodeAck(W.AckBytes(table[i].commandSeq, code, error)).value;
    AckHitsOneRow(table, i, StatusOf(ack.status), executedAt, message, now);
  }
}
