/** Allocation of command sequence numbers by concurrent database sessions
    (src/service/device_command_sequence_service.py, src/service/device_command_service.py).

    Sessions interleave step by step. A session takes the device's transaction-scoped advisory
    lock, reads the largest number it can see, adds the new command to its unit of work unless the
    transport cannot be resolved, and finally commits or rolls back, which releases its locks. */
module CommandSequence {
  import opened Basics

  const MIN_COMMAND_SEQ := 1
  const MAX_COMMAND_SEQ := 65535

  datatype SequenceError = SequenceExhausted

  /** The two columns of a command row that carry the uniqueness constraint. */
  datatype Key = Key(device: int, seqNo: int)

  // ----- One allocation

  function MaxOf(s: seq<int>): (m: Option<int>)
    ensures m.None? <==> s == []
  {
    if s == [] then None
    else
      var rest := MaxOf(s[..|s| - 1]);
      var last := s[|s| - 1];
      Some(if rest.None? then last else Max(rest.value, last))
  }

  /** One more than the largest number in use, starting at 1. */
  function NextSeq(inUse: seq<int>): Result<int, SequenceError> {
    match MaxOf(inUse)
    case None => Ok(MIN_COMMAND_SEQ)
    case Some(last) => if last >= MAX_COMMAND_SEQ then Err(SequenceExhausted) else Ok(last + 1)
  }

  lemma {:induction false} MaxOfConcat(a: seq<int>, b: seq<int>)
    ensures MaxOf(a + b) == match (MaxOf(a), MaxOf(b))
                            case (None, m) => m
                            case (m, None) => m
                            case (Some(x), Some(y)) => Some(Max(x, y))
  {
    if b == [] {
      assert a + b == a;
    } else {
      assert (a + b)[..|a + b| - 1] == a + b[..|b| - 1];
      MaxOfConcat(a, b[..|b| - 1]);
    }
  }

  /** `allocate_next_command_seq` after the lock is taken: the rows in the database and the rows
      still pending in the session are looked at separately. */
  method AllocateNextCommandSeq(stored: seq<int>, pending: seq<int>) returns (r: Result<int, SequenceError>)
    ensures r == NextSeq(stored + pending)
  {
    MaxOfConcat(stored, pending);
    var last := MaxOf(stored);
    var pendingLast := MaxOf(pending);
    if pendingLast.Some? && (last.None? || pendingLast.value > last.value) {
      last := pendingLast;
    }
    if last.None? {
      return Ok(MIN_COMMAND_SEQ);
    }
    if last.value >= MAX_COMMAND_SEQ {
      return Err(SequenceExhausted);
    }
    return Ok(last.value + 1);
  }

  // ----- Sessions

  datatype Session = Session(
    locks: set<int>,        // devices whose advisory lock the transaction holds
    flushed: seq<Key>,      // rows sent to the database, not yet committed
    pending: seq<Key>,      // rows added to the session, not yet flushed
    inHand: Option<Key>)    // number allocated, row not yet added

  const IDLE := Session({}, [], [], None)

  datatype System = System(committed: seq<Key>, sessions: seq<Session>)

  datatype Action =
    | Lock(session: nat, device: int)
    | Allocate(session: nat, device: int)
    | AddCommand(session: nat)
    | TransportFails(session: nat)
    | Flush(session: nat)
    | Commit(session: nat)
    | Rollback(session: nat)

  /** Sequence numbers of the rows of one device, in order. */
  function Seqs(rows: seq<Key>, d: int): seq<int> {
    if rows == [] then []
    else
      var last := rows[|rows| - 1];
      Seqs(rows[..|rows| - 1], d) + if last.device == d then [last.seqNo] else []
  }

  predicate LockIsFree(sys: System, s: nat, d: int) {
    forall t :: 0 <= t < |sys.sessions| && t != s ==> d !in sys.sessions[t].locks
  }

  /** What session s sees of the table, and what it has pending. */
  function Stored(sys: System, s: nat): seq<Key>
    requires s < |sys.sessions|
  {
    sys.committed + sys.sessions[s].flushed
  }

  function InUse(sys: System, s: nat, d: int): seq<int>
    requires s < |sys.sessions|
  {
    Seqs(Stored(sys, s), d) + Seqs(sys.sessions[s].pending, d)
  }

  function SetSession(sys: System, s: nat, session: Session): System
    requires s < |sys.sessions|
  {
    sys.(sessions := sys.sessions[s := session])
  }

  /** One atomic step. A step that is not enabled, such as waiting for a lock, changes nothing. */
  function Step(sys: System, a: Action): System {
    if a.session >= |sys.sessions| then sys
    else
      var s := a.session;
      var session := sys.sessions[s];
      match a
      case Lock(_, d) =>
        if LockIsFree(sys, s, d) then SetSession(sys, s, session.(locks := session.locks + {d})) else sys
      case Allocate(_, d) =>
        if d !in session.locks then sys
        else
          (match NextSeq(InUse(sys, s, d))
           case Ok(n) => SetSession(sys, s, session.(inHand := Some(Key(d, n))))
           case Err(_) => SetSession(sys, s, session.(inHand := None)))
      case AddCommand(_) =>
        if session.inHand.None? then sys
        else SetSession(sys, s, session.(pending := session.pending + [session.inHand.value], inHand := None))
      case TransportFails(_) => SetSession(sys, s, session.(inHand := None))
      case Flush(_) => SetSession(sys, s, session.(flushed := session.flushed + session.pending, pending := []))
      case Commit(_) =>
        SetSession(sys.(committed := sys.committed + session.flushed + session.pending), s, IDLE)
      case Rollback(_) => SetSession(sys, s, IDLE)
  }

  function Initial(n: nat): System {
    System([], seq(n, _ => IDLE))
  }

  function Run(n: nat, actions: seq<Action>): System {
    if actions == [] then Initial(n)
    else Step(Run(n, actions[..|actions| - 1]), actions[|actions| - 1])
  }

  // ----- The invariant

  /** 1, 2, ..., k. */
  function UpTo(k: nat): seq<int> {
    seq(k, i => i + 1)
  }

  /** The numbers are exactly 1..k in order, for some k within the 16-bit range. */
  predicate Gapless(s: seq<int>) {
    |s| <= MAX_COMMAND_SEQ && s == UpTo(|s|)
  }

  /** A session works only on devices it has locked, and there it continues the numbering. */
  predicate SessionOk(sys: System, s: nat, d: int)
    requires s < |sys.sessions|
  {
    var session := sys.sessions[s];
    if d in session.locks then
      && Gapless(InUse(sys, s, d))
      && (session.inHand.Some? && session.inHand.value.device == d ==>
            session.inHand.value.seqNo == |InUse(sys, s, d)| + 1 <= MAX_COMMAND_SEQ)
    else
      && Seqs(session.flushed, d) == [] && Seqs(session.pending, d) == []
      && (session.inHand.Some? ==> session.inHand.value.device != d)
  }

  ghost predicate Inv(sys: System) {
    && (forall d :: Gapless(Seqs(sys.committed, d)))
    && (forall s, d :: 0 <= s < |sys.sessions| ==> SessionOk(sys, s, d))
    && (forall s, t, d :: 0 <= s < t < |sys.sessions| && d in sys.sessions[s].locks ==> d !in sys.sessions[t].locks)
  }

  lemma {:induction false} SeqsConcat(a: seq<Key>, b: seq<Key>, d: int)
    ensures Seqs(a + b, d) == Seqs(a, d) + Seqs(b, d)
  {
    if b == [] {
      assert a + b == a;
    } else {
      assert (a + b)[..|a + b| - 1] == a + b[..|b| - 1];
      SeqsConcat(a, b[..|b| - 1], d);
    }
  }

  lemma {:induction false} MaxOfRun(k: nat)
    ensures MaxOf(UpTo(k)) == if k == 0 then None else Some(k)
  {
    if k > 0 {
      assert UpTo(k)[..k - 1] == UpTo(k - 1);
      MaxOfRun(k - 1);
    }
  }

  /** After k numbers the next is k + 1, and only a full device is refused. */
  lemma NextAfterRun(s: seq<int>)
    requires Gapless(s)
    ensures NextSeq(s) == if |s| == MAX_COMMAND_SEQ then Err(SequenceExhausted) else Ok(|s| + 1)
  {
    MaxOfRun(|s|);
  }

  lemma LockKeepsInv(sys: System, s: nat, d: int)
    requires Inv(sys) && s < |sys.sessions| && LockIsFree(sys, s, d)
    ensures Inv(SetSession(sys, s, sys.sessions[s].(locks := sys.sessions[s].locks + {d})))
  {
    var after := SetSession(sys, s, sys.sessions[s].(locks := sys.sessions[s].locks + {d}));
    forall t, e | 0 <= t < |sys.sessions| ensures SessionOk(after, t, e) {
      assert SessionOk(sys, t, e);
      SeqsConcat(sys.committed, sys.sessions[s].flushed, d);
      assert Seqs(sys.committed, d) + [] + [] == Seqs(sys.committed, d);
    }
  }

  /** A session that changes nothing but its own uncommitted work disturbs nobody else. */
  lemma LocalChange(sys: System, s: nat, session: Session)
    requires Inv(sys) && s < |sys.sessions| && session.locks <= sys.sessions[s].locks
    requires forall d :: SessionOk(SetSession(sys, s, session), s, d)
    ensures Inv(SetSession(sys, s, session))
  {
    var after := SetSession(sys, s, session);
    forall t, d | 0 <= t < |sys.sessions| ensures SessionOk(after, t, d) {
      assert SessionOk(sys, t, d);
    }
  }

  lemma AllocateKeepsInv(sys: System, s: nat, d: int)
    requires Inv(sys) && s < |sys.sessions|
    ensures Inv(Step(sys, Allocate(s, d)))
  {
    var session := sys.sessions[s];
    if d in session.locks {
      assert SessionOk(sys, s, d);
      NextAfterRun(InUse(sys, s, d));
      var after := Step(sys, Allocate(s, d));
      forall e ensures SessionOk(after, s, e) {
        assert SessionOk(sys, s, e);
      }
      LocalChange(sys, s, after.sessions[s]);
    }
  }

  lemma AddKeepsInv(sys: System, s: nat)
    requires Inv(sys) && s < |sys.sessions|
    ensures Inv(Step(sys, AddCommand(s)))
  {
    var session := sys.sessions[s];
    if session.inHand.Some? {
      var key := session.inHand.value;
      var after := Step(sys, AddCommand(s));
      forall e ensures SessionOk(after, s, e) {
        assert SessionOk(sys, s, e) && SessionOk(sys, s, key.device);
        SeqsConcat(session.pending, [key], e);
        assert [key][..0] == [];
        var inUse := InUse(sys, s, e);
        if e == key.device {
          assert InUse(after, s, e) == inUse + [|inUse| + 1] == UpTo(|inUse| + 1);
        } else {
          assert Seqs([key], e) == [];
          assert InUse(after, s, e) == inUse;
        }
      }
      LocalChange(sys, s, after.sessions[s]);
    }
  }

  lemma FlushKeepsInv(sys: System, s: nat)
    requires Inv(sys) && s < |sys.sessions|
    ensures Inv(Step(sys, Flush(s)))
  {
    var session, after := sys.sessions[s], Step(sys, Flush(s));
    forall e ensures SessionOk(after, s, e) {
      assert SessionOk(sys, s, e);
      SeqsConcat(session.flushed, session.pending, e);
      SeqsConcat(sys.committed, session.flushed, e);
      SeqsConcat(sys.committed, session.flushed + session.pending, e);
      assert InUse(after, s, e) == InUse(sys, s, e);
    }
    LocalChange(sys, s, after.sessions[s]);
  }

  lemma CommitKeepsInv(sys: System, s: nat)
    requires Inv(sys) && s < |sys.sessions|
    ensures Inv(Step(sys, Commit(s)))
  {
    var session, after := sys.sessions[s], Step(sys, Commit(s));
    forall d ensures Seqs(after.committed, d) == InUse(sys, s, d) {
      SeqsConcat(sys.committed + session.flushed, session.pending, d);
    }
    forall d ensures Gapless(Seqs(after.committed, d)) {
      assert SessionOk(sys, s, d);
      SeqsConcat(sys.committed, session.flushed, d);
      assert Seqs(sys.committed, d) + [] + [] == Seqs(sys.committed, d);
    }
    forall t, d | 0 <= t < |sys.sessions| ensures SessionOk(after, t, d) {
      assert SessionOk(sys, t, d) && SessionOk(sys, s, d);
      if t != s && d in sys.sessions[t].locks {
        SeqsConcat(sys.committed, session.flushed, d);
        SeqsConcat(sys.committed, sys.sessions[t].flushed, d);
        SeqsConcat(after.committed, sys.sessions[t].flushed, d);
        assert Seqs(sys.committed, d) + [] + [] == Seqs(sys.committed, d);
        assert InUse(after, t, d) == InUse(sys, t, d);
      }
    }
  }

  /** Every step of every session keeps the invariant. */
  lemma StepKeepsInv(sys: System, a: Action)
    requires Inv(sys)
    ensures Inv(Step(sys, a))
  {
    if a.session < |sys.sessions| {
      var s, session := a.session, sys.sessions[a.session];
      match a
      case Lock(_, d) => if LockIsFree(sys, s, d) { LockKeepsInv(sys, s, d); }
      case Allocate(_, d) => AllocateKeepsInv(sys, s, d);
      case AddCommand(_) => AddKeepsInv(sys, s);
      case TransportFails(_) =>
        var after := SetSession(sys, s, session.(inHand := None));
        forall d ensures SessionOk(after, s, d) { assert SessionOk(sys, s, d); }
        LocalChange(sys, s, session.(inHand := None));
      case Flush(_) => FlushKeepsInv(sys, s);
      case Commit(_) => CommitKeepsInv(sys, s);
      case Rollback(_) => LocalChange(sys, s, IDLE);
    }
  }

  lemma {:induction false} RunKeepsInv(n: nat, actions: seq<Action>)
    ensures Inv(Run(n, actions)) && |Run(n, actions).sessions| == n
  {
    if actions != [] {
      RunKeepsInv(n, actions[..|actions| - 1]);
      StepKeepsInv(Run(n, actions[..|actions| - 1]), actions[|actions| - 1]);
    }
  }

  // ----- Consequences for every interleaving

  /** Committed numbers of a device are exactly 1..k, and so are those the holder of its lock would
      leave behind; nobody else has uncommitted work on the device. */
  lemma NumbersAreGapless(n: nat, actions: seq<Action>, s: nat, d: int)
    requires s < n
    ensures var sys := Run(n, actions);
            && |sys.sessions| == n
            && Gapless(Seqs(sys.committed, d))
            && (d in sys.sessions[s].locks ==> Gapless(InUse(sys, s, d)))
            && (d !in sys.sessions[s].locks ==> InUse(sys, s, d) == Seqs(sys.committed, d))
  {
    RunKeepsInv(n, actions);
    var sys := Run(n, actions);
    assert SessionOk(sys, s, d);
    SeqsConcat(sys.committed, sys.sessions[s].flushed, d);
  }

  /** Allocation under the lock fails only when all 65535 numbers are used, and otherwise returns
      the successor of the numbers in use. */
  lemma AllocationFailsOnlyWhenFull(n: nat, actions: seq<Action>, s: nat, d: int)
    requires s < n && |Run(n, actions).sessions| == n && d in Run(n, actions).sessions[s].locks
    ensures var inUse := InUse(Run(n, actions), s, d);
            && (NextSeq(inUse).Err? <==> |inUse| == MAX_COMMAND_SEQ)
            && (NextSeq(inUse).Ok? ==> NextSeq(inUse).value == |inUse| + 1 && NextSeq(inUse).value !in inUse)
  {
    NumbersAreGapless(n, actions, s, d);
    NextAfterRun(InUse(Run(n, actions), s, d));
  }

  lemma {:induction false} KeyIsListed(rows: seq<Key>, i: nat)
    requires i < |rows|
    ensures exists p :: 0 <= p < |Seqs(rows, rows[i].device)| && Seqs(rows, rows[i].device)[p] == rows[i].seqNo
  {
    var n, d := |rows| - 1, rows[i].device;
    var all := Seqs(rows, d);
    if i < n {
      KeyIsListed(rows[..n], i);
      var p :| 0 <= p < |Seqs(rows[..n], d)| && Seqs(rows[..n], d)[p] == rows[i].seqNo;
      assert all[p] == rows[i].seqNo;
    } else {
      assert all[|all| - 1] == rows[i].seqNo;
    }
  }

  lemma {:induction false} DistinctKeys(rows: seq<Key>, i: nat, j: nat)
    requires i < j < |rows| && Gapless(Seqs(rows, rows[j].device))
    ensures rows[i] != rows[j]
  {
    var n, d := |rows| - 1, rows[j].device;
    var all, init := Seqs(rows, d), Seqs(rows[..n], d);
    var k := |init|;
    if rows[n].device == d {
      assert all == init + [rows[n].seqNo] && all[k] == k + 1;
      forall p | 0 <= p < k ensures init[p] == p + 1 { assert all[p] == p + 1; }
      assert init == UpTo(k);
    } else {
      assert all == init;
    }
    if j < n {
      DistinctKeys(rows[..n], i, j);
    } else if rows[i].device == d {
      KeyIsListed(rows[..n], i);
    }
  }

  /** No (device, number) pair is ever used twice: the uniqueness constraint cannot be violated by
      what is committed together with what any session is about to commit. */
  lemma NoKeyIsShared(n: nat, actions: seq<Action>, s: nat, i: nat, j: nat)
    requires s < n && |Run(n, actions).sessions| == n
    requires var sys := Run(n, actions); i < j < |Stored(sys, s) + sys.sessions[s].pending|
    ensures var sys := Run(n, actions);
            var rows := Stored(sys, s) + sys.sessions[s].pending;
            rows[i] != rows[j]
  {
    var sys := Run(n, actions);
    var rows := Stored(sys, s) + sys.sessions[s].pending;
    var d := rows[j].device;
    NumbersAreGapless(n, actions, s, d);
    SeqsConcat(Stored(sys, s), sys.sessions[s].pending, d);
    DistinctKeys(rows, i, j);
  }

  /** Two sessions never hold uncommitted numbers of the same device. */
  lemma UncommittedKeysAreApart(n: nat, actions: seq<Action>, s: nat, t: nat, x: Key, y: Key)
    requires s < n && t < n && s != t && |Run(n, actions).sessions| == n
    requires x in Uncommitted(Run(n, actions).sessions[s]) && y in Uncommitted(Run(n, actions).sessions[t])
    ensures x.device != y.device
  {
    RunKeepsInv(n, actions);
    var sys := Run(n, actions);
    UncommittedIsLocked(sys, s, x);
    UncommittedIsLocked(sys, t, y);
  }

  /** Rows added or flushed, and the number just allocated. */
  function Uncommitted(session: Session): seq<Key> {
    session.flushed + session.pending + if session.inHand.Some? then [session.inHand.value] else []
  }

  lemma UncommittedIsLocked(sys: System, s: nat, x: Key)
    requires Inv(sys) && s < |sys.sessions| && x in Uncommitted(sys.sessions[s])
    ensures x.device in sys.sessions[s].locks
  {
    var session := sys.sessions[s];
    assert SessionOk(sys, s, x.device);
    if x in session.flushed {
      var i :| 0 <= i < |session.flushed| && session.flushed[i] == x;
      KeyIsListed(session.flushed, i);
    } else if x in session.pending {
      var i :| 0 <= i < |session.pending| && session.pending[i] == x;
      KeyIsListed(session.pending, i);
    }
  }

  // ----- One command, from the lock to the commit

  predicate IsIdle(sys: System, s: nat) {
    s < |sys.sessions| && sys.sessions[s] == Session({}, [], [], None)
  }

  function Locked(sys: System, s: nat, d: int): System {
    Step(sys, Lock(s, d))
  }

  /** The number the next command of the device gets, if there is one left. */
  function NumberFor(sys: System, d: int): Option<int> {
    var used := |Seqs(sys.committed, d)|;
    if used < 65535 then Some(used + 1) else None
  }

  lemma LockIsGranted(sys: System, s: nat, d: int)
    requires IsIdle(sys, s)
    ensures Locked(sys, s, d)
            == if forall t :: 0 <= t < |sys.sessions| && t != s ==> d !in sys.sessions[t].locks
               then sys.(sessions := sys.sessions[s := Session({d}, [], [], None)]) else sys
  {
    var none: set<int> := {};
    assert none + {d} == {d};
  }

  lemma NumberIsAllocated(sys: System, s: nat, d: int)
    requires Inv(sys) && IsIdle(sys, s) && LockIsFree(sys, s, d)
    ensures Step(Locked(sys, s, d), Allocate(s, d))
            == sys.(sessions := sys.sessions[s := Session({d}, [], [],
                 if NumberFor(sys, d).Some? then Some(Key(d, NumberFor(sys, d).value)) else None)])
  {
    LockIsGranted(sys, s, d);
    var locked := Locked(sys, s, d);
    assert locked.committed + [] == locked.committed;
    assert InUse(locked, s, d) == Seqs(sys.committed, d);
    NextAfterRun(Seqs(sys.committed, d));
  }

  /** In every reachable state, an idle session that gets the device's lock and commits a command adds
      exactly one row, with the number after those in use; none if all 65535 are. If the transport
      fails, or the transaction is rolled back, nothing is added and no number is lost; in either case
      the lock is free again. */
  lemma CommandIsCommitted(sys: System, s: nat, d: int)
    requires Inv(sys) && IsIdle(sys, s) && LockIsFree(sys, s, d)
    ensures var numbered := Step(Locked(sys, s, d), Allocate(s, d));
            var added := Step(numbered, AddCommand(s));
            && Step(added, Commit(s))
               == sys.(committed := sys.committed + if NumberFor(sys, d).Some? then [Key(d, NumberFor(sys, d).value)]
                                                    else [])
            && Step(Step(added, Flush(s)), Commit(s)) == Step(added, Commit(s))
            && Step(added, Rollback(s)) == sys
            && Step(Step(numbered, TransportFails(s)), Commit(s)) == sys
  {
    NumberIsAllocated(sys, s, d);
    var numbered := Step(Locked(sys, s, d), Allocate(s, d));
    assert sys.sessions[s := IDLE] == sys.sessions;
    assert sys.committed + [] + [] == sys.committed;
    var rows := if NumberFor(sys, d).Some? then [Key(d, NumberFor(sys, d).value)] else [];
    assert [] + rows == rows && rows + [] == rows;
    assert sys.committed + [] + rows == sys.committed + rows;
    assert sys.committed + rows + [] == sys.committed + rows;
    var added := Step(numbered, AddCommand(s));
    assert added == sys.(sessions := sys.sessions[s := Session({d}, [], rows, None)]);
  }
}
