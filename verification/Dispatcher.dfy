/** One pass of the command dispatcher (command_dispatcher_worker/main.py): expire what is overdue,
    then hand pending commands to the transport one at a time, within one batch limit.

    One worker runs the pass and no foreign row lock hides a row from it. Every iteration is a
    transaction of its own, so acknowledgements and new commands may be committed in between. Rows
    created at the same moment may be taken in any order, which may differ from one selection to the
    next: everything below holds for every choice among them. */
module Dispatcher {
  import opened Basics
  import opened CommandLifecycle

  /** The transport answers, or its call raises. */
  datatype Reply = Answered(result: EnqueueResult, sentNow: int) | Crashed

  /** One selected row with the clock reading of the selection and the table it was selected from. */
  datatype Attempt = Attempt(row: nat, at: int, table: seq<Command>, reply: Reply)

  // ----- ORDER BY created_at LIMIT 1

  /** What the query may return: a row satisfying p, created no later than any other. */
  predicate IsOldest(table: seq<Command>, p: Command -> bool, i: nat) {
    && i < |table| && p(table[i])
    && forall j :: 0 <= j < |table| && p(table[j]) ==> table[i].createdAt <= table[j].createdAt
  }

  predicate NoRow(table: seq<Command>, p: Command -> bool) {
    forall i :: 0 <= i < |table| ==> !p(table[i])
  }

  /** Callers rely on the contract alone, which leaves ties open. */
  method SelectOldest(table: seq<Command>, p: Command -> bool) returns (r: Option<nat>)
    ensures match r case None => NoRow(table, p) case Some(i) => IsOldest(table, p, i)
  {
    r := None;
    for n := 0 to |table|
      invariant match r
                case None => NoRow(table[..n], p)
                case Some(i) => i < n && IsOldest(table[..n], p, i)
    {
      assert table[..n + 1] == table[..n] + [table[n]];
      if p(table[n]) && (r.None? || table[n].createdAt < table[r.value].createdAt) {
        r := Some(n);
      }
    }
    assert table[..|table|] == table;
  }

  // ----- Expiry

  function Due(now: int): Command -> bool {
    (c: Command) => IsDue(c, now)
  }

  function Dispatchable(now: int): Command -> bool {
    (c: Command) => IsDispatchable(c, now)
  }

  function CountDue(table: seq<Command>, now: int): nat {
    if table == [] then 0
    else CountDue(table[..|table| - 1], now) + if IsDue(table[|table| - 1], now) then 1 else 0
  }

  lemma {:induction false} SweepingOne(table: seq<Command>, now: int, i: nat)
    requires i < |table| && IsDue(table[i], now)
    ensures CountDue(table, now) == CountDue(table[i := Sweep(table[i], now)], now) + 1
  {
    var n := |table| - 1;
    var after := table[i := Sweep(table[i], now)];
    if i < n {
      assert after[..n] == table[..n][i := Sweep(table[i], now)];
      SweepingOne(table[..n], now, i);
    } else {
      assert after[..n] == table[..n];
    }
  }

  lemma {:induction false} NoneDue(table: seq<Command>, now: int)
    ensures CountDue(table, now) == 0 <==> NoRow(table, Due(now))
  {
    if table != [] {
      var n := |table| - 1;
      NoneDue(table[..n], now);
      assert forall i :: 0 <= i < n ==> table[..n][i] == table[i];
      assert NoRow(table, Due(now)) <==> NoRow(table[..n], Due(now)) && !IsDue(table[n], now);
    }
  }

  /** How the sweep may change the table: overdue rows may expire, oldest first, nothing else. */
  ghost predicate ExpiredOldest(table: seq<Command>, after: seq<Command>, now: int) {
    && |after| == |table|
    && (forall i :: 0 <= i < |table| ==>
          after[i] == table[i] || (IsDue(table[i], now) && after[i] == Sweep(table[i], now)))
    && (forall i, j :: 0 <= i < |table| && 0 <= j < |table| && IsDue(after[j], now)
                       && IsDue(table[i], now) && after[i] != table[i] ==>
                       table[i].createdAt <= table[j].createdAt)
  }

  lemma ExpireOneMore(table: seq<Command>, after: seq<Command>, now: int, i: nat)
    requires ExpiredOldest(table, after, now) && IsOldest(after, Due(now), i)
    ensures ExpiredOldest(table, after[i := Sweep(after[i], now)], now)
  {
    assert after[i] == table[i];
    assert forall j :: 0 <= j < |after| && IsDue(after[j], now) ==>
             after[j] == table[j] && Due(now)(after[j]);
  }

  /** Rows the sweep of this pass expires. */
  function ExpiredCount(table: seq<Command>, now: int, limit: nat): nat {
    Min(limit, CountDue(table, now))
  }

  /** A sweep: as many of the overdue rows as the limit allows, the oldest ones. */
  ghost predicate IsSweep(table: seq<Command>, after: seq<Command>, now: int, limit: nat) {
    && ExpiredOldest(table, after, now)
    && CountDue(after, now) == CountDue(table, now) - ExpiredCount(table, now, limit)
  }

  // ----- Dispatch

  /** What a pass meets: the clock reading of iteration k, the transport's answer in it for a row, and
      the actions others commit between the previous iteration and this one. While a row is with the
      transport it is locked; what happens to other rows meanwhile counts as happening afterwards. */
  datatype World = World(clock: nat -> int, transport: (nat, Command) -> Reply, others: nat -> seq<Action>)

  /** The selected row was pending, unexpired at its clock reading, and no such row was older. */
  predicate WellChosen(a: Attempt) {
    IsOldest(a.table, Dispatchable(a.at), a.row)
  }

  function Updated(a: Attempt): seq<Command>
    requires a.row < |a.table| && a.reply.Answered?
  {
    a.table[a.row := Enqueue(a.table[a.row], a.reply.result, a.reply.sentNow)]
  }

  /** Attempt a is what iteration k does to the table left by the previous one. */
  predicate IsAttempt(a: Attempt, table: seq<Command>, k: nat, w: World) {
    && a.table == Replay(table, w.others(k)) && a.at == w.clock(k) && WellChosen(a)
    && a.reply == w.transport(k, a.table[a.row])
  }

  /** Attempts and final table of at most `budget` iterations, the first of them number k. Each row
      is selected afresh from the table as it is by then, and each iteration committed; a crash ends
      the pass with the current iteration rolled back. */
  ghost predicate IsDispatch(table: seq<Command>, attempts: seq<Attempt>, after: seq<Command>,
                             budget: nat, k: nat, w: World)
    decreases budget
  {
    if budget == 0 then attempts == [] && after == table
    else
      var current := Replay(table, w.others(k));
      if NoRow(current, Dispatchable(w.clock(k))) then attempts == [] && after == current
      else
        && attempts != [] && IsAttempt(attempts[0], table, k, w)
        && if attempts[0].reply.Crashed? then |attempts| == 1 && after == current
           else IsDispatch(Updated(attempts[0]), attempts[1..], after, budget - 1, k + 1, w)
  }

  class CommandDispatcherWorker {
    const batchLimit: nat
    var commands: seq<Command>

    constructor (batchLimit: nat, commands: seq<Command>)
      ensures this.batchLimit == batchLimit && this.commands == commands
    {
      this.batchLimit, this.commands := batchLimit, commands;
    }

    /** First half of the pass: the oldest overdue rows expire. */
    method ExpireOverdue(now: int) returns (expired: nat)
      modifies this
      ensures IsSweep(old(commands), commands, now, batchLimit)
      ensures expired == ExpiredCount(old(commands), now, batchLimit)
    {
      expired := 0;
      while expired < batchLimit
        invariant expired <= batchLimit
        invariant ExpiredOldest(old(commands), commands, now)
        invariant CountDue(commands, now) + expired == CountDue(old(commands), now)
      {
        var overdue := SelectOldest(commands, Due(now));
        NoneDue(commands, now);
        if overdue.None? {
          return;
        }
        SweepingOne(commands, now, overdue.value);
        ExpireOneMore(old(commands), commands, now, overdue.value);
        commands := commands[overdue.value := Sweep(commands[overdue.value], now)];
        expired := expired + 1;
      }
    }

    /** Second half: pending rows, one per iteration. */
    method DispatchPending(remaining: nat, w: World) returns (attempts: seq<Attempt>)
      modifies this
      ensures IsDispatch(old(commands), attempts, commands, remaining, 0, w)
    {
      attempts := [];
      Begins(commands, remaining, w);
      for k := 0 to remaining
        invariant Continues(old(commands), attempts, commands, remaining, k, w)
      {
        ghost var committed := commands;
        commands := Replay(commands, w.others(k));  // not done by the worker, but seen by its query
        var selected := SelectOldest(commands, Dispatchable(w.clock(k)));
        if selected.None? {
          NothingLeft(old(commands), attempts, committed, remaining, k, w);
          return;
        }
        var command := commands[selected.value];
        var attempt := Attempt(selected.value, w.clock(k), commands, w.transport(k, command));
        ghost var before := attempts;
        attempts := attempts + [attempt];
        if attempt.reply.Crashed? {
          FinishedByCrash(old(commands), before, committed, attempt, remaining, k, w);
          return;
        }
        OneMoreAttempt(old(commands), before, committed, attempt, remaining, k, w);
        commands := commands[selected.value := Enqueue(command, attempt.reply.result, attempt.reply.sentNow)];
      }
      BudgetSpent(old(commands), attempts, commands, remaining, w);
    }

    /** `swept` is the table between the two halves. */
    method ProcessOnce(now: int, w: World) returns (expired: nat, attempts: seq<Attempt>, ghost swept: seq<Command>)
      modifies this
      ensures IsPass(old(commands), swept, expired, attempts, commands, now, batchLimit, w)
    {
      expired := ExpireOverdue(now);
      swept := commands;
      attempts := DispatchPending(batchLimit - expired, w);
    }
  }

  /** A whole pass through the table `swept` left by the sweep. */
  ghost predicate IsPass(table: seq<Command>, swept: seq<Command>, expired: nat, attempts: seq<Attempt>,
                         after: seq<Command>, now: int, limit: nat, w: World)
  {
    && IsSweep(table, swept, now, limit) && expired == ExpiredCount(table, now, limit)
    && Whole(IsDispatch(swept, attempts, after, limit - expired, 0, w))
  }

  /** The condition itself; it keeps the solver from taking the condition apart where it is to be
      used as it stands. */
  predicate Whole(condition: bool) { condition }

  // ----- The loop, between two iterations

  /** After k iterations the attempts lead from `table` to `current`, whatever the rest will be. */
  ghost predicate Continues(table: seq<Command>, attempts: seq<Attempt>, current: seq<Command>, budget: nat, k: nat,
                            w: World)
  {
    && k <= budget
    && forall rest, after :: IsDispatch(current, rest, after, budget - k, k, w) ==>
         IsDispatch(table, attempts + rest, after, budget, 0, w)
  }

  lemma Begins(table: seq<Command>, budget: nat, w: World)
    ensures Continues(table, [], table, budget, 0, w)
  {
    forall rest, after | IsDispatch(table, rest, after, budget, 0, w)
      ensures IsDispatch(table, [] + rest, after, budget, 0, w)
    {
      assert [] + rest == rest;
    }
  }

  lemma BudgetSpent(table: seq<Command>, attempts: seq<Attempt>, current: seq<Command>, budget: nat, w: World)
    requires Continues(table, attempts, current, budget, budget, w)
    ensures IsDispatch(table, attempts, current, budget, 0, w)
  {
    assert IsDispatch(current, [], current, 0, budget, w);
    assert attempts + [] == attempts;
  }

  lemma NothingLeft(table: seq<Command>, attempts: seq<Attempt>, current: seq<Command>, budget: nat, k: nat, w: World)
    requires Continues(table, attempts, current, budget, k, w) && k < budget
    requires NoRow(Replay(current, w.others(k)), Dispatchable(w.clock(k)))
    ensures IsDispatch(table, attempts, Replay(current, w.others(k)), budget, 0, w)
  {
    assert IsDispatch(current, [], Replay(current, w.others(k)), budget - k, k, w);
    assert attempts + [] == attempts;
  }

  lemma FinishedByCrash(table: seq<Command>, attempts: seq<Attempt>, current: seq<Command>, a: Attempt, budget: nat,
                        k: nat, w: World)
    requires Continues(table, attempts, current, budget, k, w) && k < budget
    requires IsAttempt(a, current, k, w) && a.reply.Crashed?
    ensures IsDispatch(table, attempts + [a], a.table, budget, 0, w)
  {
    assert IsDispatch(current, [a], a.table, budget - k, k, w);
  }

  lemma OneMoreAttempt(table: seq<Command>, attempts: seq<Attempt>, current: seq<Command>, a: Attempt, budget: nat,
                       k: nat, w: World)
    requires Continues(table, attempts, current, budget, k, w) && k < budget
    requires IsAttempt(a, current, k, w) && a.reply.Answered?
    ensures Continues(table, attempts + [a], Updated(a), budget, k + 1, w)
  {
    forall rest, after | IsDispatch(Updated(a), rest, after, budget - (k + 1), k + 1, w)
      ensures IsDispatch(table, attempts + [a] + rest, after, budget, 0, w)
    {
      assert ([a] + rest)[1..] == rest;
      assert IsDispatch(current, [a] + rest, after, budget - k, k, w);
      assert attempts + ([a] + rest) == attempts + [a] + rest;
    }
  }

  // ----- What a pass guarantees

  /** What attempt n is: the fresh selection at its own clock reading and the transport's answer. */
  lemma {:induction false} AttemptAt(table: seq<Command>, attempts: seq<Attempt>, after: seq<Command>, budget: nat,
                                     k: nat, w: World, n: nat)
    requires IsDispatch(table, attempts, after, budget, k, w) && n < |attempts|
    ensures |attempts| <= budget
    ensures n == 0 ==> IsAttempt(attempts[n], table, k, w)
    ensures n > 0 ==> WellChosen(attempts[n - 1]) && attempts[n - 1].reply.Answered?
                      && IsAttempt(attempts[n], Updated(attempts[n - 1]), k + n, w)
    decreases budget
  {
    var a, rest := attempts[0], attempts[1..];
    if rest != [] {
      AttemptAt(Updated(a), rest, after, budget - 1, k + 1, w, if n == 0 then 0 else n - 1);
      if n > 1 {
        assert rest[n - 1] == attempts[n] && rest[n - 2] == attempts[n - 1];
        assert k + 1 + (n - 1) == k + n;
      }
    }
  }

  /** Neither dispatching nor anybody else makes a row overdue that was there before. */
  lemma {:induction false} DispatchAddsNoDue(table: seq<Command>, attempts: seq<Attempt>, after: seq<Command>,
                                             budget: nat, k: nat, w: World, now: int, i: nat)
    requires IsDispatch(table, attempts, after, budget, k, w) && i < |table|
    ensures |table| <= |after| && (IsDue(after[i], now) ==> IsDue(table[i], now))
    decreases budget
  {
    if budget > 0 {
      ReplayPersists(table, w.others(k), i);
      if attempts != [] && attempts[0].reply.Answered? {
        DispatchAddsNoDue(Updated(attempts[0]), attempts[1..], after, budget - 1, k + 1, w, now, i);
      }
    }
  }

  /** Expired rows and attempts share one limit, and whatever others commit in between, every row
      offered to the transport was pending and unexpired at that moment, and no such row was older. */
  lemma PassIsBoundedAndFair(table: seq<Command>, swept: seq<Command>, expired: nat, attempts: seq<Attempt>,
                             after: seq<Command>, now: int, limit: nat, w: World)
    requires IsPass(table, swept, expired, attempts, after, now, limit, w)
    ensures expired + |attempts| <= limit
    ensures forall n :: 0 <= n < |attempts| ==>
              var a := attempts[n];
              && a.at == w.clock(n) && a.row < |a.table| && IsWaiting(a.table[a.row], a.at)
              && forall j :: 0 <= j < |a.table| && IsWaiting(a.table[j], a.at) ==>
                   a.table[a.row].createdAt <= a.table[j].createdAt
  {
    DispatchIsBoundedAndFair(swept, attempts, after, limit - expired, w);
    forall n | 0 <= n < |attempts|
      ensures var a := attempts[n];
              && a.at == w.clock(n) && a.row < |a.table| && IsWaiting(a.table[a.row], a.at)
              && forall j :: 0 <= j < |a.table| && IsWaiting(a.table[j], a.at) ==>
                   a.table[a.row].createdAt <= a.table[j].createdAt
    {
      ChosenAmongWaiting(attempts[n]);
    }
  }

  /** Pending, and its time has not come. */
  predicate IsWaiting(c: Command, now: int) {
    c.status == Pending && (c.expiresAt.None? || now < c.expiresAt.value)
  }

  lemma ChosenAmongWaiting(a: Attempt)
    requires WellChosen(a)
    ensures IsWaiting(a.table[a.row], a.at)
    ensures forall j :: 0 <= j < |a.table| && IsWaiting(a.table[j], a.at) ==>
              a.table[a.row].createdAt <= a.table[j].createdAt
  {
    forall j | 0 <= j < |a.table| && IsWaiting(a.table[j], a.at)
      ensures a.table[a.row].createdAt <= a.table[j].createdAt
    {
      assert Dispatchable(a.at)(a.table[j]);
    }
  }

  /** A pass stops only when its limit is used up, the transport has crashed, or no command is left
      waiting. */
  lemma PassStopsForAReason(table: seq<Command>, swept: seq<Command>, expired: nat, attempts: seq<Attempt>,
                            after: seq<Command>, now: int, limit: nat, w: World)
    requires IsPass(table, swept, expired, attempts, after, now, limit, w)
    ensures expired + |attempts| == limit
            || (attempts != [] && attempts[|attempts| - 1].reply.Crashed?)
            || forall i :: 0 <= i < |after| ==> !IsWaiting(after[i], w.clock(|attempts|))
  {
    DispatchStopsForAReason(swept, attempts, after, limit - expired, 0, w);
  }

  lemma {:induction false} DispatchStopsForAReason(table: seq<Command>, attempts: seq<Attempt>, after: seq<Command>,
                                                   budget: nat, k: nat, w: World)
    requires IsDispatch(table, attempts, after, budget, k, w)
    ensures |attempts| == budget || (attempts != [] && attempts[|attempts| - 1].reply.Crashed?)
            || forall i :: 0 <= i < |after| ==> !IsWaiting(after[i], w.clock(k + |attempts|))
    decreases budget
  {
    if budget > 0 {
      if attempts == [] {
        NoneWaiting(after, w.clock(k));
      } else if attempts[0].reply.Answered? {
        var rest := attempts[1..];
        DispatchStopsForAReason(Updated(attempts[0]), rest, after, budget - 1, k + 1, w);
        assert k + 1 + |rest| == k + |attempts|;
        assert rest != [] ==> rest[|rest| - 1] == attempts[|attempts| - 1];
      }
    }
  }

  lemma NoneWaiting(table: seq<Command>, now: int)
    requires NoRow(table, Dispatchable(now))
    ensures forall i :: 0 <= i < |table| ==> !IsWaiting(table[i], now)
  {
    forall i | 0 <= i < |table| ensures !IsWaiting(table[i], now) {
      assert !Dispatchable(now)(table[i]);
    }
  }

  lemma DispatchIsBoundedAndFair(table: seq<Command>, attempts: seq<Attempt>, after: seq<Command>, budget: nat,
                                 w: World)
    requires IsDispatch(table, attempts, after, budget, 0, w)
    ensures |attempts| <= budget
    ensures forall n :: 0 <= n < |attempts| ==> WellChosen(attempts[n]) && attempts[n].at == w.clock(n)
  {
    forall n | 0 <= n < |attempts| ensures WellChosen(attempts[n]) && attempts[n].at == w.clock(n) {
      AttemptAt(table, attempts, after, budget, 0, w, n);
    }
    if attempts != [] {
      AttemptAt(table, attempts, after, budget, 0, w, 0);
    }
  }

  /** With room left after the sweep, no command that was there when the pass began is left unfinished
      and overdue by the sweep's clock, whatever others commit in between. */
  lemma PassLeavesNothingOverdue(table: seq<Command>, swept: seq<Command>, expired: nat, attempts: seq<Attempt>,
                                 after: seq<Command>, now: int, limit: nat, w: World)
    requires IsPass(table, swept, expired, attempts, after, now, limit, w) && expired < limit
    ensures |table| <= |after|
    ensures forall i :: 0 <= i < |table| && (after[i].status == Pending || after[i].status == Sent) ==>
              after[i].expiresAt.None? || now < after[i].expiresAt.value
  {
    NoneDue(swept, now);
    DispatchLeavesNoneDue(swept, attempts, after, limit - expired, w, now);
  }

  lemma DispatchLeavesNoneDue(table: seq<Command>, attempts: seq<Attempt>, after: seq<Command>, budget: nat, w: World,
                              now: int)
    requires IsDispatch(table, attempts, after, budget, 0, w) && NoRow(table, Due(now))
    ensures |table| <= |after| && forall i :: 0 <= i < |table| ==> !IsDue(after[i], now)
  {
    if table != [] {
      DispatchAddsNoDue(table, attempts, after, budget, 0, w, now, 0);
    }
    forall i | 0 <= i < |table| ensures !IsDue(after[i], now) {
      assert !Due(now)(table[i]);
      DispatchAddsNoDue(table, attempts, after, budget, 0, w, now, i);
    }
  }

  // ----- Head of the line

  predicate IsRetryableRefusal(r: Reply) {
    r.Answered? && !r.result.sent && r.result.retryable
  }

  /** No other candidate at this moment was created at the same time as row i or earlier. */
  predicate Unrivalled(table: seq<Command>, now: int, i: nat)
    requires i < |table|
  {
    forall j :: 0 <= j < |table| && j != i && IsDispatchable(table[j], now) ==> table[i].createdAt < table[j].createdAt
  }

  /** The next attempt is made on the same row exactly when the transport refused it retryably and it
      is still pending and unexpired at the next selection, if no older candidate has come up. */
  lemma SameRowAgainExactly(table: seq<Command>, attempts: seq<Attempt>, after: seq<Command>, budget: nat,
                            w: World, n: nat)
    requires IsDispatch(table, attempts, after, budget, 0, w) && n + 1 < |attempts|
    requires attempts[n].row < |attempts[n + 1].table|
    requires Unrivalled(attempts[n + 1].table, attempts[n + 1].at, attempts[n].row)
    ensures attempts[n + 1].row == attempts[n].row
            <==> IsRetryableRefusal(attempts[n].reply)
                 && IsDispatchable(attempts[n + 1].table[attempts[n].row], w.clock(n + 1))
  {
    AttemptAt(table, attempts, after, budget, 0, w, n + 1);
    var a, b := attempts[n], attempts[n + 1];
    ReplayPersists(Updated(a), w.others(n + 1), a.row);
    assert Dispatchable(a.at)(a.table[a.row]) && Dispatchable(b.at)(b.table[b.row]);
    if IsDispatchable(b.table[a.row], b.at) {
      assert Dispatchable(b.at)(b.table[a.row]);
    }
  }

  /** Without foreign commits in between this is known before the next selection: the refused row is
      offered again exactly when it is unexpired at the next clock reading. */
  lemma UndisturbedRetryExactly(table: seq<Command>, attempts: seq<Attempt>, after: seq<Command>, budget: nat,
                                w: World, n: nat)
    requires IsDispatch(table, attempts, after, budget, 0, w) && n + 1 < |attempts|
    requires w.clock(n) <= w.clock(n + 1) && w.others(n + 1) == []
    requires attempts[n].row < |attempts[n].table| && Unrivalled(attempts[n].table, attempts[n].at, attempts[n].row)
    ensures attempts[n + 1].row == attempts[n].row
            <==> IsRetryableRefusal(attempts[n].reply)
                 && IsDispatchable(attempts[n].table[attempts[n].row], w.clock(n + 1))
  {
    AttemptAt(table, attempts, after, budget, 0, w, n);
    AttemptAt(table, attempts, after, budget, 0, w, n + 1);
    var a, b := attempts[n], attempts[n + 1];
    assert b.table == Updated(a);
    assert Dispatchable(b.at)(b.table[b.row]);
    if IsRetryableRefusal(a.reply) && IsDispatchable(a.table[a.row], b.at) {
      assert Dispatchable(b.at)(b.table[a.row]);
    }
  }

  /** Command c waits at position `head`, but for its error message, and every other pending row is
      younger. */
  predicate IsHead(table: seq<Command>, head: nat, c: Command) {
    && head < |table| && table[head] == c.(errorMessage := table[head].errorMessage)
    && forall j :: 0 <= j < |table| && j != head && table[j].status == Pending ==> c.createdAt < table[j].createdAt
  }

  /** The action concerns other commands only, and adds none that is older. */
  predicate LeavesAlone(a: Action, head: nat, c: Command) {
    match a
    case CreateCommand(_, _, createdAt, _) => c.createdAt < createdAt
    case SweepRows(rows, _) => head !in rows
    case Dispatch(row, _, _, _) => row != head
    case ReceiveTxAck(_, _, _, _, _) => true       // the head has no queue item yet
    case ReceiveNetworkAck(_, _, _, _, _) => true
    case ReceiveAckById(_, row, _, _, _, _) => row != head
    case ReceiveAckBySeq(device, seqNo, _, _, _, _) => device != c.deviceId || seqNo != c.commandSeq
  }

  lemma ActionKeepsHead(table: seq<Command>, a: Action, head: nat, c: Command)
    requires IsHead(table, head, c) && c.queueItemId.None? && LeavesAlone(a, head, c)
    ensures IsHead(Step(table, a), head, c)
  {
    forall j | 0 <= j < |table| ensures Persists(table[j], RowAfter(table, a, j)) {
      RowPersists(table, a, j);
    }
    assert RowAfter(table, a, head) == table[head];
  }

  lemma {:induction false} OthersKeepHead(table: seq<Command>, actions: seq<Action>, head: nat, c: Command)
    requires IsHead(table, head, c) && c.queueItemId.None?
    requires forall i :: 0 <= i < |actions| ==> LeavesAlone(actions[i], head, c)
    ensures IsHead(Replay(table, actions), head, c)
  {
    if actions != [] {
      var n := |actions| - 1;
      OthersKeepHead(table, actions[..n], head, c);
      ActionKeepsHead(Replay(table, actions[..n]), actions[n], head, c);
    }
  }

  /** A transport that refuses only the head, retryably, is offered nothing but the head for the
      whole pass, while the head does not expire and others leave it alone: the commands behind it,
      which the transport might accept, are never reached, and if nobody else acts they stay as they
      are. */
  lemma {:induction false} HeadOfLineBlocks(table: seq<Command>, attempts: seq<Attempt>, after: seq<Command>,
                                            budget: nat, k: nat, w: World, head: nat, c: Command)
    requires IsDispatch(table, attempts, after, budget, k, w)
    requires IsHead(table, head, c) && c.queueItemId.None?
    requires forall n: nat, m :: IsRetryableRefusal(w.transport(n, c.(errorMessage := m)))
    requires forall n :: k <= n < k + budget ==> IsDispatchable(c, w.clock(n))
    requires forall n, i :: k <= n < k + budget && 0 <= i < |w.others(n)| ==> LeavesAlone(w.others(n)[i], head, c)
    ensures |attempts| == budget && forall n :: 0 <= n < budget ==> attempts[n].row == head
    ensures (forall n :: k <= n < k + budget ==> w.others(n) == []) ==>
              |after| == |table| && forall j :: 0 <= j < |table| && j != head ==> after[j] == table[j]
    decreases budget
  {
    if budget > 0 {
      var current := Replay(table, w.others(k));
      OthersKeepHead(table, w.others(k), head, c);
      assert Dispatchable(w.clock(k))(current[head]);
      var a := attempts[0];
      assert a.row == head && IsRetryableRefusal(a.reply);
      var next := Updated(a);
      assert next[head] == c.(errorMessage := next[head].errorMessage);
      HeadOfLineBlocks(next, attempts[1..], after, budget - 1, k + 1, w, head, c);
      assert forall n :: 0 < n < budget ==> attempts[n] == attempts[1..][n - 1];
    }
  }

  const HEAD := Created(1, 1, 0, None)

  const BEHIND := Created(2, 1, 5, None)

  /** Device 1 cannot be reached for the moment, device 2 can; nobody else acts. */
  const ONE_UNREACHABLE := World(
    (k: nat) => k,
    (k: nat, c: Command) =>
      Answered(if c.deviceId == 1 then EnqueueResult(false, None, Some("unavailable"), true)
               else EnqueueResult(true, Some("item"), None, false), k),
    (k: nat) => [])

  /** The command for device 2 is never offered, however many iterations the pass has. */
  lemma OneUnreachableDeviceBlocksTheOther(attempts: seq<Attempt>, after: seq<Command>, budget: nat)
    requires IsDispatch([HEAD, BEHIND], attempts, after, budget, 0, ONE_UNREACHABLE)
    ensures |attempts| == budget && forall n :: 0 <= n < budget ==> attempts[n].row == 0
    ensures |after| == 2 && after[1] == BEHIND && ONE_UNREACHABLE.transport(0, BEHIND).result.sent
  {
    HeadOfLineBlocks([HEAD, BEHIND], attempts, after, budget, 0, ONE_UNREACHABLE, 0, HEAD);
  }
}
