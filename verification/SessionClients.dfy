/** What becomes of a session, told from the operations themselves: the client it was made for, which
    retries are refused, and exactly what login, rotation, logout and cleanup do to every row. */
module SessionClients {
  import opened Basics
  import opened RefreshSessions
  import opened SessionFamilies

  // ----- A row never forgets where it came from

  /** Operation k of the run made slot i. */
  predicate Makes(settings: Settings, ops: seq<Operation>, k: nat, i: nat) {
    && k < |ops| && (ops[k].DoLogin? || ops[k].DoRotate?)
    && i == |Run(settings, ops[..k]).table| < |Run(settings, ops[..k + 1]).table|
  }

  function ClientOf(op: Operation): Client
    requires op.DoLogin? || op.DoRotate?
  {
    match op case DoLogin(_, _, client, _) => client case DoRotate(_, _, client, _) => client
  }

  /** The stored agent is the first 512 characters of the one given. */
  function First512(text: Option<string>): Option<string> {
    match text case None => None case Some(s) => Some(if |s| <= 512 then s else s[..512])
  }

  predicate SameRow(before: Option<Session>, after: Option<Session>) {
    after.Some? ==>
      && before.Some?
      && after.value.(revokedAt := None, replacedBy := None) == before.value.(revokedAt := None, replacedBy := None)
      && (before.value.revokedAt.Some? ==> after.value.revokedAt.Some?)
  }

  lemma WeakenedIsSameRow(before: Option<Session>, after: Option<Session>)
    requires Weakened(before, after)
    ensures SameRow(before, after)
  {
  }

  lemma ApplyKeepsRow(db: Db, settings: Settings, op: Operation, i: nat)
    requires Inv(db) && i < |db.table|
    ensures i < |Apply(db, settings, op).table| && SameRow(db.table[i], Apply(db, settings, op).table[i])
  {
    var table := db.table;
    match op
    case DoLogin(u, token, client, clock) =>
      if settings.maxActive >= 1 && !TokenInUse(table, token) {
        EnforceWeakens(table, u, settings.maxActive, clock.enforce);
        WeakenedIsSameRow(table[i], Enforce(table, u, settings.maxActive, clock.enforce)[i]);
      }
    case DoRotate(token, newToken, client, clock) =>
      if Rotate(table, db.activeUsers, settings, token, newToken, client, clock).1.Rotated? {
        var enforced, extended := RotationStages(table, settings, Find(table, token), newToken, client, clock);
        WeakenedIsSameRow(table[i], enforced[i]);
      }
    case DoLogout(token, now) =>
    case DoCleanup(cutoff, now) =>
    case DoDeactivate(u, now) =>
    case DoReactivate(u, now) =>
  }

  lemma {:induction false} RowStays(settings: Settings, ops: seq<Operation>, k: nat, i: nat)
    requires k <= |ops| && i < |Run(settings, ops[..k]).table|
    ensures i < |Run(settings, ops).table|
    ensures SameRow(Run(settings, ops[..k]).table[i], Run(settings, ops).table[i])
  {
    if k == |ops| {
      assert ops[..k] == ops;
    } else {
      var init := ops[..|ops| - 1];
      assert init[..k] == ops[..k];
      RowStays(settings, init, k, i);
      RunKeepsInv(settings, init);
      ApplyKeepsRow(Run(settings, init), settings, ops[|ops| - 1], i);
    }
  }

  lemma MadeRow(settings: Settings, ops: seq<Operation>, k: nat, i: nat)
    requires Makes(settings, ops, k, i)
    ensures var slot := Run(settings, ops[..k + 1]).table[i];
            && slot.Some?
            && slot.value.userAgent == First512(ClientOf(ops[k]).userAgent)
            && slot.value.ipAddress == ClientOf(ops[k]).ipAddress
  {
    assert ops[..k + 1][..k] == ops[..k];
  }

  /** A session keeps the agent and the address of the login or rotation that made it. */
  lemma ClientIsKept(settings: Settings, ops: seq<Operation>, k: nat, i: nat)
    requires Makes(settings, ops, k, i)
    ensures i < |Run(settings, ops).table|
    ensures var slot := Run(settings, ops).table[i];
            slot.Some? ==> slot.value.userAgent == First512(ClientOf(ops[k]).userAgent)
                           && slot.value.ipAddress == ClientOf(ops[k]).ipAddress
  {
    MadeRow(settings, ops, k, i);
    RowStays(settings, ops, k + 1, i);
  }

  // ----- Retries from other clients

  /** Both texts are given, neither is empty, and they differ. */
  predicate Conflict(a: Option<string>, b: Option<string>) {
    a.Some? && b.Some? && |a.value| > 0 && |b.value| > 0 && a.value != b.value
  }

  /** A token is presented again right after its rotation. Whether it is answered with the session it
      was rotated into is decided by the time, by the address, and by the first 512 characters of the
      agent, compared with those of the very login or rotation that had made its session. */
  lemma RetryIsDecidedByTheMaker(settings: Settings, ops: seq<Operation>, k: nat, token: int, newToken: int,
                                 client: Client, clock: Clock, unusedToken: int, retrying: Client, later: Clock)
    requires var db := Run(settings, ops);
             && Rotate(db.table, db.activeUsers, settings, token, newToken, client, clock).1.Rotated?
             && Makes(settings, ops, k, Find(db.table, token))
    ensures var db := Run(settings, ops);
            var after := Apply(db, settings, DoRotate(token, newToken, client, clock));
            var maker := ClientOf(ops[k]);
            Rotate(after.table, after.activeUsers, settings, token, unusedToken, retrying, later)
            == (after.table,
                if Conflict(maker.ipAddress, retrying.ipAddress)
                   || Conflict(First512(maker.userAgent), First512(retrying.userAgent))
                then InvalidToken
                else if settings.grace >= 1 && later.base <= clock.base + settings.grace * 1_000_000
                        && later.base < clock.base + settings.lifetime
                then Reused(|db.table|) else InvalidToken)
  {
    var db := Run(settings, ops);
    var i := Find(db.table, token);
    ClientIsKept(settings, ops, k, i);
    MatchesExactly(db.table[i].value, retrying, ClientOf(ops[k]));
    RetryAfterRotation(settings, ops, token, newToken, client, clock, unusedToken, retrying, later);
  }

  lemma MatchesExactly(s: Session, retrying: Client, maker: Client)
    requires s.userAgent == First512(maker.userAgent) && s.ipAddress == maker.ipAddress
    ensures FingerprintMatches(s, retrying)
            <==> !Conflict(maker.ipAddress, retrying.ipAddress)
                 && !Conflict(First512(maker.userAgent), First512(retrying.userAgent))
  {
  }

  const AT_HOME := Client(Some("agent"), Some("10.0.0.1"))

  const ELSEWHERE := Client(Some("other"), Some("6.6.6.6"))

  /** A stranger who presents the old token within the grace period is refused, its owner is not. */
  lemma StrangerIsRefused(settings: Settings, ops: seq<Operation>, newToken: int, unusedToken: int)
    requires settings.maxActive == 1 && settings.grace == 10 && settings.lifetime == 1_000_000_000
    requires ops == [DoReactivate(7, 0)] + [DoLogin(7, 1, AT_HOME, Clock(0, 0, 0))] && newToken != 1
    ensures var db := Run(settings, ops);
            var after := Apply(db, settings, DoRotate(1, newToken, AT_HOME, Clock(5, 5, 5)));
            && Rotate(after.table, after.activeUsers, settings, 1, unusedToken, ELSEWHERE, Clock(6, 6, 6)).1
               == InvalidToken
            && Rotate(after.table, after.activeUsers, settings, 1, unusedToken, AT_HOME, Clock(6, 6, 6)).1
               == Reused(1)
  {
    var start := [DoReactivate(7, 0)];
    assert start[..0] == [] && ops[..1] == start && ops[..2] == ops;
    assert Run(settings, []) == EMPTY;
    assert Run(settings, start) == Db([], {7}, []);
    assert Enforce([], 7, 1, 0) == [];
    assert Run(settings, ops).table == [Some(NewSession(7, 1, AT_HOME, 0, 1_000_000_000))];
    var db := Run(settings, ops);
    assert db.activeUsers == {7};
    assert HasToken(db.table[0], 1);
    RetryIsDecidedByTheMaker(settings, ops, 1, 1, newToken, AT_HOME, Clock(5, 5, 5), unusedToken, ELSEWHERE,
                             Clock(6, 6, 6));
    RetryIsDecidedByTheMaker(settings, ops, 1, 1, newToken, AT_HOME, Clock(5, 5, 5), unusedToken, AT_HOME,
                             Clock(6, 6, 6));
  }

  // ----- Every row after every operation

  /** A login succeeds exactly if the limit is positive and the token is new, and then adds one live
      session made of its own inputs; it ends no session of another user. */
  lemma LoginExactly(db: Db, settings: Settings, user: int, token: int, client: Client, clock: Clock)
    ensures var r := Login(db.table, settings, user, token, client, clock);
            var n := |db.table|;
            && (r.1.LoggedIn? <==> settings.maxActive >= 1
                                   && forall i :: 0 <= i < n && db.table[i].Some? ==> db.table[i].value.token != token)
            && (!r.1.LoggedIn? ==> r.0 == db.table)
            && (r.1.LoggedIn? ==>
                  && r.1 == LoggedIn(n) && |r.0| == n + 1
                  && r.0[n] == Some(Session(user, token, clock.insert, clock.base + settings.lifetime, None, None,
                                            First512(client.userAgent), client.ipAddress))
                  && forall i :: 0 <= i < n && db.table[i].Some? && db.table[i].value.userId != user ==>
                       r.0[i] == db.table[i])
  {
    if settings.maxActive >= 1 {
      EvictsJustEnough(db.table, user, settings.maxActive, clock.enforce);
    }
    if TokenInUse(db.table, token) {
      var i :| 0 <= i < |db.table| && HasToken(db.table[i], token);
    } else {
      forall i | 0 <= i < |db.table| && db.table[i].Some? ensures db.table[i].value.token != token {
        assert !HasToken(db.table[i], token);
      }
    }
  }

  /** The slot holds this token, neither revoked nor expired. */
  predicate IsCurrent(slot: Option<Session>, token: int, now: int) {
    slot.Some? && slot.value.token == token && slot.value.revokedAt.None? && now < slot.value.expiresAt
  }

  lemma TokensAreApart(settings: Settings, ops: seq<Operation>, i: nat, k: nat)
    requires var table := Run(settings, ops).table;
             && i < |table| && k < |table| && table[i].Some? && table[k].Some?
             && table[i].value.token == table[k].value.token
    ensures i == k
  {
    RunKeepsInv(settings, ops);
    var table := Run(settings, ops).table;
    assert SameToken(table[i], table[k]) && SameToken(table[k], table[i]);
  }

  /** In every reachable state a token is rotated exactly if some session holds it unrevoked and
      unexpired, its user is active, the limit is positive and the new token is not in use. */
  lemma RotatesExactly(settings: Settings, ops: seq<Operation>, token: int, newToken: int, client: Client, clock: Clock)
    ensures var db := Run(settings, ops);
            Rotate(db.table, db.activeUsers, settings, token, newToken, client, clock).1.Rotated?
            <==> settings.maxActive >= 1
                 && (exists i :: 0 <= i < |db.table| && IsCurrent(db.table[i], token, clock.base)
                                 && db.table[i].value.userId in db.activeUsers)
                 && forall i :: 0 <= i < |db.table| && db.table[i].Some? ==> db.table[i].value.token != newToken
  {
    var db := Run(settings, ops);
    var table, f := db.table, Find(db.table, token);
    forall i | 0 <= i < |table| && IsCurrent(table[i], token, clock.base) ensures i == f {
      assert HasToken(table[i], token);
      TokensAreApart(settings, ops, i, f);
    }
    if TokenInUse(table, newToken) {
      var i :| 0 <= i < |table| && HasToken(table[i], newToken);
    } else {
      forall i | 0 <= i < |table| && table[i].Some? ensures table[i].value.token != newToken {
        assert !HasToken(table[i], newToken);
      }
    }
    if f < |table| && IsLive(table[f], clock.base) {
      assert IsCurrent(table[f], token, clock.base);
    }
  }

  /** A token that is not current is answered with session j exactly if its session was rotated into j
      and revoked within the grace period, its user is active, the client does not contradict the one
      stored, and j is a live session of the same user. */
  lemma ReusesExactly(db: Db, settings: Settings, token: int, client: Client, now: int, j: nat)
    requires Find(db.table, token) < |db.table|
    ensures var s := db.table[Find(db.table, token)].value;
            Reuse(db.table, db.activeUsers, settings, token, client, now) == Some(j)
            <==> settings.grace >= 1
                 && s.revokedAt.Some? && now <= s.revokedAt.value + settings.grace * 1_000_000
                 && s.replacedBy == Some(j) && s.userId in db.activeUsers
                 && !Conflict(s.ipAddress, client.ipAddress)
                 && !Conflict(s.userAgent, First512(client.userAgent))
                 && j < |db.table| && db.table[j].Some? && db.table[j].value.userId == s.userId
                 && db.table[j].value.revokedAt.None? && now < db.table[j].value.expiresAt
  {
  }

  /** Logout revokes the current session of the token, at that moment, and touches no other row. */
  lemma LogoutExactly(settings: Settings, ops: seq<Operation>, token: int, now: int)
    ensures var table := Run(settings, ops).table;
            var after := Apply(Run(settings, ops), settings, DoLogout(token, now)).table;
            && |after| == |table|
            && forall i :: 0 <= i < |table| ==>
                 after[i] == if IsCurrent(table[i], token, now) then Some(table[i].value.(revokedAt := Some(now)))
                             else table[i]
  {
    var table, f := Run(settings, ops).table, Find(Run(settings, ops).table, token);
    forall i | 0 <= i < |table| && IsCurrent(table[i], token, now) ensures i == f {
      assert HasToken(table[i], token);
      TokensAreApart(settings, ops, i, f);
    }
  }

  /** Issued before the cutoff and no longer of use. */
  predicate IsOldAndDone(slot: Option<Session>, cutoff: int, now: int) {
    slot.Some? && slot.value.issuedAt < cutoff && (slot.value.revokedAt.Some? || slot.value.expiresAt < now)
  }

  /** Cleanup deletes exactly the old sessions that are revoked or expired; of the others only links
      to deleted sessions are cleared. */
  lemma CleanupExactly(settings: Settings, ops: seq<Operation>, cutoff: int, now: int)
    ensures var table := Run(settings, ops).table;
            var after := Apply(Run(settings, ops), settings, DoCleanup(cutoff, now)).table;
            && |after| == |table|
            && (forall i :: 0 <= i < |table| ==>
                  (after[i].None? <==> table[i].None? || IsOldAndDone(table[i], cutoff, now)))
            && (forall i :: 0 <= i < |table| && after[i].Some? ==>
                  var link := table[i].value.replacedBy;
                  after[i].value
                  == if link.Some? && link.value < |table| && IsOldAndDone(table[link.value], cutoff, now)
                     then table[i].value.(replacedBy := None) else table[i].value)
  {
  }
}
