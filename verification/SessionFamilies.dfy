/** Runs of the session operations: refresh-token families are paths, a token mints at most one
    successor, the number of live sessions is bounded, and only the oldest are evicted. */
module SessionFamilies {
  import opened Basics
  import opened RefreshSessions

  // ----- What eviction does

  predicate NoDuplicates(ids: seq<nat>) {
    forall k, l :: 0 <= k < l < |ids| ==> ids[k] != ids[l]
  }

  predicate InOrder(table: Table, ids: seq<nat>)
    requires AreSessions(table, ids)
  {
    forall k, l :: 0 <= k < l < |ids| ==> Older(table, ids[k], ids[l])
  }

  /** ids lists exactly the live sessions of the user among the first n slots. */
  ghost predicate Lists(table: Table, ids: seq<nat>, n: nat, user: int, now: int)
    requires n <= |table|
  {
    && (forall k :: 0 <= k < |ids| ==> ids[k] < n && IsLiveOf(table[ids[k]], user, now))
    && (forall i: nat :: i < n && IsLiveOf(table[i], user, now) ==> i in ids)
  }

  lemma InsertedInOrder(table: Table, ids: seq<nat>, n: nat, x: nat, y: nat)
    requires AreSessions(table, ids) && InOrder(table, ids) && n < |table| && table[n].Some?
    requires forall j :: 0 <= j < |ids| ==> ids[j] < n
    requires x < y <= |ids|
    ensures Older(table, Place(table, ids, n)[x], Place(table, ids, n)[y])
  {
    var k, r := PlaceIndex(table, ids, n), Place(table, ids, n);
    assert r[x] == if x < k then ids[x] else if x == k then n else ids[x - 1];
    assert r[y] == if y < k then ids[y] else if y == k then n else ids[y - 1];
    if y < k {
      assert Older(table, ids[x], ids[y]);
    } else if y == k {
      assert x == k - 1 || Older(table, ids[x], ids[k - 1]);
    } else if x != k {
      assert Older(table, if x < k then ids[x] else ids[x - 1], ids[y - 1]);
    }
  }

  lemma PlacedInOrder(table: Table, ids: seq<nat>, n: nat)
    requires AreSessions(table, ids) && InOrder(table, ids) && n < |table| && table[n].Some?
    requires forall k :: 0 <= k < |ids| ==> ids[k] < n
    ensures InOrder(table, Place(table, ids, n))
  {
    forall x, y | 0 <= x < y <= |ids|
      ensures Older(table, Place(table, ids, n)[x], Place(table, ids, n)[y])
    {
      InsertedInOrder(table, ids, n, x, y);
    }
  }

  lemma PlacedLists(table: Table, ids: seq<nat>, n: nat, user: int, now: int)
    requires AreSessions(table, ids)
    requires n < |table| && Lists(table, ids, n, user, now) && IsLiveOf(table[n], user, now)
    ensures Lists(table, Place(table, ids, n), n + 1, user, now)
  {
    var k, r := PlaceIndex(table, ids, n), Place(table, ids, n);
    InsertedMembers(ids, k, n);
    forall x | 0 <= x < |r| ensures r[x] < n + 1 && IsLiveOf(table[r[x]], user, now) {
      assert r[x] in r;
    }
  }

  lemma InsertedMembers(ids: seq<nat>, k: nat, n: nat)
    requires k <= |ids|
    ensures forall v :: v in ids[..k] + [n] + ids[k..] <==> v in ids || v == n
  {
    assert ids == ids[..k] + ids[k..];
  }

  lemma {:induction false} OldestFirstLists(table: Table, n: nat, user: int, now: int)
    requires n <= |table|
    ensures var ids := OldestFirst(table, n, user, now);
            Lists(table, ids, n, user, now) && InOrder(table, ids)
  {
    if n > 0 {
      OldestFirstLists(table, n - 1, user, now);
      var before := OldestFirst(table, n - 1, user, now);
      if IsLiveOf(table[n - 1], user, now) {
        PlacedInOrder(table, before, n - 1);
        PlacedLists(table, before, n - 1, user, now);
      }
    }
  }

  // ----- Counting live sessions

  function LiveCount(table: Table, user: int, now: int): nat {
    if table == [] then 0
    else LiveCount(table[..|table| - 1], user, now) + if IsLiveOf(table[|table| - 1], user, now) then 1 else 0
  }

  lemma {:induction false} ActiveIsCounted(table: Table, n: nat, user: int, now: int)
    requires n <= |table|
    ensures |OldestFirst(table, n, user, now)| == LiveCount(table[..n], user, now)
  {
    if n > 0 {
      ActiveIsCounted(table, n - 1, user, now);
      assert table[..n][..n - 1] == table[..n - 1];
    }
  }

  lemma {:induction false} RevokingOne(table: Table, i: nat, user: int, at: int, now: int)
    requires i < |table| && table[i].Some?
    ensures LiveCount(table[i := Revoked(table[i], at)], user, now)
            == LiveCount(table, user, now) - if IsLiveOf(table[i], user, now) then 1 else 0
  {
    var n := |table| - 1;
    var after := table[i := Revoked(table[i], at)];
    if i < n {
      assert after[..n] == table[..n][i := Revoked(table[i], at)];
      RevokingOne(table[..n], i, user, at, now);
    } else {
      assert after[..n] == table[..n];
    }
  }

  /** Revocation touches exactly the listed sessions. */
  lemma {:induction false} RevokedExactly(table: Table, ids: seq<nat>, now: int)
    requires AreSessions(table, ids) && NoDuplicates(ids)
    ensures forall i :: 0 <= i < |table| ==>
              RevokeAll(table, ids, now)[i]
              == if i in ids then Revoked(table[i], now) else table[i]
    decreases |ids|
  {
    if ids != [] {
      var next := table[ids[0] := Revoked(table[ids[0]], now)];
      RevokedExactly(next, ids[1..], now);
      forall i | 0 <= i < |table| && i in ids && i != ids[0] ensures i in ids[1..] {
        var k :| 0 <= k < |ids| && ids[k] == i;
        assert ids[1..][k - 1] == i;
      }
      assert ids[0] !in ids[1..];
    }
  }

  lemma {:induction false} RevokingMany(table: Table, ids: seq<nat>, user: int, at: int, now: int)
    requires AreSessions(table, ids) && NoDuplicates(ids)
    requires forall k :: 0 <= k < |ids| ==> IsLiveOf(table[ids[k]], user, now)
    ensures LiveCount(RevokeAll(table, ids, at), user, now) == LiveCount(table, user, now) - |ids|
    decreases |ids|
  {
    if ids != [] {
      RevokingOne(table, ids[0], user, at, now);
      RevokingMany(table[ids[0] := Revoked(table[ids[0]], at)], ids[1..], user, at, now);
    }
  }

  lemma VictimsFacts(table: Table, user: int, limit: int, now: int)
    requires limit >= 1
    ensures var victims := Victims(table, user, limit, now);
            && NoDuplicates(victims)
            && |victims| == Max(0, LiveCount(table, user, now) - limit + 1)
            && (forall k :: 0 <= k < |victims| ==> IsLiveOf(table[victims[k]], user, now))
  {
    var active := ActiveSessions(table, user, now);
    OldestFirstLists(table, |table|, user, now);
    ActiveIsCounted(table, |table|, user, now);
    assert table[..|table|] == table;
    forall k, l | 0 <= k < l < |active| ensures active[k] != active[l] {
      assert Older(table, active[k], active[l]);
    }
  }

  /** Enforcement revokes live sessions of the user, no more than needed to leave room for one under
      the limit, and touches nothing else. */
  lemma EvictsJustEnough(table: Table, user: int, limit: int, now: int)
    requires limit >= 1
    ensures var after := Enforce(table, user, limit, now);
            && (forall i :: 0 <= i < |table| ==>
                  after[i] == table[i] || (IsLiveOf(table[i], user, now) && after[i] == Revoked(table[i], now)))
            && LiveCount(after, user, now) == Min(LiveCount(table, user, now), limit - 1)
  {
    var victims := Victims(table, user, limit, now);
    var after := Enforce(table, user, limit, now);
    VictimsFacts(table, user, limit, now);
    RevokedExactly(table, victims, now);
    RevokingMany(table, victims, user, now, now);
    forall i | 0 <= i < |table|
      ensures after[i] == table[i] || (IsLiveOf(table[i], user, now) && after[i] == Revoked(table[i], now))
    {
      if i in victims {
        var k :| 0 <= k < |victims| && victims[k] == i;
      }
    }
  }

  /** Whoever is evicted is older, by issue time and then id, than whoever stays. */
  lemma EvictsTheOldest(table: Table, user: int, limit: int, now: int, i: nat, j: nat)
    requires limit >= 1 && i < |table| && j < |table|
    requires Enforce(table, user, limit, now)[i] != table[i]
    requires IsLiveOf(Enforce(table, user, limit, now)[j], user, now)
    ensures table[i].Some? && table[j].Some? && Older(table, i, j)
  {
    var active, victims := ActiveSessions(table, user, now), Victims(table, user, limit, now);
    VictimsFacts(table, user, limit, now);
    OldestFirstLists(table, |table|, user, now);
    RevokedExactly(table, victims, now);
    var k :| 0 <= k < |victims| && victims[k] == i;
    var l :| 0 <= l < |active| && active[l] == j;
    assert forall m :: 0 <= m < |victims| ==> active[m] == victims[m] && victims[m] in victims;
    assert Older(table, active[k], active[l]);
  }

  // ----- Runs

  datatype Operation =
    | DoLogin(user: int, token: int, client: Client, clock: Clock)
    | DoRotate(oldToken: int, newToken: int, requester: Client, rotateClock: Clock)
    | DoLogout(logoutToken: int, logoutNow: int)
    | DoCleanup(cutoff: int, cleanupNow: int)
    | DoDeactivate(deactivated: int, deactivateNow: int)
    | DoReactivate(reactivated: int, reactivateNow: int)

  /** A rotation that replaced session `from` by the new session `to`. */
  datatype Mint = Mint(from: nat, to: nat)

  /** The database, and the record of all rotations so far. */
  datatype Db = Db(table: Table, activeUsers: set<int>, minted: seq<Mint>)

  const EMPTY := Db([], {}, [])

  function Apply(db: Db, settings: Settings, op: Operation): Db {
    match op
    case DoLogin(user, token, client, clock) =>
      db.(table := Login(db.table, settings, user, token, client, clock).0)
    case DoRotate(token, newToken, client, clock) =>
      var r := Rotate(db.table, db.activeUsers, settings, token, newToken, client, clock);
      db.(table := r.0,
          minted := if r.1.Rotated? then db.minted + [Mint(Find(db.table, token), r.1.id)] else db.minted)
    case DoLogout(token, now) => db.(table := Logout(db.table, token, now))
    case DoCleanup(cutoff, now) => db.(table := Cleanup(db.table, cutoff, now))
    case DoDeactivate(user, now) =>
      db.(table := RevokeUser(db.table, user, now), activeUsers := db.activeUsers - {user})
    case DoReactivate(user, now) => db.(activeUsers := db.activeUsers + {user})
  }

  function Run(settings: Settings, ops: seq<Operation>): Db {
    if ops == [] then EMPTY
    else Apply(Run(settings, ops[..|ops| - 1]), settings, ops[|ops| - 1])
  }

  // ----- Links

  /** A replaced session is revoked, and its successor is a later session of the same user that
      still exists. */
  predicate LinkOk(table: Table, i: nat)
    requires i < |table|
  {
    table[i].Some? && table[i].value.replacedBy.Some? ==>
      var j := table[i].value.replacedBy.value;
      && table[i].value.revokedAt.Some?
      && i < j < |table| && table[j].Some? && table[j].value.userId == table[i].value.userId
  }

  predicate SameSuccessor(a: Option<Session>, b: Option<Session>) {
    a.Some? && b.Some? && a.value.replacedBy.Some? && a.value.replacedBy == b.value.replacedBy
  }

  predicate SameToken(a: Option<Session>, b: Option<Session>) {
    a.Some? && b.Some? && a.value.token == b.value.token
  }

  predicate LinksOk(table: Table) {
    && (forall i :: 0 <= i < |table| ==> LinkOk(table, i))
    && (forall i, k :: 0 <= i < k < |table| ==> !SameSuccessor(table[i], table[k]))
    && (forall i, k :: 0 <= i < k < |table| ==> !SameToken(table[i], table[k]))
  }

  /** What may happen to an existing session: revocation, losing its link, deletion. */
  predicate Weakened(before: Option<Session>, after: Option<Session>) {
    after.Some? ==>
      && before.Some?
      && after.value.userId == before.value.userId && after.value.token == before.value.token
      && after.value.expiresAt == before.value.expiresAt
      && after.value.issuedAt == before.value.issuedAt
      && after.value.userAgent == before.value.userAgent && after.value.ipAddress == before.value.ipAddress
      && (before.value.revokedAt.Some? ==> after.value.revokedAt.Some?)
      && (after.value.replacedBy == before.value.replacedBy || after.value.replacedBy.None?)
  }

  predicate AllWeakened(before: Table, after: Table) {
    |after| == |before| && forall i :: 0 <= i < |before| ==> Weakened(before[i], after[i])
  }

  /** No link leads to a deleted session. */
  predicate NothingDangles(table: Table) {
    forall i :: 0 <= i < |table| && table[i].Some? && table[i].value.replacedBy.Some? ==>
                  table[i].value.replacedBy.value < |table| && table[table[i].value.replacedBy.value].Some?
  }

  lemma WeakeningKeepsLinks(before: Table, after: Table)
    requires LinksOk(before) && AllWeakened(before, after) && NothingDangles(after)
    ensures LinksOk(after)
  {
    forall i | 0 <= i < |after| ensures LinkOk(after, i) {
      assert LinkOk(before, i) && Weakened(before[i], after[i]);
      if after[i].Some? && after[i].value.replacedBy.Some? {
        var j := after[i].value.replacedBy.value;
        assert Weakened(before[j], after[j]);
      }
    }
    forall i, k | 0 <= i < k < |after| ensures !SameSuccessor(after[i], after[k]) && !SameToken(after[i], after[k]) {
      assert !SameSuccessor(before[i], before[k]) && !SameToken(before[i], before[k]);
      assert Weakened(before[i], after[i]) && Weakened(before[k], after[k]);
    }
  }

  lemma AppendKeepsLinks(table: Table, s: Session)
    requires LinksOk(table) && !TokenInUse(table, s.token) && s.replacedBy.None?
    ensures LinksOk(table + [Some(s)])
  {
    var after := table + [Some(s)];
    forall i | 0 <= i < |after| ensures LinkOk(after, i) {
      assert i < |table| ==> LinkOk(table, i);
    }
    forall i, k | 0 <= i < k < |after| ensures !SameSuccessor(after[i], after[k]) && !SameToken(after[i], after[k]) {
      if k < |table| {
        assert !SameSuccessor(table[i], table[k]) && !SameToken(table[i], table[k]);
      } else {
        assert !HasToken(table[i], s.token);
      }
    }
  }

  /** Linking a revoked, unlinked session to the newest one, which nothing links to yet. */
  lemma LinkKeepsLinks(table: Table, i: nat)
    requires LinksOk(table) && i < |table| - 1
    requires table[i].Some? && table[i].value.revokedAt.Some? && table[i].value.replacedBy.None?
    requires table[|table| - 1].Some? && table[|table| - 1].value.userId == table[i].value.userId
    requires forall k :: 0 <= k < |table| && table[k].Some? ==> table[k].value.replacedBy != Some(|table| - 1)
    ensures LinksOk(table[i := Some(table[i].value.(replacedBy := Some(|table| - 1)))])
  {
    var after := table[i := Some(table[i].value.(replacedBy := Some(|table| - 1)))];
    forall k | 0 <= k < |after| ensures LinkOk(after, k) {
      assert LinkOk(table, k);
    }
    forall k, l | 0 <= k < l < |after| ensures !SameSuccessor(after[k], after[l]) && !SameToken(after[k], after[l]) {
      assert !SameSuccessor(table[k], table[l]) && !SameToken(table[k], table[l]);
    }
  }

  lemma EnforceWeakens(table: Table, user: int, limit: int, now: int)
    requires limit >= 1 && LinksOk(table)
    ensures AllWeakened(table, Enforce(table, user, limit, now)) && LinksOk(Enforce(table, user, limit, now))
    ensures forall i :: 0 <= i < |table| && !IsLiveOf(table[i], user, now) ==>
              Enforce(table, user, limit, now)[i] == table[i]
  {
    var after := Enforce(table, user, limit, now);
    EvictsJustEnough(table, user, limit, now);
    RevocationKeepsLinks(table, after);
  }

  lemma RevocationKeepsLinks(table: Table, after: Table)
    requires LinksOk(table) && AllWeakened(table, after)
    requires forall i :: 0 <= i < |table| ==> after[i].Some? == table[i].Some?
    ensures LinksOk(after)
  {
    forall i | 0 <= i < |after| && after[i].Some? && after[i].value.replacedBy.Some?
      ensures after[i].value.replacedBy.value < |after| && after[after[i].value.replacedBy.value].Some?
    {
      assert LinkOk(table, i) && Weakened(table[i], after[i]);
    }
    WeakeningKeepsLinks(table, after);
  }

  /** The stages of a successful rotation. */
  lemma RotationStages(table: Table, settings: Settings, i: nat, newToken: int, client: Client, clock: Clock)
    returns (enforced: Table, extended: Table)
    requires LinksOk(table) && i < |table| && IsLive(table[i], clock.base) && settings.maxActive >= 1
    requires !TokenInUse(table, newToken)
    ensures var user := table[i].value.userId;
            && enforced == Enforce(table[i := Revoked(table[i], clock.base)], user, settings.maxActive, clock.enforce)
            && extended == enforced + [Some(NewSession(user, newToken, client, clock.insert,
                                                       clock.base + settings.lifetime))]
    ensures |enforced| == |table| && enforced[i].Some? && LinksOk(extended)
    ensures enforced[i].value.revokedAt.Some? && enforced[i].value.replacedBy.None?
    ensures AllWeakened(table, enforced)
  {
    assert LinkOk(table, i);
    var user := table[i].value.userId;
    var revoked := table[i := Revoked(table[i], clock.base)];
    RevocationKeepsLinks(table, revoked);
    EnforceWeakens(revoked, user, settings.maxActive, clock.enforce);
    enforced := Enforce(revoked, user, settings.maxActive, clock.enforce);
    var added := NewSession(user, newToken, client, clock.insert, clock.base + settings.lifetime);
    extended := enforced + [Some(added)];
    forall k | 0 <= k < |table| ensures Weakened(table[k], enforced[k]) && !HasToken(enforced[k], newToken) {
      assert Weakened(revoked[k], enforced[k]) && !HasToken(table[k], newToken);
    }
    AppendKeepsLinks(enforced, added);
  }

  /** The record of rotations: each replaced session was revoked for good, by a later one. */
  predicate MintOk(table: Table, m: Mint) {
    m.from < m.to < |table| && (table[m.from].Some? ==> table[m.from].value.revokedAt.Some?)
  }

  predicate MintsOk(table: Table, minted: seq<Mint>) {
    && (forall k :: 0 <= k < |minted| ==> MintOk(table, minted[k]))
    && (forall k, l :: 0 <= k < l < |minted| ==> minted[k].from != minted[l].from && minted[k].to != minted[l].to)
  }

  predicate Inv(db: Db) {
    LinksOk(db.table) && MintsOk(db.table, db.minted)
  }

  lemma WeakeningKeepsMints(before: Table, after: Table, minted: seq<Mint>)
    requires |before| <= |after| && MintsOk(before, minted)
    requires forall i :: 0 <= i < |before| ==> WeakenedExceptLink(before[i], after[i])
    ensures MintsOk(after, minted)
  {
    forall k | 0 <= k < |minted| ensures MintOk(after, minted[k]) {
      assert MintOk(before, minted[k]);
      assert WeakenedExceptLink(before[minted[k].from], after[minted[k].from]);
    }
  }

  predicate WeakenedExceptLink(before: Option<Session>, after: Option<Session>) {
    after.Some? ==> before.Some? && (before.value.revokedAt.Some? ==> after.value.revokedAt.Some?)
  }

  lemma LoginKeepsInv(db: Db, settings: Settings, user: int, token: int, client: Client, clock: Clock)
    requires Inv(db)
    ensures Inv(Apply(db, settings, DoLogin(user, token, client, clock)))
  {
    var table := db.table;
    if settings.maxActive >= 1 && !TokenInUse(table, token) {
      var enforced := Enforce(table, user, settings.maxActive, clock.enforce);
      EnforceWeakens(table, user, settings.maxActive, clock.enforce);
      forall k | 0 <= k < |table| ensures !HasToken(enforced[k], token) {
        assert Weakened(table[k], enforced[k]) && !HasToken(table[k], token);
      }
      var added := NewSession(user, token, client, clock.insert, clock.base + settings.lifetime);
      AppendKeepsLinks(enforced, added);
      forall k | 0 <= k < |table| ensures WeakenedExceptLink(table[k], (enforced + [Some(added)])[k]) {
        assert Weakened(table[k], enforced[k]);
      }
      WeakeningKeepsMints(table, enforced + [Some(added)], db.minted);
    }
  }

  lemma RotateKeepsInv(db: Db, settings: Settings, token: int, newToken: int, client: Client, clock: Clock)
    requires Inv(db)
    ensures Inv(Apply(db, settings, DoRotate(token, newToken, client, clock)))
  {
    var table, i := db.table, Find(db.table, token);
    if Rotate(table, db.activeUsers, settings, token, newToken, client, clock).1.Rotated? {
      var enforced, extended := RotationStages(table, settings, i, newToken, client, clock);
      forall k | 0 <= k < |extended| && extended[k].Some? ensures extended[k].value.replacedBy != Some(|table|) {
        assert k < |table| ==> LinkOk(table, k) && Weakened(table[k], enforced[k]);
      }
      LinkKeepsLinks(extended, i);
      var after := Apply(db, settings, DoRotate(token, newToken, client, clock));
      assert after.table == extended[i := Some(extended[i].value.(replacedBy := Some(|table|)))];
      forall k | 0 <= k < |table| ensures WeakenedExceptLink(table[k], after.table[k]) {
        assert Weakened(table[k], enforced[k]);
      }
      WeakeningKeepsMints(table, after.table, db.minted);
      forall k | 0 <= k < |db.minted| ensures db.minted[k].from != i && db.minted[k].to != |table| {
        assert MintOk(table, db.minted[k]);
      }
    }
  }

  lemma CleanupFacts(table: Table, cutoff: int, now: int)
    requires LinksOk(table)
    ensures AllWeakened(table, Cleanup(table, cutoff, now)) && LinksOk(Cleanup(table, cutoff, now))
  {
    var after := Cleanup(table, cutoff, now);
    forall i | 0 <= i < |after| && after[i].Some? && after[i].value.replacedBy.Some?
      ensures after[i].value.replacedBy.value < |after| && after[after[i].value.replacedBy.value].Some?
    {
      assert LinkOk(table, i);
    }
    WeakeningKeepsLinks(table, after);
  }

  lemma ApplyKeepsInv(db: Db, settings: Settings, op: Operation)
    requires Inv(db)
    ensures Inv(Apply(db, settings, op))
  {
    var table, after := db.table, Apply(db, settings, op).table;
    match op
    case DoLogin(user, token, client, clock) => LoginKeepsInv(db, settings, user, token, client, clock);
    case DoRotate(token, newToken, client, clock) => RotateKeepsInv(db, settings, token, newToken, client, clock);
    case DoLogout(token, now) => RevocationKeepsLinks(table, after); WeakeningKeepsMints(table, after, db.minted);
    case DoCleanup(cutoff, now) =>
      CleanupFacts(table, cutoff, now);
      WeakeningKeepsMints(table, after, db.minted);
    case DoDeactivate(user, now) => RevocationKeepsLinks(table, after); WeakeningKeepsMints(table, after, db.minted);
    case DoReactivate(user, now) =>
  }

  lemma {:induction false} RunKeepsInv(settings: Settings, ops: seq<Operation>)
    ensures Inv(Run(settings, ops))
  {
    if ops != [] {
      RunKeepsInv(settings, ops[..|ops| - 1]);
      ApplyKeepsInv(Run(settings, ops[..|ops| - 1]), settings, ops[|ops| - 1]);
    }
  }

  // ----- Families are paths

  /** The session reached from i after n replacements, if the links go that far. */
  function Follow(table: Table, i: nat, n: nat): (r: Option<nat>)
    ensures r.Some? ==> r.value < |table|
    decreases n
  {
    if i >= |table| || table[i].None? then None
    else if n == 0 then Some(i)
    else if table[i].value.replacedBy.None? then None
    else Follow(table, table[i].value.replacedBy.value, n - 1)
  }

  /** In every reachable state, distinct sessions have distinct successors, a successor is a later
      existing session of the same user, a replaced session is revoked, and tokens are distinct. */
  lemma FamiliesArePaths(settings: Settings, ops: seq<Operation>, i: nat, k: nat)
    requires i < k < |Run(settings, ops).table|
    ensures var table := Run(settings, ops).table;
            LinkOk(table, i) && LinkOk(table, k)
            && !SameSuccessor(table[i], table[k]) && !SameToken(table[i], table[k])
  {
    RunKeepsInv(settings, ops);
  }

  lemma {:induction false} FollowClimbs(table: Table, i: nat, n: nat)
    requires LinksOk(table) && Follow(table, i, n).Some?
    ensures i + n <= Follow(table, i, n).value < |table|
    decreases n
  {
    if n > 0 {
      assert LinkOk(table, i);
      FollowClimbs(table, table[i].value.replacedBy.value, n - 1);
    }
  }

  lemma {:induction false} NotLastIsRevoked(table: Table, i: nat, m: nat, n: nat)
    requires LinksOk(table) && m < n && Follow(table, i, m).Some? && Follow(table, i, n).Some?
    ensures var s := table[Follow(table, i, m).value]; s.Some? && s.value.revokedAt.Some?
    decreases m
  {
    assert LinkOk(table, i);
    if m > 0 {
      NotLastIsRevoked(table, table[i].value.replacedBy.value, m - 1, n - 1);
    }
  }

  /** A family never loops and has at most one live session, its last. */
  lemma AtMostOneLivePerFamily(settings: Settings, ops: seq<Operation>, root: nat, m: nat, n: nat, now: int)
    requires var table := Run(settings, ops).table;
             && Follow(table, root, m).Some? && Follow(table, root, n).Some?
             && IsLive(table[Follow(table, root, m).value], now)
             && IsLive(table[Follow(table, root, n).value], now)
    ensures m == n
    ensures root + n <= Follow(Run(settings, ops).table, root, n).value
  {
    RunKeepsInv(settings, ops);
    var table := Run(settings, ops).table;
    FollowClimbs(table, root, n);
    if m < n {
      NotLastIsRevoked(table, root, m, n);
    } else if n < m {
      NotLastIsRevoked(table, root, n, m);
    }
  }

  /** Over a whole run no session is replaced twice and no session is minted twice. */
  lemma AtMostOneSuccessor(settings: Settings, ops: seq<Operation>, k: nat, l: nat)
    requires k < l < |Run(settings, ops).minted|
    ensures var minted := Run(settings, ops).minted;
            minted[k].from != minted[l].from && minted[k].to != minted[l].to
  {
    RunKeepsInv(settings, ops);
  }

  /** Grace reuse mints nothing: it changes no row and hands out the live successor, of the same
      user, that the presented token's session was rotated into. */
  lemma ReuseReturnsTheLiveSuccessor(settings: Settings, ops: seq<Operation>, token: int, newToken: int,
                                     client: Client, clock: Clock)
    requires var db := Run(settings, ops);
             Rotate(db.table, db.activeUsers, settings, token, newToken, client, clock).1.Reused?
    ensures var db := Run(settings, ops);
            var r := Rotate(db.table, db.activeUsers, settings, token, newToken, client, clock);
            var i := Find(db.table, token);
            && r.0 == db.table && Apply(db, settings, DoRotate(token, newToken, client, clock)) == db
            && i < r.1.id < |db.table|
            && Follow(db.table, i, 1) == Some(r.1.id)
            && IsLiveOf(db.table[r.1.id], db.table[i].value.userId, clock.base)
            && !IsLive(db.table[i], clock.base)
  {
    RunKeepsInv(settings, ops);
    var db := Run(settings, ops);
    assert LinkOk(db.table, Find(db.table, token));
  }

  /** The table after a successful rotation: the old session is revoked and linked, and the only
      new session, live until it expires, belongs to the same user. */
  lemma RotationHandsOver(settings: Settings, ops: seq<Operation>, token: int, newToken: int,
                          client: Client, clock: Clock)
    requires var db := Run(settings, ops);
             Rotate(db.table, db.activeUsers, settings, token, newToken, client, clock).1.Rotated?
    ensures var db := Run(settings, ops);
            var i, n := Find(db.table, token), |db.table|;
            var after := Apply(db, settings, DoRotate(token, newToken, client, clock)).table;
            && i < n && |after| == n + 1 && IsLive(db.table[i], clock.base)
            && after[i] == Some(db.table[i].value.(revokedAt := Some(clock.base), replacedBy := Some(n)))
            && after[n] == Some(NewSession(db.table[i].value.userId, newToken, client, clock.insert,
                                           clock.base + settings.lifetime))
            && Find(after, token) == i && Find(after, newToken) == n
  {
    RunKeepsInv(settings, ops);
    var db := Run(settings, ops);
    RotateKeepsInv(db, settings, token, newToken, client, clock);
    RotatedRows(db, settings, token, newToken, client, clock);
    var after := Apply(db, settings, DoRotate(token, newToken, client, clock)).table;
    FindsOnly(after, token, Find(db.table, token));
    FindsOnly(after, newToken, |db.table|);
  }

  lemma RotatedRows(db: Db, settings: Settings, token: int, newToken: int, client: Client, clock: Clock)
    requires Rotate(db.table, db.activeUsers, settings, token, newToken, client, clock).1.Rotated?
    ensures var i, n := Find(db.table, token), |db.table|;
            var after := Apply(db, settings, DoRotate(token, newToken, client, clock)).table;
            && i < n && |after| == n + 1 && IsLive(db.table[i], clock.base) && db.table[i].value.token == token
            && after[i] == Some(db.table[i].value.(revokedAt := Some(clock.base), replacedBy := Some(n)))
            && after[n] == Some(NewSession(db.table[i].value.userId, newToken, client, clock.insert,
                                           clock.base + settings.lifetime))
  {
    var i := Find(db.table, token);
    var revoked := db.table[i := Revoked(db.table[i], clock.base)];
    EvictsJustEnough(revoked, db.table[i].value.userId, settings.maxActive, clock.enforce);
  }

  lemma FindsOnly(table: Table, token: int, i: nat)
    requires LinksOk(table) && i < |table| && HasToken(table[i], token)
    ensures Find(table, token) == i
  {
    var k := Find(table, token);
    assert k < |table|;
    assert SameToken(table[k], table[i]) && SameToken(table[i], table[k]);
  }

  /** Presenting a token again right after its rotation returns the very session it was rotated
      into, exactly when the retry comes within the grace period, before the new session expires and
      from a client that does not contradict the old session's; otherwise the token is refused. */
  lemma RetryAfterRotation(settings: Settings, ops: seq<Operation>, token: int, newToken: int, client: Client,
                           clock: Clock, unusedToken: int, retrying: Client, later: Clock)
    requires var db := Run(settings, ops);
             Rotate(db.table, db.activeUsers, settings, token, newToken, client, clock).1.Rotated?
    ensures var db := Run(settings, ops);
            var presented := db.table[Find(db.table, token)].value;
            var after := Apply(db, settings, DoRotate(token, newToken, client, clock));
            Rotate(after.table, after.activeUsers, settings, token, unusedToken, retrying, later)
            == (after.table,
                if settings.grace >= 1 && later.base <= clock.base + settings.grace * SECOND
                   && later.base < clock.base + settings.lifetime && FingerprintMatches(presented, retrying)
                then Reused(|db.table|) else InvalidToken)
  {
    RotationHandsOver(settings, ops, token, newToken, client, clock);
  }

  // ----- Deactivation

  /** Every session of the user among the first n slots is revoked, and leads to one among them. */
  predicate Dead(table: Table, n: nat, user: int) {
    n <= |table|
    && forall i :: 0 <= i < n && table[i].Some? && table[i].value.userId == user ==>
         table[i].value.revokedAt.Some?
         && (table[i].value.replacedBy.Some? ==> table[i].value.replacedBy.value < n)
  }

  lemma WeakenedStaysDead(before: Table, after: Table, n: nat, user: int)
    requires Dead(before, n, user) && |before| <= |after|
    requires forall i :: 0 <= i < n ==> Weakened(before[i], after[i])
    ensures Dead(after, n, user)
  {
  }

  lemma StaysDead(db: Db, settings: Settings, op: Operation, n: nat, user: int)
    requires Inv(db) && Dead(db.table, n, user)
    ensures Dead(Apply(db, settings, op).table, n, user)
  {
    var table, after := db.table, Apply(db, settings, op).table;
    match op
    case DoLogin(u, token, client, clock) =>
      if settings.maxActive >= 1 && !TokenInUse(table, token) {
        EnforceWeakens(table, u, settings.maxActive, clock.enforce);
        WeakenedStaysDead(table, after, n, user);
      }
    case DoRotate(token, newToken, client, clock) =>
      if Rotate(table, db.activeUsers, settings, token, newToken, client, clock).1.Rotated? {
        RotationStaysDead(db, settings, token, newToken, client, clock, n, user);
      }
    case DoLogout(token, now) => WeakenedStaysDead(table, after, n, user);
    case DoCleanup(cutoff, now) => WeakenedStaysDead(table, after, n, user);
    case DoDeactivate(u, now) => WeakenedStaysDead(table, after, n, user);
    case DoReactivate(u, now) =>
  }

  /** A rotation links a live session, which is none of the dead ones. */
  lemma RotationStaysDead(db: Db, settings: Settings, token: int, newToken: int, client: Client, clock: Clock,
                          n: nat, user: int)
    requires Inv(db) && Dead(db.table, n, user)
    requires Rotate(db.table, db.activeUsers, settings, token, newToken, client, clock).1.Rotated?
    ensures Dead(Apply(db, settings, DoRotate(token, newToken, client, clock)).table, n, user)
  {
    var i, after := Find(db.table, token), Apply(db, settings, DoRotate(token, newToken, client, clock)).table;
    var enforced, extended := RotationStages(db.table, settings, i, newToken, client, clock);
    forall k | 0 <= k < n && after[k].Some? && after[k].value.userId == user
      ensures after[k].value.revokedAt.Some?
      ensures after[k].value.replacedBy.Some? ==> after[k].value.replacedBy.value < n
    {
      assert Weakened(db.table[k], enforced[k]);
    }
  }

  lemma {:induction false} RunStaysDead(settings: Settings, ops: seq<Operation>, k: nat, n: nat, user: int)
    requires k <= |ops| && Dead(Run(settings, ops[..k]).table, n, user)
    ensures Dead(Run(settings, ops).table, n, user)
  {
    if k == |ops| {
      assert ops[..k] == ops;
    } else {
      var init := ops[..|ops| - 1];
      assert init[..k] == ops[..k];
      RunStaysDead(settings, init, k, n, user);
      RunKeepsInv(settings, init);
      StaysDead(Run(settings, init), settings, ops[|ops| - 1], n, user);
    }
  }

  lemma DeadTokenIsRefused(table: Table, activeUsers: set<int>, settings: Settings, n: nat, user: int, token: int,
                           newToken: int, client: Client, clock: Clock)
    requires Dead(table, n, user) && Find(table, token) < n && table[Find(table, token)].value.userId == user
    ensures Rotate(table, activeUsers, settings, token, newToken, client, clock) == (table, InvalidToken)
  {
  }

  /** Deactivating a user ends all sessions issued so far for good: whatever happens afterwards, the
      user's reactivation and new logins included, none of their tokens is ever rotated or reused. */
  lemma DeactivationIsFinal(settings: Settings, ops: seq<Operation>, k: nat, user: int, token: int,
                            newToken: int, client: Client, clock: Clock)
    requires k < |ops| && ops[k].DoDeactivate? && ops[k].deactivated == user
    requires var i := Find(Run(settings, ops).table, token);
             i < |Run(settings, ops[..k]).table| && i < |Run(settings, ops).table|
             && Run(settings, ops).table[i].value.userId == user
    ensures var db := Run(settings, ops);
            Rotate(db.table, db.activeUsers, settings, token, newToken, client, clock) == (db.table, InvalidToken)
  {
    var before, n := Run(settings, ops[..k]), |Run(settings, ops[..k]).table|;
    RunKeepsInv(settings, ops[..k]);
    assert ops[..k + 1][..k] == ops[..k];
    var after := Run(settings, ops[..k + 1]).table;
    assert after == RevokeUser(before.table, user, ops[k].deactivateNow);
    forall i | 0 <= i < n && after[i].Some? && after[i].value.replacedBy.Some?
      ensures after[i].value.replacedBy.value < n
    {
      assert LinkOk(before.table, i);
    }
    RunStaysDead(settings, ops, k + 1, n, user);
    DeadTokenIsRefused(Run(settings, ops).table, Run(settings, ops).activeUsers, settings, n, user, token,
                       newToken, client, clock);
  }

  /** Cleanup deletes no live session and leaves every live session as it was. */
  lemma CleanupSparesLiveSessions(settings: Settings, ops: seq<Operation>, cutoff: int, now: int, i: nat)
    requires i < |Run(settings, ops).table| && IsLive(Run(settings, ops).table[i], now)
    ensures Cleanup(Run(settings, ops).table, cutoff, now)[i] == Run(settings, ops).table[i]
  {
    RunKeepsInv(settings, ops);
    assert LinkOk(Run(settings, ops).table, i);
  }

  // ----- The session limit

  /** The clock reading by which an operation judges which sessions are live. */
  function Moment(op: Operation): int {
    match op
    case DoLogin(_, _, _, clock) => clock.enforce
    case DoRotate(_, _, _, clock) => clock.enforce
    case DoLogout(_, now) => now
    case DoCleanup(_, now) => now
    case DoDeactivate(_, now) => now
    case DoReactivate(_, now) => now
  }

  predicate Chronological(ops: seq<Operation>) {
    forall i, j :: 0 <= i < j < |ops| ==> Moment(ops[i]) <= Moment(ops[j])
  }

  lemma {:induction false} FewerLive(before: Table, after: Table, user: int, t: int, u: int)
    requires |before| == |after|
    requires forall i :: 0 <= i < |before| && IsLiveOf(after[i], user, u) ==> IsLiveOf(before[i], user, t)
    ensures LiveCount(after, user, u) <= LiveCount(before, user, t)
  {
    if before != [] {
      FewerLive(before[..|before| - 1], after[..|after| - 1], user, t, u);
    }
  }

  lemma WeakenedIsLessLive(before: Table, after: Table, user: int, t: int, u: int)
    requires AllWeakened(before, after) && t <= u
    ensures LiveCount(after, user, u) <= LiveCount(before, user, t)
  {
    forall i | 0 <= i < |before| && IsLiveOf(after[i], user, u) ensures IsLiveOf(before[i], user, t) {
      assert Weakened(before[i], after[i]);
    }
    FewerLive(before, after, user, t, u);
  }

  lemma OneMoreLive(table: Table, s: Session, user: int, t: int)
    ensures LiveCount(table + [Some(s)], user, t)
            <= LiveCount(table, user, t) + if s.userId == user then 1 else 0
  {
    assert (table + [Some(s)])[..|table|] == table;
  }

  lemma LoginRespectsLimit(db: Db, settings: Settings, op: Operation, user: int, t: int)
    requires Inv(db) && op.DoLogin? && t <= op.clock.enforce
    requires LiveCount(db.table, user, t) <= Max(0, settings.maxActive)
    ensures LiveCount(Apply(db, settings, op).table, user, op.clock.enforce) <= Max(0, settings.maxActive)
  {
    var table, now := db.table, op.clock.enforce;
    if settings.maxActive >= 1 && !TokenInUse(table, op.token) {
      var enforced := Enforce(table, op.user, settings.maxActive, now);
      EvictsJustEnough(table, op.user, settings.maxActive, now);
      EnforceWeakens(table, op.user, settings.maxActive, now);
      WeakenedIsLessLive(table, enforced, user, t, now);
      OneMoreLive(enforced,
                  NewSession(op.user, op.token, op.client, op.clock.insert, op.clock.base + settings.lifetime),
                  user, now);
    } else {
      WeakenedIsLessLive(table, table, user, t, now);
    }
  }

  lemma RotateRespectsLimit(db: Db, settings: Settings, op: Operation, user: int, t: int)
    requires Inv(db) && op.DoRotate? && t <= op.rotateClock.enforce
    requires LiveCount(db.table, user, t) <= Max(0, settings.maxActive)
    ensures LiveCount(Apply(db, settings, op).table, user, op.rotateClock.enforce) <= Max(0, settings.maxActive)
  {
    var table, clock := db.table, op.rotateClock;
    var now, i := clock.enforce, Find(db.table, op.oldToken);
    if Rotate(table, db.activeUsers, settings, op.oldToken, op.newToken, op.requester, clock).1.Rotated? {
      var owner := table[i].value.userId;
      var enforced, extended := RotationStages(table, settings, i, op.newToken, op.requester, clock);
      EvictsJustEnough(table[i := Revoked(table[i], clock.base)], owner, settings.maxActive, now);
      WeakenedIsLessLive(table, enforced, user, t, now);
      OneMoreLive(enforced, extended[|table|].value, user, now);
      FewerLive(extended, Apply(db, settings, op).table, user, now, now);
    } else {
      WeakenedIsLessLive(table, table, user, t, now);
    }
  }

  lemma ApplyRespectsLimit(db: Db, settings: Settings, op: Operation, user: int, t: int)
    requires Inv(db) && t <= Moment(op)
    requires LiveCount(db.table, user, t) <= Max(0, settings.maxActive)
    ensures LiveCount(Apply(db, settings, op).table, user, Moment(op)) <= Max(0, settings.maxActive)
  {
    var after := Apply(db, settings, op).table;
    match op
    case DoLogin(_, _, _, _) => LoginRespectsLimit(db, settings, op, user, t);
    case DoRotate(_, _, _, _) => RotateRespectsLimit(db, settings, op, user, t);
    case DoCleanup(cutoff, now) =>
      CleanupFacts(db.table, cutoff, now);
      WeakenedIsLessLive(db.table, after, user, t, now);
    case DoLogout(_, now) => WeakenedIsLessLive(db.table, after, user, t, now);
    case DoDeactivate(_, now) => WeakenedIsLessLive(db.table, after, user, t, now);
    case DoReactivate(_, now) => WeakenedIsLessLive(db.table, after, user, t, now);
  }

  /** At no moment after any operation does a user have more live sessions than the limit. */
  lemma {:induction false} LimitIsNeverExceeded(settings: Settings, ops: seq<Operation>, user: int, now: int)
    requires Chronological(ops) && (ops != [] ==> Moment(ops[|ops| - 1]) <= now)
    ensures LiveCount(Run(settings, ops).table, user, now) <= Max(0, settings.maxActive)
  {
    if ops != [] {
      var init, op := ops[..|ops| - 1], ops[|ops| - 1];
      var after := Run(settings, ops).table;
      var t := if init == [] then Moment(op) else Moment(init[|init| - 1]);
      LimitIsNeverExceeded(settings, init, user, t);
      RunKeepsInv(settings, init);
      ApplyRespectsLimit(Run(settings, init), settings, op, user, t);
      WeakenedIsLessLive(after, after, user, Moment(op), now);
    }
  }
}
