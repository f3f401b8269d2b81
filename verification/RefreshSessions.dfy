/** Refresh-token sessions: login with eviction, rotation, grace reuse, logout, cleanup and user
    deactivation (src/service/crud_user.py, src/models/user.py).

    A session's id is its position in the table; ids are never reused, a deleted session leaves an
    empty slot. Tokens stand for their hashes, which are taken to be injective. Operations are
    serial transactions; one that raises leaves the table unchanged. */
module RefreshSessions {
  import opened Basics

  datatype Session = Session(
    userId: int, token: int, issuedAt: int, expiresAt: int,
    revokedAt: Option<int>, replacedBy: Option<nat>,
    userAgent: Option<string>, ipAddress: Option<string>)

  type Table = seq<Option<Session>>

  datatype Settings = Settings(maxActive: int, lifetime: int, grace: int)

  datatype Client = Client(userAgent: Option<string>, ipAddress: Option<string>)

  datatype LoginResult = LoggedIn(id: nat) | LoginServerError | LoginConflict

  datatype RotateResult = Rotated(id: nat) | Reused(id: nat) | InvalidToken | ServerError | Conflict

  const SECOND := 1_000_000

  predicate IsLive(slot: Option<Session>, now: int) {
    slot.Some? && slot.value.revokedAt.None? && slot.value.expiresAt > now
  }

  predicate IsLiveOf(slot: Option<Session>, user: int, now: int) {
    IsLive(slot, now) && slot.value.userId == user
  }

  function Revoked(slot: Option<Session>, now: int): Option<Session>
    requires slot.Some?
  {
    Some(slot.value.(revokedAt := Some(now)))
  }

  // ----- Eviction

  /** Order of eviction: by issue time, then by id. */
  predicate Older(table: Table, i: nat, j: nat)
    requires i < |table| && j < |table| && table[i].Some? && table[j].Some?
  {
    table[i].value.issuedAt < table[j].value.issuedAt
    || (table[i].value.issuedAt == table[j].value.issuedAt && i < j)
  }

  predicate AreSessions(table: Table, ids: seq<nat>) {
    forall k :: 0 <= k < |ids| ==> ids[k] < |table| && table[ids[k]].Some?
  }

  /** Where id n, larger than all of ids, goes: behind the last session issued no later. */
  function PlaceIndex(table: Table, ids: seq<nat>, n: nat): (k: nat)
    requires AreSessions(table, ids) && n < |table| && table[n].Some?
    ensures k <= |ids|
    ensures k > 0 ==> table[ids[k - 1]].value.issuedAt <= table[n].value.issuedAt
    ensures forall j :: k <= j < |ids| ==> table[n].value.issuedAt < table[ids[j]].value.issuedAt
  {
    if ids == [] || table[ids[|ids| - 1]].value.issuedAt <= table[n].value.issuedAt then |ids|
    else PlaceIndex(table, ids[..|ids| - 1], n)
  }

  function Place(table: Table, ids: seq<nat>, n: nat): (r: seq<nat>)
    requires AreSessions(table, ids) && n < |table| && table[n].Some?
    ensures |r| == |ids| + 1 && AreSessions(table, r)
  {
    var k := PlaceIndex(table, ids, n);
    ids[..k] + [n] + ids[k..]
  }

  /** Ids of the user's live sessions among the first n slots, oldest first. */
  function OldestFirst(table: Table, n: nat, user: int, now: int): (r: seq<nat>)
    requires n <= |table|
    ensures AreSessions(table, r)
  {
    if n == 0 then []
    else
      var ids := OldestFirst(table, n - 1, user, now);
      if IsLiveOf(table[n - 1], user, now) then Place(table, ids, n - 1) else ids
  }

  function ActiveSessions(table: Table, user: int, now: int): (r: seq<nat>)
    ensures AreSessions(table, r)
  {
    OldestFirst(table, |table|, user, now)
  }

  function RevokeAll(table: Table, ids: seq<nat>, now: int): (r: Table)
    requires AreSessions(table, ids)
    ensures |r| == |table| && forall i :: 0 <= i < |table| ==> r[i].Some? == table[i].Some?
    decreases |ids|
  {
    if ids == [] then table
    else RevokeAll(table[ids[0] := Revoked(table[ids[0]], now)], ids[1..], now)
  }

  /** The sessions to revoke so that one more fits under the limit. */
  function Victims(table: Table, user: int, limit: int, now: int): (r: seq<nat>)
    requires limit >= 1
    ensures AreSessions(table, r)
  {
    var active := ActiveSessions(table, user, now);
    active[..Max(0, |active| - limit + 1)]
  }

  function Enforce(table: Table, user: int, limit: int, now: int): (r: Table)
    requires limit >= 1
    ensures |r| == |table| && forall i :: 0 <= i < |table| ==> r[i].Some? == table[i].Some?
  {
    RevokeAll(table, Victims(table, user, limit, now), now)
  }

  // ----- Login and rotation

  function TruncatedAgent(agent: Option<string>): Option<string> {
    if agent.Some? && |agent.value| > 512 then Some(agent.value[..512]) else agent
  }

  predicate TokenInUse(table: Table, token: int) {
    exists i :: 0 <= i < |table| && HasToken(table[i], token)
  }

  predicate HasToken(slot: Option<Session>, token: int) {
    slot.Some? && slot.value.token == token
  }

  function NewSession(user: int, token: int, client: Client, issuedAt: int, expiresAt: int): Session {
    Session(user, token, issuedAt, expiresAt, None, None, TruncatedAgent(client.userAgent), client.ipAddress)
  }

  /** Clock readings of one transaction: the one the new expiry counts from (in a rotation also the
      one the old session is judged and revoked by), the one the limit is enforced at, and the
      default of the new row's issue time. */
  datatype Clock = Clock(base: int, enforce: int, insert: int)

  function Login(table: Table, settings: Settings, user: int, token: int, client: Client, clock: Clock)
    : (Table, LoginResult)
  {
    if settings.maxActive < 1 then (table, LoginServerError)
    else if TokenInUse(table, token) then (table, LoginConflict)
    else
      (Enforce(table, user, settings.maxActive, clock.enforce)
       + [Some(NewSession(user, token, client, clock.insert, clock.base + settings.lifetime))],
       LoggedIn(|table|))
  }

  /** Two requests may come from the same client: what both name must agree. */
  predicate FingerprintMatches(s: Session, client: Client) {
    var agent := TruncatedAgent(client.userAgent);
    && !(Named(s.userAgent) && Named(agent) && s.userAgent != agent)
    && !(Named(s.ipAddress) && Named(client.ipAddress) && s.ipAddress != client.ipAddress)
  }

  predicate Named(text: Option<string>) {
    text.Some? && text.value != ""
  }

  /** The slot holding the token, the table's size if none does. */
  function Find(table: Table, token: int): (i: nat)
    ensures i <= |table|
    ensures i < |table| ==> HasToken(table[i], token)
    ensures i == |table| <==> !TokenInUse(table, token)
  {
    FindFrom(table, token, 0)
  }

  function FindFrom(table: Table, token: int, k: nat): (i: nat)
    requires k <= |table|
    ensures k <= i <= |table|
    ensures i < |table| ==> HasToken(table[i], token)
    ensures forall j :: k <= j < i ==> !HasToken(table[j], token)
    decreases |table| - k
  {
    if k == |table| || HasToken(table[k], token) then k else FindFrom(table, token, k + 1)
  }

  /** Within the grace period a replaced token still finds its live successor. */
  function Reuse(table: Table, activeUsers: set<int>, settings: Settings, token: int, client: Client, now: int)
    : Option<nat>
  {
    var i := Find(table, token);
    if settings.grace < 1 || i == |table| then None
    else
      var s := table[i].value;
      if s.revokedAt.None? || s.revokedAt.value < now - settings.grace * SECOND
         || s.replacedBy.None? || s.userId !in activeUsers || !FingerprintMatches(s, client)
      then None
      else
        var j := s.replacedBy.value;
        if j < |table| && IsLiveOf(table[j], s.userId, now) then Some(j) else None
  }

  function Rotate(table: Table, activeUsers: set<int>, settings: Settings, token: int, newToken: int,
                  client: Client, clock: Clock): (Table, RotateResult)
  {
    var i := Find(table, token);
    if i == |table| || !IsLive(table[i], clock.base) || table[i].value.userId !in activeUsers then
      match Reuse(table, activeUsers, settings, token, client, clock.base)
      case Some(j) => (table, Reused(j))
      case None => (table, InvalidToken)
    else if settings.maxActive < 1 then (table, ServerError)
    else if TokenInUse(table, newToken) then (table, Conflict)
    else
      var user := table[i].value.userId;
      var revoked := table[i := Revoked(table[i], clock.base)];
      var enforced := Enforce(revoked, user, settings.maxActive, clock.enforce);
      var linked := enforced[i := Some(enforced[i].value.(replacedBy := Some(|table|)))];
      (linked + [Some(NewSession(user, newToken, client, clock.insert, clock.base + settings.lifetime))],
       Rotated(|table|))
  }

  function Logout(table: Table, token: int, now: int): Table {
    var i := Find(table, token);
    if i < |table| && IsLive(table[i], now) then table[i := Revoked(table[i], now)] else table
  }

  /** Old sessions that are revoked or expired. */
  predicate IsStale(slot: Option<Session>, cutoff: int, now: int) {
    slot.Some? && slot.value.issuedAt < cutoff && (slot.value.revokedAt.Some? || slot.value.expiresAt < now)
  }

  /** Links to stale sessions are cleared before the stale sessions are deleted. */
  function Cleanup(table: Table, cutoff: int, now: int): (r: Table)
    ensures |r| == |table|
  {
    seq(|table|, i requires 0 <= i < |table| =>
      if table[i].None? || IsStale(table[i], cutoff, now) then None
      else
        var s := table[i].value;
        if s.replacedBy.Some? && s.replacedBy.value < |table|
           && IsStale(table[s.replacedBy.value], cutoff, now)
        then Some(s.(replacedBy := None)) else Some(s))
  }

  predicate IsUnrevokedOf(slot: Option<Session>, user: int) {
    slot.Some? && slot.value.userId == user && slot.value.revokedAt.None?
  }

  function RevokeUser(table: Table, user: int, now: int): (r: Table)
    ensures |r| == |table|
  {
    seq(|table|, i requires 0 <= i < |table| =>
      if IsUnrevokedOf(table[i], user) then Revoked(table[i], now) else table[i])
  }

  // ----- The service

  class UserService {
    const settings: Settings
    var sessions: Table
    var activeUsers: set<int>

    constructor (settings: Settings)
      ensures this.settings == settings && sessions == [] && activeUsers == {}
    {
      this.settings := settings;
      sessions, activeUsers := [], {};
    }

    method EnforceActiveSessionLimit(user: int, now: int) returns (ok: bool)
      modifies this`sessions
      ensures ok == (settings.maxActive >= 1)
      ensures sessions == if ok then Enforce(old(sessions), user, settings.maxActive, now) else old(sessions)
    {
      if settings.maxActive < 1 {
        return false;
      }
      ok := true;
      var active := ActiveSessions(sessions, user, now);
      var toRevoke := |active| - settings.maxActive + 1;
      if toRevoke <= 0 {
        return;
      }
      var victims := active[..toRevoke];
      assert victims == Victims(sessions, user, settings.maxActive, now);
      for k := 0 to toRevoke
        invariant AreSessions(sessions, victims)
        invariant RevokeAll(sessions, victims[k..], now) == Enforce(old(sessions), user, settings.maxActive, now)
      {
        assert victims[k..][1..] == victims[k + 1..];
        sessions := sessions[victims[k] := Revoked(sessions[victims[k]], now)];
      }
    }

    method CreateRefreshSession(user: int, token: int, client: Client, clock: Clock) returns (r: LoginResult)
      modifies this`sessions
      ensures (sessions, r) == Login(old(sessions), settings, user, token, client, clock)
    {
      var before := sessions;
      var ok := EnforceActiveSessionLimit(user, clock.enforce);
      if !ok {
        return LoginServerError;
      }
      var session := NewSession(user, token, client, clock.insert, clock.base + settings.lifetime);
      if TokenInUse(before, token) {
        sessions := before;
        return LoginConflict;
      }
      sessions := sessions + [Some(session)];
      return LoggedIn(|sessions| - 1);
    }

    method RotateRefreshSession(token: int, newToken: int, client: Client, clock: Clock) returns (r: RotateResult)
      modifies this`sessions
      ensures (sessions, r) == Rotate(old(sessions), activeUsers, settings, token, newToken, client, clock)
    {
      var before := sessions;
      var i := Find(sessions, token);
      if i == |sessions| || !IsLive(sessions[i], clock.base) || sessions[i].value.userId !in activeUsers {
        var reused := Reuse(sessions, activeUsers, settings, token, client, clock.base);
        if reused.Some? {
          return Reused(reused.value);
        }
        return InvalidToken;
      }
      var user := sessions[i].value.userId;
      sessions := sessions[i := Revoked(sessions[i], clock.base)];
      var ok := EnforceActiveSessionLimit(user, clock.enforce);
      if !ok {
        sessions := before;
        return ServerError;
      }
      if TokenInUse(before, newToken) {
        sessions := before;
        return Conflict;
      }
      var newId := |sessions|;
      var session := NewSession(user, newToken, client, clock.insert, clock.base + settings.lifetime);
      sessions := sessions[i := Some(sessions[i].value.(replacedBy := Some(newId)))];
      sessions := sessions + [Some(session)];
      return Rotated(newId);
    }

    method RevokeRefreshSession(token: int, now: int)
      modifies this`sessions
      ensures sessions == Logout(old(sessions), token, now)
    {
      var i := Find(sessions, token);
      if i == |sessions| || !IsLive(sessions[i], now) {
        return;
      }
      sessions := sessions[i := Revoked(sessions[i], now)];
    }

    method DeleteStaleSessions(retentionDays: int, now: int)
      modifies this`sessions
      ensures sessions == Cleanup(old(sessions), now - retentionDays * 86_400_000_000, now)
    {
      sessions := Cleanup(sessions, now - retentionDays * 86400 * SECOND, now);
    }

    /** No session of the user is left unrevoked, sessions revoked earlier keep their time, and
        neither the sessions nor the standing of other users change. */
    method DeactivateUser(user: int, now: int)
      modifies this
      ensures sessions == RevokeUser(old(sessions), user, now)
      ensures |sessions| == |old(sessions)|
      ensures forall i :: 0 <= i < |sessions| && sessions[i].Some? && sessions[i].value.userId == user ==>
                sessions[i].value.revokedAt.Some?
      ensures forall i :: 0 <= i < |sessions| ==>
                sessions[i] == old(sessions)[i]
                || (IsUnrevokedOf(old(sessions)[i], user) && sessions[i] == Revoked(old(sessions)[i], now))
      ensures user !in activeUsers && forall u :: u != user ==> (u in activeUsers <==> u in old(activeUsers))
    {
      activeUsers := activeUsers - {user};
      sessions := RevokeUser(sessions, user, now);
    }

    method ReactivateUser(user: int)
      modifies this`activeUsers
      ensures activeUsers == old(activeUsers) + {user}
    {
      activeUsers := activeUsers + {user};
    }
  }
}
