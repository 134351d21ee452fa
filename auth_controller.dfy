/** The authentication controller (services/portal/src/controllers/authController.js):
    the request handlers that drive a session through its lifecycle — pending on
    request, active once the ad is watched, expired on a lapsed status check or a
    disconnect — over the database, the cache and the network access server. */
module AuthController {
  import opened Wrappers
  import opened Schema
  import opened MacValidator
  import opened DeviceDetector
  import opened Sessions
  import opened AdImpressions

  /** Cache entries live for one hour. */
  const CacheTtlMs: int := 3600 * SecondMs
  /** The RADIUS attributes a new user gets. */
  const SimultaneousUse: int := 1
  const SessionTimeoutSeconds: int := SessionMinutes * 60
  const IdleTimeoutSeconds: int := 300

  /** The successful replies of the handlers. */
  datatype SessionReply = SessionReply(sessionId: string, message: string)
  datatype Credentials = Credentials(username: string, password: string, message: string)
  datatype StatusReport = StatusReport(status: Status, remainingTime: Option<int>, message: string)

  function StatusName(s: Status): string
  {
    match s
    case Pending => "pending"
    case Active => "active"
    case Expired => "expired"
    case Terminated => "terminated"
  }

  // ---------------------------------------------------------------- username

  /** `mac.replace(/:/g, '')`: the RADIUS user name of a MAC. */
  function RadiusUserName(mac: string): (username: string)
    ensures |username| <= |mac|
    ensures forall c :: c in username <==> c in mac && c != ':'
  {
    if mac == [] then []
    else
      assert mac == [mac[0]] + mac[1..];
      (if mac[0] == ':' then [] else [mac[0]]) + RadiusUserName(mac[1..])
  }

  /** Removing the colons works character by character: the user name of a
      concatenation is the concatenation of the user names ... */
  lemma {:induction false} UserNameConcat(a: string, b: string)
    ensures RadiusUserName(a + b) == RadiusUserName(a) + RadiusUserName(b)
  {
    if a == [] {
      assert a + b == b;
    } else {
      assert (a + b)[0] == a[0] && (a + b)[1..] == a[1..] + b;
      UserNameConcat(a[1..], b);
    }
  }

  /** ... and a single character is dropped if it is a colon and kept otherwise. */
  lemma UserNameOfChar(c: char)
    ensures RadiusUserName([c]) == if c == ':' then [] else [c]
  {
    assert [c][1..] == [];
  }

  /** Without dashes, removing the colons is removing all delimiters. */
  lemma {:induction false} UserNameStripsDelimiters(mac: string)
    requires forall i :: 0 <= i < |mac| ==> mac[i] != '-'
    ensures RadiusUserName(mac) == StripDelimiters(mac)
  {
    if mac != [] {
      UserNameStripsDelimiters(mac[1..]);
    }
  }

  /** The user name of a normalised MAC is its twelve lower-case hex digits, and
      pairing those digits up gives the MAC back: distinct normalised MACs get
      distinct user names. */
  lemma UserNameOfNormalMAC(mac: string)
    requires IsNormalMAC(mac)
    ensures |RadiusUserName(mac)| == 12 && AllLowerHex(RadiusUserName(mac))
    ensures PairUp(RadiusUserName(mac)) == mac
  {
    NormalHasNoDash(mac);
    UserNameStripsDelimiters(mac);
    NormalizeFixesNormalForm(mac);
    ValidDigits(mac);
    PairUpStripped(mac, 5);
  }

  /** The stored MAC is the one the client sent, so a dash-delimited MAC keeps its
      dashes in the user name. */
  lemma DashedUserName()
    ensures ValidateMAC(Some("aa-bb-cc-dd-ee-ff"))
    ensures RadiusUserName("aa-bb-cc-dd-ee-ff") == "aa-bb-cc-dd-ee-ff"
  {
    assert MatchesDelimited("aa-bb-cc-dd-ee-ff") by {
      DelimitedPairsShape("aa-bb-cc-dd-ee-ff", 5);
    }
    assert RadiusUserName("aa-bb-cc-dd-ee-ff") == "aa-bb-cc-dd-ee-ff" by {
      assert ':' !in "aa-bb-cc-dd-ee-ff";
      NoColonUserName("aa-bb-cc-dd-ee-ff");
    }
  }

  lemma {:induction false} NoColonUserName(mac: string)
    requires ':' !in mac
    ensures RadiusUserName(mac) == mac
  {
    if mac != [] {
      assert mac == [mac[0]] + mac[1..];
      NoColonUserName(mac[1..]);
    }
  }

  // ---------------------------------------------------------------- store helpers

  /** The row requestAuth inserts: pending, no start or end yet, no usage. */
  function PendingRow(id: string, mac: string, ip: string, parsed: UaResult, userAgent: string): SessionRow
  {
    SessionRow(id, mac, ip, GetDeviceType(parsed), userAgent, None, None, 0, Pending)
  }

  /** The cache entry requestAuth stores. */
  function PendingEntry(id: string, mac: string, ip: string, parsed: UaResult, userAgent: string, now: int): CachedSession
  {
    CachedSession(id, mac, ip, GetDeviceType(parsed), userAgent, Pending, now, None, None, None)
  }

  /** The cache entry completeAuth stores back. */
  function ActivatedEntry(session: CachedSession, username: string, password: string, now: int): CachedSession
  {
    session.(status := Active, username := Some(username), password := Some(password), authenticatedAt := Some(now))
  }

  /** Every session the cache holds has its row in the database. */
  predicate CachedHaveRows(rows: seq<SessionRow>, sessionKeys: map<string, Expiring<CachedSession>>)
  {
    forall id :: id in sessionKeys ==> HasId(rows, id)
  }

  /** Session ids are unique in the table. */
  predicate UniqueIds(rows: seq<SessionRow>)
  {
    forall i, j :: 0 <= i < j < |rows| ==> rows[i].id != rows[j].id
  }

  lemma UpdateKeepsIds(rows: seq<SessionRow>, id: string, u: SessionUpdate, other: string)
    ensures HasId(UpdateById(rows, id, u), other) <==> HasId(rows, other)
    ensures UniqueIds(rows) ==> UniqueIds(UpdateById(rows, id, u))
  {
    var updated := UpdateById(rows, id, u);
    assert forall i :: 0 <= i < |rows| ==> updated[i].id == rows[i].id;
    if HasId(rows, other) {
      var i :| 0 <= i < |rows| && rows[i].id == other;
      assert updated[i].id == other;
    }
  }

  /** No single-row update leaves an active row without a start: activation sets
      the start, and every other update either ends the session or keeps both. */
  lemma UpdateKeepsStarted(rows: seq<SessionRow>, id: string, u: SessionUpdate)
    ensures ActiveRowsStarted(rows) ==> ActiveRowsStarted(UpdateById(rows, id, u))
  {
    var updated := UpdateById(rows, id, u);
    if ActiveRowsStarted(rows) {
      forall i | 0 <= i < |updated| && updated[i].status == Active
        ensures updated[i].sessionStart.Some?
      {
        if rows[i].id == id {
          match u
          case MarkActive(at) =>
          case MarkExpired(at) =>
          case MarkTerminated(at) =>
          case AddDataUsage(mb) =>
        }
      }
    }
  }

  /** The periodic sweep rewrites rows in place: it keeps every id, so it keeps both
      store invariants. It does not touch the cache, whose entries may so go on
      saying `active` for a row the sweep expired. */
  lemma SweepKeepsStoreInvariants(rows: seq<SessionRow>, sessionKeys: map<string, Expiring<CachedSession>>, now: int)
    ensures CachedHaveRows(rows, sessionKeys) ==> CachedHaveRows(Sweep(rows, now), sessionKeys)
    ensures UniqueIds(rows) ==> UniqueIds(Sweep(rows, now))
    ensures ActiveRowsStarted(rows) ==> ActiveRowsStarted(Sweep(rows, now))
  {
    if ActiveRowsStarted(rows) {
      SweepLeavesOnlyFresh(rows, now);
    }
    var swept := Sweep(rows, now);
    assert forall i :: 0 <= i < |rows| ==> swept[i].id == rows[i].id;
    if CachedHaveRows(rows, sessionKeys) {
      forall id | id in sessionKeys
        ensures HasId(swept, id)
      {
        var i :| 0 <= i < |rows| && rows[i].id == id;
        assert swept[i].id == id;
      }
    }
  }

  /** storeSessionInRedis: the session under its id and the id under the MAC, both
      for one hour. */
  method StoreSessionInRedis(cache: Cache, sessionId: string, data: CachedSession, now: int)
    modifies cache
    ensures cache.sessionKeys == old(cache.sessionKeys)[sessionId := Expiring(data, now + CacheTtlMs)]
    ensures cache.macKeys == old(cache.macKeys)[data.macAddress := Expiring(sessionId, now + CacheTtlMs)]
    ensures forall n :: now <= n < now + CacheTtlMs ==> cache.Lookup(sessionId, n) == Some(data)
    ensures cache.Lookup(sessionId, now + CacheTtlMs).None?
    ensures forall other, n :: other != sessionId ==> cache.Lookup(other, n) == old(cache.Lookup(other, n))
  {
    cache.sessionKeys := cache.sessionKeys[sessionId := Expiring(data, now + CacheTtlMs)];
    cache.macKeys := cache.macKeys[data.macAddress := Expiring(sessionId, now + CacheTtlMs)];
  }

  /** A session stored at `t` is found by getSessionFromRedis for the whole hour of
      its TTL, and so for the whole fifteen minutes of the session it describes. */
  lemma StoredSessionOutlivesSession(cache: Cache, sessionId: string, data: CachedSession, t: int)
    requires sessionId in cache.sessionKeys && cache.sessionKeys[sessionId] == Expiring(data, t + CacheTtlMs)
    ensures SessionMs < CacheTtlMs
    ensures forall n :: t <= n < t + SessionMs ==> cache.Lookup(sessionId, n) == Some(data)
  {
  }

  /** checkActiveSession: the freshest active row of the MAC started within the
      session length, or none. */
  function CheckActiveSession(db: Database, mac: string, now: int): (found: Option<SessionRow>)
    reads db
    ensures found.None? <==> forall r :: r in db.userSessions ==> !IsCandidate(r, mac, now)
    ensures found.Some? ==> found.value in db.userSessions && found.value.macAddress == mac
                            && found.value.status == Active && IsFresh(found.value, now)
    ensures found.Some? ==>
              forall r :: r in db.userSessions && IsCandidate(r, mac, now) ==> StartOf(r) <= StartOf(found.value)
  {
    FindActive(db.userSessions, mac, now)
  }

  /** checkActiveSession as written: the result is unpacked a second time, so
      `rows[0] || null` throws when the MAC has no fresh active row and is null
      when it has one. */
  function CheckActiveSessionAsWritten(db: Database, mac: string, now: int): (found: Result<Option<SessionRow>, Fault>)
    reads db
    ensures found.Err? <==> forall r :: r in db.userSessions ==> !IsCandidate(r, mac, now)
    ensures found.Ok? ==> found.value.None?
  {
    IndexZero(SecondUnpack(LatestFreshRows(db.userSessions, mac, now)))
  }

  /** As written, checkActiveSession throws exactly where the intended one finds
      nothing, and finds nothing exactly where the intended one finds a session. */
  lemma CheckActiveSessionAsWrittenMisses(db: Database, mac: string, now: int)
    ensures CheckActiveSession(db, mac, now).None? <==> CheckActiveSessionAsWritten(db, mac, now).Err?
    ensures CheckActiveSession(db, mac, now).Some? <==> CheckActiveSessionAsWritten(db, mac, now) == Ok(None)
  {
  }

  /** expireSession: the row becomes expired, ended now, and the cache forgets the
      session (its MAC entry stays). */
  method ExpireSession(db: Database, cache: Cache, sessionId: string, now: int)
    modifies db, cache
    ensures db.userSessions == UpdateById(old(db.userSessions), sessionId, MarkExpired(now))
    ensures db.adImpressions == old(db.adImpressions) && db.radiusAccounts == old(db.radiusAccounts)
    ensures cache.sessionKeys == old(cache.sessionKeys) - {sessionId}
    ensures cache.macKeys == old(cache.macKeys)
    ensures CachedHaveRows(old(db.userSessions), old(cache.sessionKeys)) ==> CachedHaveRows(db.userSessions, cache.sessionKeys)
    ensures UniqueIds(old(db.userSessions)) ==> UniqueIds(db.userSessions)
    ensures ActiveRowsStarted(old(db.userSessions)) ==> ActiveRowsStarted(db.userSessions)
  {
    ghost var before := db.userSessions;
    db.userSessions := UpdateById(db.userSessions, sessionId, MarkExpired(now));
    cache.sessionKeys := cache.sessionKeys - {sessionId};
    forall id | id in cache.sessionKeys
      ensures HasId(before, id) ==> HasId(db.userSessions, id)
    {
      UpdateKeepsIds(before, sessionId, MarkExpired(now), id);
    }
    UpdateKeepsIds(before, sessionId, MarkExpired(now), sessionId);
    UpdateKeepsStarted(before, sessionId, MarkExpired(now));
  }

  // ---------------------------------------------------------------- handlers

  /** The creating half of requestAuth: the pending row and the pending cache
      entry; a taken id makes the INSERT fail, which the handler answers with 500. */
  method CreateSession(db: Database, cache: Cache, mac: string, ip: string, userAgent: string,
                       parsed: UaResult, newId: string, now: int)
    returns (reply: Result<SessionReply, HttpError>)
    modifies db, cache
    ensures HasId(old(db.userSessions), newId) ==>
              reply == Err(HttpError(500, "Failed to create session")) && unchanged(db, cache)
    ensures !HasId(old(db.userSessions), newId) ==>
              reply == Ok(SessionReply(newId, "Session created successfully"))
              && db.userSessions == old(db.userSessions) + [PendingRow(newId, mac, ip, parsed, userAgent)]
              && db.adImpressions == old(db.adImpressions) && db.radiusAccounts == old(db.radiusAccounts)
              && cache.sessionKeys == old(cache.sessionKeys)[newId := Expiring(PendingEntry(newId, mac, ip, parsed, userAgent, now), now + CacheTtlMs)]
              && cache.macKeys == old(cache.macKeys)[mac := Expiring(newId, now + CacheTtlMs)]
              && cache.Lookup(newId, now) == Some(PendingEntry(newId, mac, ip, parsed, userAgent, now))
    ensures CachedHaveRows(old(db.userSessions), old(cache.sessionKeys)) ==> CachedHaveRows(db.userSessions, cache.sessionKeys)
    ensures UniqueIds(old(db.userSessions)) ==> UniqueIds(db.userSessions)
    ensures ActiveRowsStarted(old(db.userSessions)) ==> ActiveRowsStarted(db.userSessions)
  {
    if HasId(db.userSessions, newId) {
      // the INSERT violates the primary key and the handler answers 500
      return Err(HttpError(500, "Failed to create session"));
    }
    ghost var before := db.userSessions;
    var row := PendingRow(newId, mac, ip, parsed, userAgent);
    db.userSessions := db.userSessions + [row];
    StoreSessionInRedis(cache, newId, PendingEntry(newId, mac, ip, parsed, userAgent, now), now);
    assert db.userSessions[|before|].id == newId;
    assert forall i :: 0 <= i < |before| ==> db.userSessions[i] == before[i];
    reply := Ok(SessionReply(newId, "Session created successfully"));
  }

  /** requestAuth: rejects an invalid MAC; returns the MAC's live session if it has
      one; otherwise creates a pending session in the database and the cache. */
  method RequestAuth(db: Database, cache: Cache, mac: Option<string>, ip: string, userAgent: string,
                     parsed: UaResult, newId: string, now: int)
    returns (reply: Result<SessionReply, HttpError>)
    modifies db, cache
    ensures !ValidateMAC(mac) ==>
              reply == Err(HttpError(400, "Invalid MAC address")) && unchanged(db, cache)
    ensures ValidateMAC(mac) && FindActive(old(db.userSessions), mac.value, now).Some? ==>
              reply == Ok(SessionReply(FindActive(old(db.userSessions), mac.value, now).value.id, "Active session exists"))
              && unchanged(db, cache)
    ensures ValidateMAC(mac) && FindActive(old(db.userSessions), mac.value, now).None? && HasId(old(db.userSessions), newId) ==>
              reply == Err(HttpError(500, "Failed to create session")) && unchanged(db, cache)
    ensures ValidateMAC(mac) && FindActive(old(db.userSessions), mac.value, now).None? && !HasId(old(db.userSessions), newId) ==>
              reply == Ok(SessionReply(newId, "Session created successfully"))
              && db.userSessions == old(db.userSessions) + [PendingRow(newId, mac.value, ip, parsed, userAgent)]
              && db.adImpressions == old(db.adImpressions) && db.radiusAccounts == old(db.radiusAccounts)
              && cache.sessionKeys == old(cache.sessionKeys)[newId := Expiring(PendingEntry(newId, mac.value, ip, parsed, userAgent, now), now + CacheTtlMs)]
              && cache.macKeys == old(cache.macKeys)[mac.value := Expiring(newId, now + CacheTtlMs)]
    ensures reply.Ok? ==> cache.Lookup(reply.value.sessionId, now).Some? || HasId(old(db.userSessions), reply.value.sessionId)
    ensures CachedHaveRows(old(db.userSessions), old(cache.sessionKeys)) ==> CachedHaveRows(db.userSessions, cache.sessionKeys)
    ensures UniqueIds(old(db.userSessions)) ==> UniqueIds(db.userSessions)
    ensures ActiveRowsStarted(old(db.userSessions)) ==> ActiveRowsStarted(db.userSessions)
  {
    if !ValidateMAC(mac) {
      return Err(HttpError(400, "Invalid MAC address"));
    }
    var existing := CheckActiveSession(db, mac.value, now);
    if existing.Some? {
      return Ok(SessionReply(existing.value.id, "Active session exists"));
    }
    reply := CreateSession(db, cache, mac.value, ip, userAgent, parsed, newId, now);
  }

  /** requestAuth as written, over checkActiveSession as written: a valid MAC with
      no live session makes the check throw, and the handler answers 500 having
      written nothing; a valid MAC with a live session is not recognised, and a
      second pending session is created beside the live one. */
  method RequestAuthAsWritten(db: Database, cache: Cache, mac: Option<string>, ip: string, userAgent: string,
                              parsed: UaResult, newId: string, now: int)
    returns (reply: Result<SessionReply, HttpError>)
    modifies db, cache
    ensures !ValidateMAC(mac) ==>
              reply == Err(HttpError(400, "Invalid MAC address")) && unchanged(db, cache)
    ensures ValidateMAC(mac) && FindActive(old(db.userSessions), mac.value, now).None? ==>
              reply == Err(HttpError(500, "Failed to create session")) && unchanged(db, cache)
    ensures ValidateMAC(mac) && FindActive(old(db.userSessions), mac.value, now).Some? && HasId(old(db.userSessions), newId) ==>
              reply == Err(HttpError(500, "Failed to create session")) && unchanged(db, cache)
    ensures ValidateMAC(mac) && FindActive(old(db.userSessions), mac.value, now).Some? && !HasId(old(db.userSessions), newId) ==>
              reply == Ok(SessionReply(newId, "Session created successfully"))
              && db.userSessions == old(db.userSessions) + [PendingRow(newId, mac.value, ip, parsed, userAgent)]
              && FindActive(old(db.userSessions), mac.value, now).value in db.userSessions
              && cache.macKeys == old(cache.macKeys)[mac.value := Expiring(newId, now + CacheTtlMs)]
    ensures CachedHaveRows(old(db.userSessions), old(cache.sessionKeys)) ==> CachedHaveRows(db.userSessions, cache.sessionKeys)
    ensures UniqueIds(old(db.userSessions)) ==> UniqueIds(db.userSessions)
    ensures ActiveRowsStarted(old(db.userSessions)) ==> ActiveRowsStarted(db.userSessions)
  {
    if !ValidateMAC(mac) {
      return Err(HttpError(400, "Invalid MAC address"));
    }
    var existing := CheckActiveSessionAsWritten(db, mac.value, now);
    if existing.Err? {
      // the TypeError lands in the handler's catch
      return Err(HttpError(500, "Failed to create session"));
    }
    // as written the check never yields a session, so the handler goes on to create one
    reply := CreateSession(db, cache, mac.value, ip, userAgent, parsed, newId, now);
  }

  /** Whether a completeAuth request carries a session id and a completion flag. */
  predicate WellFormedCompletion(sessionId: Option<string>, completed: bool)
  {
    sessionId.Some? && sessionId.value != "" && completed
  }

  /** completeAuth: checks the request, the cached session and the watch gate; then
      records the watch, provisions the RADIUS user, activates the session in the
      database and the cache, and asks the access server to let the device in. A
      failed CoA is only logged. */
  method CompleteAuth(db: Database, cache: Cache, nas: NasClient, sessionId: Option<string>, adId: int,
                      watchedDuration: real, completed: bool, password: string, coaDelivered: bool, now: int)
    returns (reply: Result<Credentials, HttpError>)
    modifies db, cache, nas
    ensures !WellFormedCompletion(sessionId, completed) ==>
              reply == Err(HttpError(400, "Invalid request")) && unchanged(db, cache, nas)
    ensures WellFormedCompletion(sessionId, completed) && old(cache.Lookup(sessionId.value, now)).None? ==>
              reply == Err(HttpError(404, "Session not found")) && unchanged(db, cache, nas)
    ensures WellFormedCompletion(sessionId, completed) && old(cache.Lookup(sessionId.value, now)).Some?
            && !WatchedEnough(watchedDuration) ==>
              reply == Err(HttpError(400, "Please watch the complete ad")) && unchanged(db, cache, nas)
    ensures reply.Ok? <==> WellFormedCompletion(sessionId, completed) && old(cache.Lookup(sessionId.value, now)).Some?
                           && WatchedEnough(watchedDuration)
    ensures reply.Ok? ==>
              var id := sessionId.value;
              var session := old(cache.Lookup(id, now)).value;
              var username := RadiusUserName(session.macAddress);
              reply.value == Credentials(username, password, "Authentication successful")
              && db.adImpressions == RecordWatch(old(db.adImpressions), BySessionAd(id, adId), ColumnSeconds(watchedDuration), true)
              && db.radiusAccounts == old(db.radiusAccounts)[username :=
                   RadiusAccount(password, SimultaneousUse, SessionTimeoutSeconds, IdleTimeoutSeconds)]
              && db.userSessions == UpdateById(old(db.userSessions), id, MarkActive(now))
              && cache.sessionKeys == old(cache.sessionKeys)[id := Expiring(ActivatedEntry(session, username, password, now), now + CacheTtlMs)]
              && cache.macKeys == old(cache.macKeys)[session.macAddress := Expiring(id, now + CacheTtlMs)]
              && nas.sent == old(nas.sent) + [(CoA(username, session.ipAddress, SessionTimeoutSeconds), coaDelivered)]
    ensures reply.Ok? ==>
              cache.Lookup(sessionId.value, now).Some? && cache.Lookup(sessionId.value, now).value.status == Active
              && forall i :: 0 <= i < |db.userSessions| && db.userSessions[i].id == sessionId.value ==>
                   db.userSessions[i].status == Active && db.userSessions[i].sessionStart == Some(now)
    ensures CachedHaveRows(old(db.userSessions), old(cache.sessionKeys)) ==> CachedHaveRows(db.userSessions, cache.sessionKeys)
    ensures UniqueIds(old(db.userSessions)) ==> UniqueIds(db.userSessions)
    ensures ActiveRowsStarted(old(db.userSessions)) ==> ActiveRowsStarted(db.userSessions)
  {
    if !WellFormedCompletion(sessionId, completed) {
      return Err(HttpError(400, "Invalid request"));
    }
    var id := sessionId.value;
    var found := cache.Lookup(id, now);
    if found.None? {
      return Err(HttpError(404, "Session not found"));
    }
    if !WatchedEnough(watchedDuration) {
      return Err(HttpError(400, "Please watch the complete ad"));
    }
    var session := found.value;
    db.adImpressions := RecordWatch(db.adImpressions, BySessionAd(id, adId), ColumnSeconds(watchedDuration), completed);
    var username := RadiusUserName(session.macAddress);
    db.radiusAccounts := db.radiusAccounts[username :=
      RadiusAccount(password, SimultaneousUse, SessionTimeoutSeconds, IdleTimeoutSeconds)];
    ghost var before := db.userSessions;
    db.userSessions := UpdateById(db.userSessions, id, MarkActive(now));
    UpdateKeepsIds(before, id, MarkActive(now), id);
    UpdateKeepsStarted(before, id, MarkActive(now));
    forall other | other in cache.sessionKeys
      ensures HasId(before, other) ==> HasId(db.userSessions, other)
    {
      UpdateKeepsIds(before, id, MarkActive(now), other);
    }
    StoreSessionInRedis(cache, id, ActivatedEntry(session, username, password, now), now);
    nas.Send(CoA(username, session.ipAddress, SessionTimeoutSeconds), coaDelivered);
    reply := Ok(Credentials(username, password, "Authentication successful"));
  }

  /** `Math.ceil(ms / 1000)` for a positive number of milliseconds. */
  function CeilSeconds(ms: int): (seconds: int)
    requires ms > 0
    ensures seconds >= 1
    ensures 1000 * (seconds - 1) < ms <= 1000 * seconds
  {
    (ms + 999) / 1000
  }

  /** The milliseconds a cached active session has left, measured from its
      authentication; `None` when it carries no authentication time (the source
      computes NaN). */
  function RemainingMs(session: CachedSession, now: int): Option<int>
  {
    if session.authenticatedAt.Some? then Some(SessionMs - (now - session.authenticatedAt.value)) else None
  }

  /** Whether checkStatus finds an active session lapsed. */
  predicate Lapsed(session: CachedSession, now: int)
  {
    session.status == Active && RemainingMs(session, now).Some? && RemainingMs(session, now).value <= 0
  }

  /** What checkStatus reports for a cached session. */
  function Report(session: CachedSession, now: int): (report: StatusReport)
    ensures Lapsed(session, now) ==> report == StatusReport(Expired, None, "Session has expired")
    ensures session.status == Active && !Lapsed(session, now) ==>
              report.status == Active && report.message == "Session is active"
              && (report.remainingTime.Some? <==> session.authenticatedAt.Some?)
              && (report.remainingTime.Some? ==>
                    var left := RemainingMs(session, now).value;
                    report.remainingTime.value >= 1
                    && 1000 * (report.remainingTime.value - 1) < left <= 1000 * report.remainingTime.value)
    ensures session.status != Active ==>
              report == StatusReport(session.status, None, "Session status: " + StatusName(session.status))
  {
    if session.status == Active then
      match RemainingMs(session, now)
      case None => StatusReport(Active, None, "Session is active")
      case Some(left) =>
        if left <= 0 then StatusReport(Expired, None, "Session has expired")
        else StatusReport(Active, Some(CeilSeconds(left)), "Session is active")
    else StatusReport(session.status, None, "Session status: " + StatusName(session.status))
  }

  /** Within the session length after authentication, checkStatus reports between
      1 and 900 seconds left; from then on it reports the session lapsed. */
  lemma ReportWithinSession(session: CachedSession, t: int, now: int)
    requires session.status == Active && session.authenticatedAt == Some(t) && t <= now
    ensures now < t + SessionMs ==>
              Report(session, now).status == Active
              && Report(session, now).remainingTime.Some?
              && 1 <= Report(session, now).remainingTime.value <= SessionTimeoutSeconds
    ensures now >= t + SessionMs <==> Lapsed(session, now)
  {
  }

  /** The lazy expiry of checkStatus measures from the cached `authenticated_at`
      (`t`, the portal's clock) and the periodic sweep from the row's `session_start`
      (`s`, the database clock). Each instant is lapsed for one exactly when it is
      stale for the other, except in the window between the two deadlines; the
      later stamp decides which side lags. With equal stamps they always agree. */
  lemma LazyExpiryAgreesWithSweep(row: SessionRow, session: CachedSession, s: int, t: int, now: int)
    requires row.status == Active && row.sessionStart == Some(s)
    requires session.status == Active && session.authenticatedAt == Some(t)
    ensures Lapsed(session, now) != IsStale(row, now) <==>
              (if s <= t then s else t) + SessionMs <= now < (if s <= t then t else s) + SessionMs
    ensures s <= t && Lapsed(session, now) ==> IsStale(row, now)
    ensures t <= s && IsStale(row, now) ==> Lapsed(session, now)
    ensures s == t ==> (Lapsed(session, now) <==> IsStale(row, now)) && (!Lapsed(session, now) <==> IsFresh(row, now))
  {
  }

  /** checkStatus: 404 for an unknown session; an active session past its length is
      expired on the spot; otherwise the status as the cache holds it. */
  method CheckStatus(db: Database, cache: Cache, sessionId: string, now: int)
    returns (reply: Result<StatusReport, HttpError>)
    modifies db, cache
    ensures old(cache.Lookup(sessionId, now)).None? ==>
              reply == Err(HttpError(404, "Session not found")) && unchanged(db, cache)
    ensures old(cache.Lookup(sessionId, now)).Some? ==>
              var session := old(cache.Lookup(sessionId, now)).value;
              reply == Ok(Report(session, now))
              && (Lapsed(session, now) ==>
                    db.userSessions == UpdateById(old(db.userSessions), sessionId, MarkExpired(now))
                    && cache.sessionKeys == old(cache.sessionKeys) - {sessionId}
                    && cache.macKeys == old(cache.macKeys)
                    && db.adImpressions == old(db.adImpressions) && db.radiusAccounts == old(db.radiusAccounts))
              && (!Lapsed(session, now) ==> unchanged(db, cache))
    ensures CachedHaveRows(old(db.userSessions), old(cache.sessionKeys)) ==> CachedHaveRows(db.userSessions, cache.sessionKeys)
    ensures UniqueIds(old(db.userSessions)) ==> UniqueIds(db.userSessions)
    ensures ActiveRowsStarted(old(db.userSessions)) ==> ActiveRowsStarted(db.userSessions)
  {
    var found := cache.Lookup(sessionId, now);
    if found.None? {
      return Err(HttpError(404, "Session not found"));
    }
    var session := found.value;
    if Lapsed(session, now) {
      ExpireSession(db, cache, sessionId, now);
    }
    reply := Ok(Report(session, now));
  }

  /** disconnect: 404 for an unknown session; otherwise asks the access server to
      drop the device and expires the session, whether or not the request got
      through. */
  method Disconnect(db: Database, cache: Cache, nas: NasClient, sessionId: string, delivered: bool, now: int)
    returns (reply: Result<string, HttpError>)
    modifies db, cache, nas
    ensures old(cache.Lookup(sessionId, now)).None? ==>
              reply == Err(HttpError(404, "Session not found")) && unchanged(db, cache, nas)
    ensures old(cache.Lookup(sessionId, now)).Some? ==>
              var session := old(cache.Lookup(sessionId, now)).value;
              reply == Ok("Disconnected successfully")
              && nas.sent == old(nas.sent) + [(NasRequest.Disconnect(RadiusUserName(session.macAddress)), delivered)]
              && db.userSessions == UpdateById(old(db.userSessions), sessionId, MarkExpired(now))
              && db.adImpressions == old(db.adImpressions) && db.radiusAccounts == old(db.radiusAccounts)
              && cache.sessionKeys == old(cache.sessionKeys) - {sessionId}
              && cache.macKeys == old(cache.macKeys)
    ensures reply.Ok? ==>
              cache.Lookup(sessionId, now).None?
              && forall i :: 0 <= i < |db.userSessions| && db.userSessions[i].id == sessionId ==>
                   db.userSessions[i].status == Expired && db.userSessions[i].sessionEnd == Some(now)
    ensures CachedHaveRows(old(db.userSessions), old(cache.sessionKeys)) ==> CachedHaveRows(db.userSessions, cache.sessionKeys)
    ensures UniqueIds(old(db.userSessions)) ==> UniqueIds(db.userSessions)
    ensures ActiveRowsStarted(old(db.userSessions)) ==> ActiveRowsStarted(db.userSessions)
  {
    var found := cache.Lookup(sessionId, now);
    if found.None? {
      return Err(HttpError(404, "Session not found"));
    }
    nas.Send(NasRequest.Disconnect(RadiusUserName(found.value.macAddress)), delivered);
    ExpireSession(db, cache, sessionId, now);
    reply := Ok("Disconnected successfully");
  }
}
