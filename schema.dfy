/** The stores the portal works against: the `user_sessions`, `ad_impressions`,
    `radcheck`/`radreply` tables of the relational database, the `session:<id>`
    and `mac:<mac>` keys of the cache, and the outbound requests to the network
    access server. Times are integer milliseconds. */
module Schema {
  import opened Wrappers

  const SecondMs: int := 1000
  const MinuteMs: int := 60 * SecondMs
  const HourMs: int := 60 * MinuteMs
  const DayMs: int := 24 * HourMs

  /** The `status` column of `user_sessions`. */
  datatype Status = Pending | Active | Expired | Terminated

  /** One `user_sessions` row. */
  datatype SessionRow = SessionRow(
    id: string,
    macAddress: string,
    ipAddress: string,
    deviceType: string,
    userAgent: string,
    sessionStart: Option<int>,
    sessionEnd: Option<int>,
    dataUsedMb: int,
    status: Status)

  /** The single-row updates the portal issues against `user_sessions` by id. */
  datatype SessionUpdate =
    | MarkActive(at: int)        // SET status = 'active', session_start = NOW()
    | MarkExpired(at: int)       // SET status = 'expired', session_end = NOW()
    | MarkTerminated(at: int)    // SET status = 'terminated', session_end = NOW()
    | AddDataUsage(mb: int)      // SET data_used_mb = data_used_mb + ?

  function ApplyUpdate(row: SessionRow, u: SessionUpdate): SessionRow
  {
    match u
    case MarkActive(at) => row.(status := Active, sessionStart := Some(at))
    case MarkExpired(at) => row.(status := Expired, sessionEnd := Some(at))
    case MarkTerminated(at) => row.(status := Terminated, sessionEnd := Some(at))
    case AddDataUsage(mb) => row.(dataUsedMb := row.dataUsedMb + mb)
  }

  /** `UPDATE user_sessions SET … WHERE id = ?`: every row with that id, and no other. */
  function UpdateById(rows: seq<SessionRow>, id: string, u: SessionUpdate): (updated: seq<SessionRow>)
    ensures |updated| == |rows|
    ensures forall i :: 0 <= i < |rows| ==>
              updated[i] == if rows[i].id == id then ApplyUpdate(rows[i], u) else rows[i]
  {
    seq(|rows|, i requires 0 <= i < |rows| => if rows[i].id == id then ApplyUpdate(rows[i], u) else rows[i])
  }

  predicate HasId(rows: seq<SessionRow>, id: string)
  {
    exists i :: 0 <= i < |rows| && rows[i].id == id
  }

  /** What a call site throws when it reads a property of `undefined` or calls
      something that is not a function. */
  datatype Fault = TypeError

  /** `const [rows] = await database.execute(…)`: `database.execute` already hands
      back the rows array, so this destructuring takes its first row, or
      `undefined` when the query matched nothing. */
  function SecondUnpack<T>(rows: seq<T>): (first: Option<T>)
    ensures first.None? <==> rows == []
    ensures first.Some? ==> first.value == rows[0]
  {
    if rows == [] then None else Some(rows[0])
  }

  /** `rows[0]` on what the second unpacking left: a TypeError on `undefined`, and
      `undefined` on a row object, which has no property named `0`. */
  function IndexZero<T>(unpacked: Option<T>): (r: Result<Option<T>, Fault>)
    ensures r.Err? <==> unpacked.None?
    ensures r.Ok? ==> r.value == None
  {
    if unpacked.None? then Err(TypeError) else Ok(None)
  }

  /** One `ad_impressions` row. */
  datatype ImpressionRow = ImpressionRow(
    id: int,
    adId: int,
    sessionId: string,
    macAddress: string,
    impressionTime: int,
    watchedDurationSeconds: int,
    completed: bool,
    skipTimeSeconds: Option<int>)

  /** The `radcheck` and `radreply` attributes kept for one RADIUS user name. */
  datatype RadiusAccount = RadiusAccount(
    password: string,        // Cleartext-Password
    simultaneousUse: int,    // Simultaneous-Use
    sessionTimeout: int,     // Session-Timeout, seconds
    idleTimeout: int)        // Idle-Timeout, seconds

  /** The relational database, one field per table the core touches. */
  class Database {
    var userSessions: seq<SessionRow>
    var adImpressions: seq<ImpressionRow>
    var radiusAccounts: map<string, RadiusAccount>

    constructor ()
      ensures userSessions == [] && adImpressions == [] && radiusAccounts == map[]
    {
      userSessions := [];
      adImpressions := [];
      radiusAccounts := map[];
    }
  }

  /** The JSON object stored under `session:<id>`. */
  datatype CachedSession = CachedSession(
    id: string,
    macAddress: string,
    ipAddress: string,
    deviceType: string,
    userAgent: string,
    status: Status,
    createdAt: int,
    username: Option<string>,
    password: Option<string>,
    authenticatedAt: Option<int>)

  /** A cache value together with the instant its time-to-live runs out. */
  datatype Expiring<T> = Expiring(value: T, expiresAt: int)

  /** The key-value cache: `session:<id>` and `mac:<mac>` entries, each with a TTL. */
  class Cache {
    var sessionKeys: map<string, Expiring<CachedSession>>
    var macKeys: map<string, Expiring<string>>

    constructor ()
      ensures sessionKeys == map[] && macKeys == map[]
    {
      sessionKeys := map[];
      macKeys := map[];
    }

    /** `GET session:<id>`: present only while its TTL has not run out. */
    function Lookup(id: string, now: int): (found: Option<CachedSession>)
      reads this
      ensures found.Some? <==> id in sessionKeys && now < sessionKeys[id].expiresAt
      ensures found.Some? ==> found.value == sessionKeys[id].value
    {
      if id in sessionKeys && now < sessionKeys[id].expiresAt then Some(sessionKeys[id].value) else None
    }

    /** Once an entry's TTL has run out it stays gone: whatever is found at a later
        instant is what was found at every earlier one. */
    lemma LookupExpiresForGood(id: string, n: int, m: int)
      requires n <= m
      ensures Lookup(id, m).Some? ==> Lookup(id, n) == Lookup(id, m)
      ensures Lookup(id, n).None? ==> Lookup(id, m).None?
    {
    }
  }

  /** The requests sent to the network access server. */
  datatype NasRequest =
    | CoA(userName: string, framedIpAddress: string, sessionTimeout: int)
    | Disconnect(userName: string)

  /** The client for the network access server: every request sent, and whether it got through. */
  class NasClient {
    var sent: seq<(NasRequest, bool)>

    constructor ()
      ensures sent == []
    {
      sent := [];
    }

    /** Sends one request; a failure is logged by the caller and changes nothing else. */
    method Send(request: NasRequest, delivered: bool)
      modifies this
      ensures sent == old(sent) + [(request, delivered)]
    {
      sent := sent + [(request, delivered)];
    }
  }
}
