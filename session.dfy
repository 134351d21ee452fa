/** The session model (services/portal/src/models/Session.js): one object per
    `user_sessions` row, its state transitions, and the queries and the bulk
    expiry over the whole table. */
module Sessions {
  import opened Wrappers
  import opened Schema

  /** Sessions last fifteen minutes. */
  const SessionMinutes: int := 15
  const SessionMs: int := SessionMinutes * MinuteMs

  /** The plain object a Session is built from; absent fields are `None`. */
  datatype SessionData = SessionData(
    id: Option<string>,
    macAddress: string,
    ipAddress: string,
    deviceType: string,
    userAgent: string,
    sessionStart: Option<int>,
    sessionEnd: Option<int>,
    dataUsedMb: Option<int>,
    status: Option<Status>)

  class Session {
    var id: string
    var macAddress: string
    var ipAddress: string
    var deviceType: string
    var userAgent: string
    var sessionStart: Option<int>
    var sessionEnd: Option<int>
    var dataUsedMb: int
    var status: Status

    /** The object's fields, read as a row. */
    function Row(): SessionRow
      reads this
    {
      SessionRow(id, macAddress, ipAddress, deviceType, userAgent, sessionStart, sessionEnd, dataUsedMb, status)
    }

    /** Copies the given fields; a missing id gets the freshly generated one, a
        missing usage counts as 0 and a missing status as `pending`. */
    constructor (data: SessionData, freshId: string)
      ensures Row() == SessionRow(
        if data.id.Some? && data.id.value != "" then data.id.value else freshId,
        data.macAddress, data.ipAddress, data.deviceType, data.userAgent,
        data.sessionStart, data.sessionEnd,
        if data.dataUsedMb.Some? then data.dataUsedMb.value else 0,
        if data.status.Some? then data.status.value else Pending)
    {
      id := if data.id.Some? && data.id.value != "" then data.id.value else freshId;
      macAddress := data.macAddress;
      ipAddress := data.ipAddress;
      deviceType := data.deviceType;
      userAgent := data.userAgent;
      sessionStart := data.sessionStart;
      sessionEnd := data.sessionEnd;
      dataUsedMb := if data.dataUsedMb.Some? then data.dataUsedMb.value else 0;
      status := if data.status.Some? then data.status.value else Pending;
    }

    /** Applies one update to the object and the same update to its row in the table. */
    method Apply(db: Database, u: SessionUpdate)
      modifies this, db
      ensures Row() == ApplyUpdate(old(Row()), u)
      ensures db.userSessions == UpdateById(old(db.userSessions), id, u)
      ensures db.adImpressions == old(db.adImpressions) && db.radiusAccounts == old(db.radiusAccounts)
    {
      match u {
        case MarkActive(at) =>
          status := Active;
          sessionStart := Some(at);
        case MarkExpired(at) =>
          status := Expired;
          sessionEnd := Some(at);
        case MarkTerminated(at) =>
          status := Terminated;
          sessionEnd := Some(at);
        case AddDataUsage(mb) =>
          dataUsedMb := dataUsedMb + mb;
      }
      db.userSessions := UpdateById(db.userSessions, id, u);
    }

    /** activate: status `active` and the session starts now; nothing else changes. */
    method Activate(db: Database, now: int)
      modifies this, db
      ensures Row() == old(Row()).(status := Active, sessionStart := Some(now))
      ensures db.userSessions == UpdateById(old(db.userSessions), id, MarkActive(now))
      ensures db.adImpressions == old(db.adImpressions) && db.radiusAccounts == old(db.radiusAccounts)
    {
      Apply(db, MarkActive(now));
    }

    /** expire: status `expired`, ended now, whatever the previous status. */
    method Expire(db: Database, now: int)
      modifies this, db
      ensures Row() == old(Row()).(status := Expired, sessionEnd := Some(now))
      ensures db.userSessions == UpdateById(old(db.userSessions), id, MarkExpired(now))
      ensures db.adImpressions == old(db.adImpressions) && db.radiusAccounts == old(db.radiusAccounts)
    {
      Apply(db, MarkExpired(now));
    }

    /** terminate: status `terminated`, ended now, whatever the previous status. */
    method Terminate(db: Database, now: int)
      modifies this, db
      ensures Row() == old(Row()).(status := Terminated, sessionEnd := Some(now))
      ensures db.userSessions == UpdateById(old(db.userSessions), id, MarkTerminated(now))
      ensures db.adImpressions == old(db.adImpressions) && db.radiusAccounts == old(db.radiusAccounts)
    {
      Apply(db, MarkTerminated(now));
    }

    /** updateDataUsage: adds to the usage counter, which so never decreases for a
        non-negative amount. */
    method UpdateDataUsage(db: Database, megabytes: int)
      modifies this, db
      ensures Row() == old(Row()).(dataUsedMb := old(dataUsedMb) + megabytes)
      ensures megabytes >= 0 ==> dataUsedMb >= old(dataUsedMb)
      ensures db.userSessions == UpdateById(old(db.userSessions), id, AddDataUsage(megabytes))
      ensures db.adImpressions == old(db.adImpressions) && db.radiusAccounts == old(db.radiusAccounts)
    {
      Apply(db, AddDataUsage(megabytes));
    }

    /** isActive: status `active` and fewer than fifteen minutes elapsed since the
        start (computed in minutes, as the source does); an unset start never counts. */
    predicate IsActive(now: int): (active: bool)
      reads this
      ensures active <==> status == Active && sessionStart.Some? && now < sessionStart.value + SessionMs
    {
      MinutesBelowSession(now - (if sessionStart.Some? then sessionStart.value else 0));
      status == Active && sessionStart.Some? &&
      ((now - sessionStart.value) as real / 1000.0 / 60.0 < SessionMinutes as real)
    }

    /** getRemainingTime: the seconds left, rounded to the nearest second (halves up),
        and 0 once the session is not active. */
    function GetRemainingTime(now: int): (seconds: int)
      reads this
      ensures seconds >= 0
      ensures !IsActive(now) ==> seconds == 0
      ensures IsActive(now) ==>
                var left := SessionMs - (now - sessionStart.value);
                1000 * seconds - 500 <= left < 1000 * seconds + 500
      ensures IsActive(now) && sessionStart.value <= now ==> seconds <= SessionMinutes * 60
    {
      if !IsActive(now) then 0 else RoundedRemaining(now - sessionStart.value)
    }
  }

  /** The arithmetic of getRemainingTime for an active session that started
      `elapsed` milliseconds ago: `Math.max(0, Math.round(900 - elapsed / 1000))`,
      with `Math.round` rounding halves up. */
  function RoundedRemaining(elapsed: int): (seconds: int)
    requires elapsed as real / 1000.0 / 60.0 < SessionMinutes as real
    ensures seconds >= 0
    ensures 1000 * seconds - 500 <= SessionMs - elapsed < 1000 * seconds + 500
    ensures 0 <= elapsed ==> seconds <= SessionMinutes * 60
  {
    var remaining := (SessionMinutes * 60) as real - elapsed as real / 1000.0;
    var rounded := (remaining + 0.5).Floor;
    if rounded < 0 then 0 else rounded
  }

  /** Measuring in minutes draws the same line as measuring in milliseconds. */
  lemma MinutesBelowSession(elapsed: int)
    ensures elapsed as real / 1000.0 / 60.0 < SessionMinutes as real <==> elapsed < SessionMs
  {
    assert elapsed as real / 1000.0 / 60.0 == elapsed as real / 60000.0;
  }

  /** The freshness filter of findActive and getActiveSessions:
      `status = 'active' AND session_start > NOW() - INTERVAL 15 MINUTE`. */
  predicate IsFresh(row: SessionRow, now: int)
  {
    row.status == Active && row.sessionStart.Some? && row.sessionStart.value > now - SessionMs
  }

  /** The filter of expireOldSessions:
      `status = 'active' AND session_start <= NOW() - INTERVAL 15 MINUTE`. */
  predicate IsStale(row: SessionRow, now: int)
  {
    row.status == Active && row.sessionStart.Some? && row.sessionStart.value <= now - SessionMs
  }

  /** isActive measures the same window as the SQL freshness filter. */
  lemma IsActiveIsFresh(s: Session, now: int)
    ensures s.IsActive(now) <==> IsFresh(s.Row(), now)
  {
    if s.status == Active && s.sessionStart.Some? {
      var elapsed := (now - s.sessionStart.value) as real;
      assert elapsed / 1000.0 / 60.0 == elapsed / 60000.0;
    }
  }

  /** Every active row has a start: activation always sets one. */
  predicate ActiveRowsStarted(rows: seq<SessionRow>)
  {
    forall i :: 0 <= i < |rows| && rows[i].status == Active ==> rows[i].sessionStart.Some?
  }

  /** On started active rows the two filters split the table: each such row is
      fresh or stale, never both (the `>` against the `<=`). */
  lemma FreshStalePartition(row: SessionRow, now: int)
    requires row.status == Active && row.sessionStart.Some?
    ensures IsFresh(row, now) != IsStale(row, now)
  {
  }

  /** The ordering key of `ORDER BY session_start DESC`. */
  function StartOf(row: SessionRow): int
  {
    if row.sessionStart.Some? then row.sessionStart.value else 0
  }

  predicate IsCandidate(row: SessionRow, mac: string, now: int)
  {
    row.macAddress == mac && IsFresh(row, now)
  }

  /** findActive: the fresh active row of the MAC with the latest start, or none. */
  function FindActive(rows: seq<SessionRow>, mac: string, now: int): (found: Option<SessionRow>)
    ensures found.None? <==> forall r :: r in rows ==> !IsCandidate(r, mac, now)
    ensures found.Some? ==> found.value in rows && IsCandidate(found.value, mac, now)
    ensures found.Some? ==>
              forall r :: r in rows && IsCandidate(r, mac, now) ==> StartOf(r) <= StartOf(found.value)
  {
    if rows == [] then None
    else
      var rest := FindActive(rows[1..], mac, now);
      assert forall r :: r in rows ==> r == rows[0] || r in rows[1..];
      if IsCandidate(rows[0], mac, now) && (rest.None? || StartOf(rest.value) <= StartOf(rows[0]))
      then Some(rows[0])
      else rest
  }

  /** What findActive's `SELECT … ORDER BY session_start DESC LIMIT 1` returns. */
  function LatestFreshRows(rows: seq<SessionRow>, mac: string, now: int): (result: seq<SessionRow>)
    ensures |result| <= 1
    ensures result == [] <==> forall r :: r in rows ==> !IsCandidate(r, mac, now)
  {
    var found := FindActive(rows, mac, now);
    if found.Some? then [found.value] else []
  }

  /** findActive as written: the result is unpacked a second time, so `rows[0]`
      throws when no row matches and is `undefined` (answered with null) when one
      does. */
  function FindActiveAsWritten(rows: seq<SessionRow>, mac: string, now: int): (r: Result<Option<SessionRow>, Fault>)
    ensures r.Err? <==> forall x :: x in rows ==> !IsCandidate(x, mac, now)
    ensures r.Ok? ==> r.value.None?
  {
    IndexZero(SecondUnpack(LatestFreshRows(rows, mac, now)))
  }

  /** As written, findActive never gives the query's answer: it throws exactly
      when the answer is none, and answers none exactly when there is a session. */
  lemma FindActiveAsWrittenNeverAnswers(rows: seq<SessionRow>, mac: string, now: int)
    ensures FindActiveAsWritten(rows, mac, now) != Ok(FindActive(rows, mac, now))
    ensures FindActive(rows, mac, now).None? ==> FindActiveAsWritten(rows, mac, now) == Err(TypeError)
    ensures FindActive(rows, mac, now).Some? ==> FindActiveAsWritten(rows, mac, now) == Ok(None)
  {
  }

  /** The rows the freshness filter keeps, in table order. */
  function FreshRows(rows: seq<SessionRow>, now: int): (kept: seq<SessionRow>)
    ensures forall r :: multiset(kept)[r] == if IsFresh(r, now) then multiset(rows)[r] else 0
  {
    if rows == [] then []
    else
      assert rows == [rows[0]] + rows[1..];
      (if IsFresh(rows[0], now) then [rows[0]] else []) + FreshRows(rows[1..], now)
  }

  predicate SortedByStartDesc(rows: seq<SessionRow>)
  {
    forall i, j :: 0 <= i < j < |rows| ==> StartOf(rows[i]) >= StartOf(rows[j])
  }

  function InsertByStartDesc(row: SessionRow, sorted: seq<SessionRow>): (r: seq<SessionRow>)
    requires SortedByStartDesc(sorted)
    ensures SortedByStartDesc(r)
    ensures multiset(r) == multiset(sorted) + multiset{row}
  {
    if sorted == [] || StartOf(row) >= StartOf(sorted[0]) then
      [row] + sorted
    else
      var head := sorted[0];
      var tail := InsertByStartDesc(row, sorted[1..]);
      assert sorted == [head] + sorted[1..];
      InsertedBelow(head, row, sorted[1..], tail);
      [head] + tail
  }

  /** The step of the insertion: a head no later-starting than anything inserted below it stays sorted on top. */
  lemma InsertedBelow(head: SessionRow, row: SessionRow, rest: seq<SessionRow>, tail: seq<SessionRow>)
    requires SortedByStartDesc([head] + rest) && SortedByStartDesc(tail)
    requires StartOf(row) < StartOf(head)
    requires multiset(tail) == multiset(rest) + multiset{row}
    ensures SortedByStartDesc([head] + tail)
  {
    forall x | x in tail ensures StartOf(x) <= StartOf(head) {
      assert x in multiset(tail);
      if x != row {
        assert x in multiset(rest);
        var k :| 0 <= k < |rest| && rest[k] == x;
        var whole := [head] + rest;
        assert whole[0] == head && whole[k + 1] == x;
        assert StartOf(whole[0]) >= StartOf(whole[k + 1]);
      }
    }
    var r := [head] + tail;
    forall i, j | 0 <= i < j < |r| ensures StartOf(r[i]) >= StartOf(r[j]) {
      if i == 0 {
        assert r[j] == tail[j - 1];
        assert tail[j - 1] in tail;
      } else {
        assert r[i] == tail[i - 1] && r[j] == tail[j - 1];
      }
    }
  }

  function SortByStartDesc(rows: seq<SessionRow>): (r: seq<SessionRow>)
    ensures SortedByStartDesc(r)
    ensures multiset(r) == multiset(rows)
  {
    if rows == [] then []
    else
      assert rows == [rows[0]] + rows[1..];
      InsertByStartDesc(rows[0], SortByStartDesc(rows[1..]))
  }

  /** getActiveSessions: every fresh active row, as often as the table holds it and
      no other, latest start first. */
  function GetActiveSessions(rows: seq<SessionRow>, now: int): (active: seq<SessionRow>)
    ensures SortedByStartDesc(active)
    ensures forall r :: multiset(active)[r] == if IsFresh(r, now) then multiset(rows)[r] else 0
    ensures forall r :: r in active ==> IsFresh(r, now)
  {
    var kept := FreshRows(rows, now);
    var sorted := SortByStartDesc(kept);
    assert forall r :: r in sorted ==> IsFresh(r, now) by {
      forall r | r in sorted ensures IsFresh(r, now) {
        assert r in multiset(sorted);
      }
    }
    sorted
  }

  /** getActiveSessions as written: after the second unpacking `rows` is the first
      row object or `undefined`, and neither has a `map` method, so the call
      always throws. */
  function GetActiveSessionsAsWritten(rows: seq<SessionRow>, now: int): (r: Result<seq<SessionRow>, Fault>)
    ensures r == Err(TypeError)
  {
    match SecondUnpack(GetActiveSessions(rows, now))
    case None => Err(TypeError)       // undefined.map
    case Some(_) => Err(TypeError)    // a row object has no map
  }

  /** Even a table with fresh active sessions gets the error as written, where the
      query's answer is a non-empty list. */
  lemma GetActiveSessionsAsWrittenFails(row: SessionRow, now: int)
    requires IsFresh(row, now)
    ensures GetActiveSessions([row], now) != []
    ensures GetActiveSessionsAsWritten([row], now).Err?
  {
    assert multiset(GetActiveSessions([row], now))[row] == 1;
  }

  /** One row under expireOldSessions. */
  function SweepRow(row: SessionRow, now: int): SessionRow
  {
    if IsStale(row, now) then ApplyUpdate(row, MarkExpired(now)) else row
  }

  /** The table after `UPDATE … SET status = 'expired', session_end = NOW() WHERE
      status = 'active' AND session_start <= NOW() - INTERVAL 15 MINUTE`: the stale
      rows are expired as of now, every other row is untouched. */
  function Sweep(rows: seq<SessionRow>, now: int): (swept: seq<SessionRow>)
    ensures |swept| == |rows|
    ensures forall i :: 0 <= i < |rows| && IsStale(rows[i], now) ==>
              swept[i] == rows[i].(status := Expired, sessionEnd := Some(now))
    ensures forall i :: 0 <= i < |rows| && !IsStale(rows[i], now) ==> swept[i] == rows[i]
  {
    if rows == [] then [] else [SweepRow(rows[0], now)] + Sweep(rows[1..], now)
  }

  function CountStale(rows: seq<SessionRow>, now: int): nat
  {
    if rows == [] then 0 else (if IsStale(rows[0], now) then 1 else 0) + CountStale(rows[1..], now)
  }

  /** expireOldSessions: one bulk update; reports the affected row count. */
  method ExpireOldSessions(db: Database, now: int) returns (affectedRows: nat)
    modifies db
    ensures db.userSessions == Sweep(old(db.userSessions), now)
    ensures affectedRows == CountStale(old(db.userSessions), now)
    ensures db.adImpressions == old(db.adImpressions) && db.radiusAccounts == old(db.radiusAccounts)
  {
    affectedRows := CountStale(db.userSessions, now);
    db.userSessions := Sweep(db.userSessions, now);
  }

  /** After a sweep at `now`, every row still active passes the freshness filter. */
  lemma SweepLeavesOnlyFresh(rows: seq<SessionRow>, now: int)
    requires ActiveRowsStarted(rows)
    ensures ActiveRowsStarted(Sweep(rows, now))
    ensures forall i :: 0 <= i < |rows| && Sweep(rows, now)[i].status == Active ==> IsFresh(Sweep(rows, now)[i], now)
  {
  }

  /** A sweep expires no row findActive could return, so it does not change its answer. */
  lemma {:induction false} SweepPreservesFindActive(rows: seq<SessionRow>, mac: string, now: int)
    ensures FindActive(Sweep(rows, now), mac, now) == FindActive(rows, mac, now)
  {
    if rows != [] {
      var swept := Sweep(rows, now);
      assert swept[1..] == Sweep(rows[1..], now);
      assert swept[0] == SweepRow(rows[0], now);
      SweepPreservesFindActive(rows[1..], mac, now);
    }
  }

  /** ... nor the list getActiveSessions returns. */
  lemma {:induction false} SweepPreservesFreshRows(rows: seq<SessionRow>, now: int)
    ensures FreshRows(Sweep(rows, now), now) == FreshRows(rows, now)
  {
    if rows != [] {
      var swept := Sweep(rows, now);
      assert swept[1..] == Sweep(rows[1..], now);
      assert swept[0] == SweepRow(rows[0], now);
      SweepPreservesFreshRows(rows[1..], now);
    }
  }

  lemma SweepPreservesActiveSessions(rows: seq<SessionRow>, now: int)
    ensures GetActiveSessions(Sweep(rows, now), now) == GetActiveSessions(rows, now)
  {
    SweepPreservesFreshRows(rows, now);
  }

  /** A second sweep at the same instant changes nothing. */
  lemma SweepIdempotent(rows: seq<SessionRow>, now: int)
    ensures Sweep(Sweep(rows, now), now) == Sweep(rows, now)
  {
  }
}
