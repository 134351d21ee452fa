/** The ad-impression model (services/portal/src/models/AdImpression.js): one
    object per `ad_impressions` row, its completion update, the watch
    percentage, and the retention cleanup over the whole table. */
module AdImpressions {
  import opened Wrappers
  import opened Schema

  /** The length of the ad the gate assumes, and the share of it that must be watched. */
  const AdDurationSeconds: int := 30
  const MinWatchPercent: int := 80
  /** Impressions are kept for ninety days unless told otherwise. */
  const DefaultRetentionDays: int := 90

  /** The server's watch gate on the player's fractional watch time:
      `watched >= 0.8 * AdDurationSeconds`, in exact arithmetic. */
  predicate WatchedEnough(watched: real): (ok: bool)
    ensures ok <==> watched >= 24.0
  {
    100.0 * watched >= (MinWatchPercent * AdDurationSeconds) as real
  }

  /** The whole seconds the integer `watched_duration_seconds` column keeps of a
      fractional watch time: the nearest whole number, and at an exact half the
      even one (the `rint` rounding of a double stored into an integer column). */
  function ColumnSeconds(watched: real): (stored: int)
    ensures stored as real - 0.5 <= watched <= stored as real + 0.5
    ensures (watched + 0.5).Floor as real == watched + 0.5 ==> stored % 2 == 0
    ensures WatchedEnough(watched) ==> WatchedEnough(stored as real)
  {
    var up := (watched + 0.5).Floor;
    if up as real == watched + 0.5 && up % 2 != 0 then up - 1 else up
  }

  /** The gate looks at the fractional time and the row keeps the rounded one, so
      they can disagree: 23.6 s is turned away although it is stored as 24, the
      same whole seconds as an accepted 24.4 s. */
  lemma GateAndColumnExamples()
    ensures !WatchedEnough(23.6) && ColumnSeconds(23.6) == 24
    ensures WatchedEnough(24.4) && ColumnSeconds(24.4) == 24
  {
    assert (23.6 + 0.5).Floor == 24;
    assert (24.4 + 0.5).Floor == 24;
  }

  /** Which rows an `UPDATE ad_impressions … WHERE …` touches. */
  datatype Selector =
    | ById(id: int)                                // WHERE id = ?
    | BySessionAd(sessionId: string, adId: int)    // WHERE session_id = ? AND ad_id = ?

  predicate Selects(sel: Selector, row: ImpressionRow)
  {
    match sel
    case ById(id) => row.id == id
    case BySessionAd(sessionId, adId) => row.sessionId == sessionId && row.adId == adId
  }

  /** `SET watched_duration_seconds = ?, completed = ?` on the selected rows. */
  function RecordWatch(rows: seq<ImpressionRow>, sel: Selector, watched: int, completed: bool): (updated: seq<ImpressionRow>)
    ensures |updated| == |rows|
    ensures forall i :: 0 <= i < |rows| ==>
              updated[i] == if Selects(sel, rows[i])
                            then rows[i].(watchedDurationSeconds := watched, completed := completed)
                            else rows[i]
  {
    seq(|rows|, i requires 0 <= i < |rows| =>
      if Selects(sel, rows[i]) then rows[i].(watchedDurationSeconds := watched, completed := completed) else rows[i])
  }

  /** Recording a completed watch twice is recording it once. */
  lemma RecordWatchIdempotent(rows: seq<ImpressionRow>, sel: Selector, watched: int, completed: bool)
    ensures RecordWatch(RecordWatch(rows, sel, watched, completed), sel, watched, completed)
            == RecordWatch(rows, sel, watched, completed)
  {
    var once := RecordWatch(rows, sel, watched, completed);
    assert forall i :: 0 <= i < |rows| ==> Selects(sel, once[i]) == Selects(sel, rows[i]);
  }

  /** Recording with the completion flag set never turns a completed impression
      back into an incomplete one, and leaves every selected one completed with the
      recorded time; the rows' identities (id, ad, session, MAC, time) do not change. */
  lemma RecordCompletionKeepsCompleted(rows: seq<ImpressionRow>, sel: Selector, watched: int)
    ensures var updated := RecordWatch(rows, sel, watched, true);
            forall i :: 0 <= i < |rows| ==>
              (rows[i].completed ==> updated[i].completed)
              && (Selects(sel, rows[i]) ==> updated[i].completed && updated[i].watchedDurationSeconds == watched)
              && updated[i].id == rows[i].id && updated[i].adId == rows[i].adId
              && updated[i].sessionId == rows[i].sessionId && updated[i].macAddress == rows[i].macAddress
              && updated[i].impressionTime == rows[i].impressionTime
  {
  }

  /** The plain object an impression is built from; absent fields are `None`. */
  datatype ImpressionData = ImpressionData(
    id: int,
    adId: int,
    sessionId: string,
    macAddress: string,
    impressionTime: int,
    watchedDurationSeconds: Option<int>,
    completed: Option<bool>,
    skipTimeSeconds: Option<int>)

  class AdImpression {
    var id: int
    var adId: int
    var sessionId: string
    var macAddress: string
    var impressionTime: int
    var watchedDurationSeconds: int
    var completed: bool
    var skipTimeSeconds: Option<int>

    /** The object's fields, read as a row. */
    function Row(): ImpressionRow
      reads this
    {
      ImpressionRow(id, adId, sessionId, macAddress, impressionTime, watchedDurationSeconds, completed, skipTimeSeconds)
    }

    /** Copies the given fields; a missing watch time counts as 0 and a missing
        completion flag as false. */
    constructor (data: ImpressionData)
      ensures Row() == ImpressionRow(
        data.id, data.adId, data.sessionId, data.macAddress, data.impressionTime,
        if data.watchedDurationSeconds.Some? then data.watchedDurationSeconds.value else 0,
        data.completed.Some? && data.completed.value,
        data.skipTimeSeconds)
    {
      id := data.id;
      adId := data.adId;
      sessionId := data.sessionId;
      macAddress := data.macAddress;
      impressionTime := data.impressionTime;
      watchedDurationSeconds := if data.watchedDurationSeconds.Some? then data.watchedDurationSeconds.value else 0;
      completed := data.completed.Some? && data.completed.value;
      skipTimeSeconds := data.skipTimeSeconds;
    }

    /** markComplete: the impression is completed with the given watch time, in the
        object and in its row; nothing else changes. */
    method MarkComplete(db: Database, watched: int)
      modifies this, db
      ensures Row() == old(Row()).(watchedDurationSeconds := watched, completed := true)
      ensures db.adImpressions == RecordWatch(old(db.adImpressions), ById(id), watched, true)
      ensures forall i :: 0 <= i < |db.adImpressions| && old(db.adImpressions)[i] == old(Row()) ==> db.adImpressions[i] == Row()
      ensures db.userSessions == old(db.userSessions) && db.radiusAccounts == old(db.radiusAccounts)
    {
      watchedDurationSeconds := watched;
      completed := true;
      db.adImpressions := RecordWatch(db.adImpressions, ById(id), watched, true);
    }

    /** getWatchPercentage: 0 without a (non-zero) total; otherwise the watched share
        in percent rounded to the nearest integer (halves up), capped at 100. */
    function GetWatchPercentage(totalDuration: Option<int>): (percent: int)
      reads this
      ensures percent <= 100
      ensures totalDuration.None? || totalDuration.value == 0 ==> percent == 0
      ensures totalDuration.Some? && totalDuration.value != 0 ==>
                var share := (100 * watchedDurationSeconds) as real / totalDuration.value as real;
                (percent < 100 ==> percent as real - 0.5 <= share < percent as real + 0.5) &&
                (percent == 100 <==> share >= 99.5)
      ensures watchedDurationSeconds >= 0 && (totalDuration.None? || totalDuration.value >= 0) ==> percent >= 0
    {
      if totalDuration.None? || totalDuration.value == 0 then 0
      else
        var share := (100 * watchedDurationSeconds) as real / totalDuration.value as real;
        var rounded := (share + 0.5).Floor;
        if rounded < 100 then rounded else 100
    }
  }

  /** A table row that mirrors an impression object still mirrors it after
      markComplete's update by the object's id. */
  lemma RecordWatchSyncsRow(rows: seq<ImpressionRow>, row: ImpressionRow, watched: int)
    ensures forall i :: 0 <= i < |rows| && rows[i] == row ==>
              RecordWatch(rows, ById(row.id), watched, true)[i] == row.(watchedDurationSeconds := watched, completed := true)
  {
  }

  /** At the ad length the gate assumes, the rounded percentage reaches 80 exactly
      when the server's gate lets the watch through. */
  lemma PercentageAgreesWithGate(imp: AdImpression)
    ensures imp.GetWatchPercentage(Some(AdDurationSeconds)) >= MinWatchPercent
            <==> WatchedEnough(imp.watchedDurationSeconds as real)
  {
    var w := imp.watchedDurationSeconds;
    var percent := imp.GetWatchPercentage(Some(AdDurationSeconds));
    var share := (100 * w) as real / 30.0;
    if WatchedEnough(w as real) {
      assert share >= 80.0;
    } else {
      assert w <= 23;
      assert share <= 2300.0 / 30.0;
    }
  }

  /** 24 of 30 seconds is 80 %, 25 of 30 is 83 %. */
  lemma WatchPercentageExamples(a: AdImpression, b: AdImpression)
    requires a.watchedDurationSeconds == 24 && b.watchedDurationSeconds == 25
    ensures a.GetWatchPercentage(Some(30)) == 80
    ensures b.GetWatchPercentage(Some(30)) == 83
  {
    assert (2400.0 / 30.0 + 0.5).Floor == 80;
    assert 2500.0 / 30.0 + 0.5 == 83.0 + 5.0 / 6.0;
  }

  /** The rows `DELETE … WHERE impression_time < cutoff` leaves, in table order. */
  function Retained(rows: seq<ImpressionRow>, cutoff: int): (kept: seq<ImpressionRow>)
    ensures |kept| <= |rows|
    ensures forall i :: 0 <= i < |kept| ==> kept[i].impressionTime >= cutoff
  {
    if rows == [] then []
    else (if rows[0].impressionTime >= cutoff then [rows[0]] else []) + Retained(rows[1..], cutoff)
  }

  /** Each row is kept as often as it occurs if it is inside the window, and never otherwise. */
  lemma {:induction false} RetainedCounts(rows: seq<ImpressionRow>, cutoff: int)
    ensures forall r :: multiset(Retained(rows, cutoff))[r] == if r.impressionTime >= cutoff then multiset(rows)[r] else 0
  {
    if rows != [] {
      RetainedCounts(rows[1..], cutoff);
      assert rows == [rows[0]] + rows[1..];
    }
  }

  /** The instant before which cleanupOld deletes: `days` days before now, 90 by default. */
  function RetentionCutoff(days: Option<int>, now: int): int
  {
    now - (if days.Some? then days.value else DefaultRetentionDays) * DayMs
  }

  /** cleanupOld: deletes exactly the impressions older than the retention window. */
  method CleanupOld(db: Database, days: Option<int>, now: int) returns (affectedRows: nat)
    modifies db
    ensures db.adImpressions == Retained(old(db.adImpressions), RetentionCutoff(days, now))
    ensures affectedRows == |old(db.adImpressions)| - |db.adImpressions|
    ensures db.userSessions == old(db.userSessions) && db.radiusAccounts == old(db.radiusAccounts)
  {
    var kept := Retained(db.adImpressions, RetentionCutoff(days, now));
    affectedRows := |db.adImpressions| - |kept|;
    db.adImpressions := kept;
  }

  /** After a cleanup every remaining impression is inside the window, and every
      impression inside the window remains. */
  lemma CleanupKeepsExactlyTheWindow(rows: seq<ImpressionRow>, cutoff: int, r: ImpressionRow)
    ensures r in Retained(rows, cutoff) <==> r in rows && r.impressionTime >= cutoff
  {
    RetainedCounts(rows, cutoff);
    var kept := Retained(rows, cutoff);
    assert r in kept <==> multiset(kept)[r] > 0;
    assert r in rows <==> multiset(rows)[r] > 0;
  }

  /** Cleaning up twice with the same cutoff deletes nothing the second time. */
  lemma {:induction false} CleanupIdempotent(rows: seq<ImpressionRow>, cutoff: int)
    ensures Retained(Retained(rows, cutoff), cutoff) == Retained(rows, cutoff)
  {
    if rows != [] {
      CleanupIdempotent(rows[1..], cutoff);
      var tail := Retained(rows[1..], cutoff);
      if rows[0].impressionTime >= cutoff {
        var kept := [rows[0]] + tail;
        assert Retained(rows, cutoff) == kept;
        assert kept[0] == rows[0] && kept[1..] == tail;
        assert Retained(kept, cutoff) == [rows[0]] + Retained(tail, cutoff);
      } else {
        assert Retained(rows, cutoff) == [] + tail == tail;
      }
    }
  }
}
