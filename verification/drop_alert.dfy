/** The index-drop alert (bot.py `check_stock_drop_alerts`, `_send_drop_alert`
    and the `quiet:off` button). The alert level is the whole-number part of
    the drop from the all-time high, in percent; each user is told about each
    level at most once per stored peak, from level 5 up. The index figures,
    the clock and the result of sending are parameters. */
module DropAlert {
  import opened Optional
  import opened Clock
  import opened Store
  import opened QuietHours
  import Dispatch

  const MinAlertLevel: int := 5

  /** Python's `int(x)` on a float: truncation toward zero. */
  function LevelOf(drop: real): (level: int)
    ensures drop >= 0.0 ==> level as real <= drop < level as real + 1.0
    ensures drop < 0.0 ==> level as real - 1.0 < drop <= level as real
  {
    if drop >= 0.0 then drop.Floor else -((-drop).Floor)
  }

  /** Whether a user is due an alert at `level` against the peak `athPrice`:
      only from level 5 up; with no stored record or a different stored peak,
      any such level; with the same peak, only a level above the stored one. */
  function ShouldAlert(last: Option<AlertRecord>, level: int, athPrice: real): (r: bool)
    ensures r ==> level >= MinAlertLevel
    ensures last.None? ==> (r <==> level >= MinAlertLevel)
    ensures last.Some? && last.value.athPrice != athPrice ==> (r <==> level >= MinAlertLevel)
    ensures last.Some? && last.value.athPrice == athPrice ==>
      (r <==> level >= MinAlertLevel && level > last.value.lastLevel)
  {
    if last.None? || last.value.athPrice != athPrice then level >= MinAlertLevel
    else level > last.value.lastLevel && level >= MinAlertLevel
  }

  /** The state of one user that the alert logic reads or writes. */
  function UserRows(db: Db, u: UserId): (Option<AlertRecord>, Option<PendingAlert>, Option<QuietRow>) {
    (GetLastStockAlertLevel(db, u), GetPendingStockAlert(db, u), GetQuietHours(db, u))
  }

  /** No stored level is lowered while its peak stays the same. */
  ghost predicate LevelsNotLowered(db: Db, db': Db) {
    forall v :: v in db.alertLevels ==>
      && v in db'.alertLevels
      && (db'.alertLevels[v].athPrice == db.alertLevels[v].athPrice ==>
            db'.alertLevels[v].lastLevel >= db.alertLevels[v].lastLevel)
  }

  /** The body of the per-user loop in `check_stock_drop_alerts`. During quiet
      time the alert is parked as the user's pending alert (replacing any
      earlier one) and the level is not recorded; otherwise the level is
      recorded only when `_send_drop_alert` reports success. */
  function AlertStep(db: Db, u: UserId, level: int, info: Snapshot, now: Minute, delivered: bool): (r: Db)
    ensures r.keywords == db.keywords && r.sentNews == db.sentNews && r.quietHours == db.quietHours
    ensures forall v :: v != u ==> UserRows(r, v) == UserRows(db, v)
    ensures GetLastStockAlertLevel(r, u) != GetLastStockAlertLevel(db, u) ==>
      && delivered && !IsQuietTime(db, u, now)
      && GetLastStockAlertLevel(r, u) == Some(AlertRecord(level, info.allTimeHigh, info.athDate))
    ensures GetPendingStockAlert(r, u) != GetPendingStockAlert(db, u) ==>
      && IsQuietTime(db, u, now)
      && GetPendingStockAlert(r, u) == Some(PendingAlert(level, info.allTimeHigh, info.athDate, info))
    ensures r != db ==> ShouldAlert(GetLastStockAlertLevel(db, u), level, info.allTimeHigh)
    ensures ShouldAlert(GetLastStockAlertLevel(db, u), level, info.allTimeHigh) && !IsQuietTime(db, u, now) && delivered ==>
      GetLastStockAlertLevel(r, u) == Some(AlertRecord(level, info.allTimeHigh, info.athDate))
    ensures ShouldAlert(GetLastStockAlertLevel(db, u), level, info.allTimeHigh) && IsQuietTime(db, u, now) ==>
      GetPendingStockAlert(r, u) == Some(PendingAlert(level, info.allTimeHigh, info.athDate, info))
    ensures !IsQuietTime(db, u, now) && !delivered ==> r == db
    ensures LevelsNotLowered(db, r)
  {
    if !ShouldAlert(GetLastStockAlertLevel(db, u), level, info.allTimeHigh) then db
    else if IsQuietTime(db, u, now) then
      SetPendingStockAlert(db, u, PendingAlert(level, info.allTimeHigh, info.athDate, info))
    else if delivered then UpdateStockAlertLevel(db, u, level, info.allTimeHigh, info.athDate)
    else db
  }

  /** What `AlertStep` does to a user depends on that user's rows only. */
  lemma StepIsLocal(db1: Db, db2: Db, u: UserId, level: int, info: Snapshot, now: Minute, delivered: bool)
    requires UserRows(db1, u) == UserRows(db2, u)
    ensures UserRows(AlertStep(db1, u, level, info, now, delivered), u)
         == UserRows(AlertStep(db2, u, level, info, now, delivered), u)
  {
  }

  /** At most once per level: once the alert for `level` has gone out, the
      same check for the same or any lower level and the same peak sends
      nothing and changes nothing, whatever the clock or the transport do. */
  lemma AtMostOncePerLevel(db: Db, u: UserId, level: int, lower: int, info: Snapshot,
                           now: Minute, now': Minute, delivered': bool)
    requires ShouldAlert(GetLastStockAlertLevel(db, u), level, info.allTimeHigh)
    requires !IsQuietTime(db, u, now)
    requires lower <= level
    ensures AlertStep(AlertStep(db, u, level, info, now, true), u, lower, info, now', delivered')
         == AlertStep(db, u, level, info, now, true)
  {
  }

  /** A new peak re-arms the alert: whatever was announced for the old peak,
      any level from 5 up is due again. */
  lemma NewPeakRearms(rec: AlertRecord, level: int, athPrice: real)
    requires rec.athPrice != athPrice && level >= MinAlertLevel
    ensures ShouldAlert(Some(rec), level, athPrice)
  {
  }

  /** `check_stock_drop_alerts` over the users returned by `get_all_users`
      (distinct, as `SELECT DISTINCT` returns them). Without index figures
      nothing happens. Each listed user ends up exactly as if checked alone;
      everyone else is untouched. The clock is read once per user, as
      `is_quiet_time` calls `datetime.now()` each time: `now(v)` is the
      reading taken for user `v`. */
  function AlertCycle(db: Db, info: Option<Snapshot>, users: seq<UserId>, now: UserId -> Minute,
                      delivered: UserId -> bool): (r: Db)
    requires forall i, j :: 0 <= i < j < |users| ==> users[i] != users[j]
    ensures info.None? ==> r == db
    ensures r.keywords == db.keywords && r.sentNews == db.sentNews && r.quietHours == db.quietHours
    ensures forall v :: v !in users ==> UserRows(r, v) == UserRows(db, v)
    ensures info.Some? ==> forall v :: v in users ==>
      UserRows(r, v) == UserRows(AlertStep(db, v, LevelOf(info.value.dropPercentage), info.value, now(v), delivered(v)), v)
    ensures LevelsNotLowered(db, r)
  {
    match info
    case None => db
    case Some(snap) => CheckUsers(db, users, LevelOf(snap.dropPercentage), snap, now, delivered)
  }

  function CheckUsers(db: Db, users: seq<UserId>, level: int, info: Snapshot, now: UserId -> Minute,
                      delivered: UserId -> bool): (r: Db)
    requires forall i, j :: 0 <= i < j < |users| ==> users[i] != users[j]
    ensures r.keywords == db.keywords && r.sentNews == db.sentNews && r.quietHours == db.quietHours
    ensures forall v :: v !in users ==> UserRows(r, v) == UserRows(db, v)
    ensures forall v :: v in users ==>
      UserRows(r, v) == UserRows(AlertStep(db, v, level, info, now(v), delivered(v)), v)
    ensures LevelsNotLowered(db, r)
    decreases |users|
  {
    if users == [] then db
    else
      var u := users[0];
      var db1 := AlertStep(db, u, level, info, now(u), delivered(u));
      var r := CheckUsers(db1, users[1..], level, info, now, delivered);
      LaterUsersUnaffected(db, u, users[1..], level, info, now, delivered);
      r
  }

  /** Checking one user first does not change what the check does for any
      other user. */
  lemma LaterUsersUnaffected(db: Db, u: UserId, rest: seq<UserId>, level: int, info: Snapshot, now: UserId -> Minute,
                             delivered: UserId -> bool)
    requires u !in rest
    ensures var db1 := AlertStep(db, u, level, info, now(u), delivered(u));
      forall v :: v in rest ==>
        UserRows(AlertStep(db1, v, level, info, now(v), delivered(v)), v)
        == UserRows(AlertStep(db, v, level, info, now(v), delivered(v)), v)
  {
    var db1 := AlertStep(db, u, level, info, now(u), delivered(u));
    forall v | v in rest
      ensures UserRows(AlertStep(db1, v, level, info, now(v), delivered(v)), v)
           == UserRows(AlertStep(db, v, level, info, now(v), delivered(v)), v)
    {
      StepIsLocal(db1, db, v, level, info, now(v), delivered(v));
    }
  }

  /** A drop below 5 % alerts nobody and changes nothing. */
  lemma NoAlertBelowFivePercent(db: Db, info: Snapshot, users: seq<UserId>, now: UserId -> Minute,
                                delivered: UserId -> bool)
    requires forall i, j :: 0 <= i < j < |users| ==> users[i] != users[j]
    requires info.dropPercentage < 5.0
    ensures AlertCycle(db, Some(info), users, now, delivered) == db
  {
    var level := LevelOf(info.dropPercentage);
    assert level < MinAlertLevel;
    var r := AlertCycle(db, Some(info), users, now, delivered);
    forall v
      ensures v in r.alertLevels <==> v in db.alertLevels
      ensures v in r.alertLevels ==> r.alertLevels[v] == db.alertLevels[v]
      ensures v in r.pending <==> v in db.pending
      ensures v in r.pending ==> r.pending[v] == db.pending[v]
    {
      if v in users {
        assert AlertStep(db, v, level, info, now(v), delivered(v)) == db;
      }
      assert UserRows(r, v) == UserRows(db, v);
    }
    assert r.alertLevels.Keys == db.alertLevels.Keys;
    assert r.pending.Keys == db.pending.Keys;
  }

  /** `_send_drop_alert`: without the TQQQ quote nothing is sent and the answer
      is false; otherwise the answer is whether `send_message_to_user`
      delivered. */
  method SendDropAlert(tqqqAvailable: bool, outcomes: seq<Dispatch.Outcome>) returns (ok: bool, attempts: nat)
    requires |outcomes| >= Dispatch.MaxRetries
    ensures !tqqqAvailable ==> !ok && attempts == 0
    ensures tqqqAvailable ==> 1 <= attempts <= Dispatch.MaxRetries
    ensures tqqqAvailable ==>
      (ok <==> exists i :: 0 <= i < Dispatch.MaxRetries && outcomes[i].Delivered?
                        && forall j :: 0 <= j < i ==> Dispatch.Transient(outcomes[j]))
  {
    if !tqqqAvailable {
      return false, 0;
    }
    var report := Dispatch.SendMessageToUser(outcomes);
    Dispatch.DeliveredIff(outcomes, report, Dispatch.SendPauseMs);
    return report.delivered, report.attempts;
  }

  /** What pressing the `quiet:off` button led to. */
  datatype QuietOffResult = NoQuietHours | Disabled | DisabledAndFlushed(level: int)

  /** The `quiet:off` branch as written: disable the window; if a pending
      alert exists, send it and, on success, record its level and clear it.
      The pending alert is sent without checking it against the stored level. */
  function QuietOff(db: Db, u: UserId, delivered: bool): (r: (Db, QuietOffResult))
    ensures r.1 == NoQuietHours <==> GetQuietHours(db, u).None?
    ensures r.1 == NoQuietHours ==> r.0 == db
    ensures r.1 != NoQuietHours ==> forall now :: !IsQuietTime(r.0, u, now)
    ensures r.1.DisabledAndFlushed? <==> GetQuietHours(db, u).Some? && GetPendingStockAlert(db, u).Some? && delivered
    ensures r.1.DisabledAndFlushed? ==>
      var p := GetPendingStockAlert(db, u).value;
      && r.1.level == p.level
      && GetLastStockAlertLevel(r.0, u) == Some(AlertRecord(p.level, p.athPrice, p.athDate))
      && GetPendingStockAlert(r.0, u).None?
    ensures !r.1.DisabledAndFlushed? ==>
      GetLastStockAlertLevel(r.0, u) == GetLastStockAlertLevel(db, u)
      && GetPendingStockAlert(r.0, u) == GetPendingStockAlert(db, u)
    ensures forall v :: v != u ==> UserRows(r.0, v) == UserRows(db, v)
    ensures r.0.keywords == db.keywords && r.0.sentNews == db.sentNews
    ensures r.1 != NoQuietHours ==>
      GetQuietHours(r.0, u) == Some(GetQuietHours(db, u).value.(enabled := false))
  {
    var (db1, found) := DisableQuietHours(db, u);
    if !found then (db, NoQuietHours)
    else match GetPendingStockAlert(db1, u)
      case None => (db1, Disabled)
      case Some(p) =>
        if delivered then
          (ClearPendingStockAlert(UpdateStockAlertLevel(db1, u, p.level, p.athPrice, p.athDate), u),
           DisabledAndFlushed(p.level))
        else (db1, Disabled)
  }

  /** `quiet:off` with the pending alert re-checked before it is sent: a
      pending alert that is no longer due (a level as high or higher was
      announced since for the same peak) is dropped instead of sent. */
  function QuietOffGuarded(db: Db, u: UserId, delivered: bool): (r: (Db, QuietOffResult))
    ensures r.1 == NoQuietHours <==> GetQuietHours(db, u).None?
    ensures r.1 == NoQuietHours ==> r.0 == db
    ensures r.1 != NoQuietHours ==> forall now :: !IsQuietTime(r.0, u, now)
    ensures r.1.DisabledAndFlushed? ==> GetPendingStockAlert(db, u).Some?
    ensures r.1.DisabledAndFlushed? ==>
      var p := GetPendingStockAlert(db, u).value;
      && ShouldAlert(GetLastStockAlertLevel(db, u), p.level, p.athPrice)
      && r.1.level == p.level
      && GetLastStockAlertLevel(r.0, u) == Some(AlertRecord(p.level, p.athPrice, p.athDate))
      && GetPendingStockAlert(r.0, u).None?
    ensures GetQuietHours(db, u).Some? && GetPendingStockAlert(db, u).Some? ==>
      var p := GetPendingStockAlert(db, u).value;
      var due := ShouldAlert(GetLastStockAlertLevel(db, u), p.level, p.athPrice);
      && (due && delivered ==> r.1 == DisabledAndFlushed(p.level))
      && (due && !delivered ==>
            r.1 == Disabled
            && GetPendingStockAlert(r.0, u) == GetPendingStockAlert(db, u)
            && GetLastStockAlertLevel(r.0, u) == GetLastStockAlertLevel(db, u))
      && (!due ==>
            r.1 == Disabled
            && GetPendingStockAlert(r.0, u).None?
            && GetLastStockAlertLevel(r.0, u) == GetLastStockAlertLevel(db, u))
    ensures GetQuietHours(db, u).Some? && GetPendingStockAlert(db, u).None? ==>
      r.1 == Disabled && GetLastStockAlertLevel(r.0, u) == GetLastStockAlertLevel(db, u)
      && GetPendingStockAlert(r.0, u).None?
    ensures forall v :: v != u ==> UserRows(r.0, v) == UserRows(db, v)
    ensures r.0.keywords == db.keywords && r.0.sentNews == db.sentNews
    ensures r.1 != NoQuietHours ==>
      GetQuietHours(r.0, u) == Some(GetQuietHours(db, u).value.(enabled := false))
    ensures LevelsNotLowered(db, r.0)
  {
    var (db1, found) := DisableQuietHours(db, u);
    if !found then (db, NoQuietHours)
    else match GetPendingStockAlert(db1, u)
      case None => (db1, Disabled)
      case Some(p) =>
        if !ShouldAlert(GetLastStockAlertLevel(db1, u), p.level, p.athPrice) then
          (ClearPendingStockAlert(db1, u), Disabled)
        else if delivered then
          (ClearPendingStockAlert(UpdateStockAlertLevel(db1, u, p.level, p.athPrice, p.athDate), u),
           DisabledAndFlushed(p.level))
        else (db1, Disabled)
  }

  /** A pending alert parked by quiet time is delivered by `quiet:off` when it
      is still due, and then counts as announced. */
  lemma ParkedAlertIsFlushed(db: Db, u: UserId, level: int, info: Snapshot, now: Minute)
    requires ShouldAlert(GetLastStockAlertLevel(db, u), level, info.allTimeHigh)
    requires IsQuietTime(db, u, now)
    ensures var parked := AlertStep(db, u, level, info, now, true);
      && QuietOffGuarded(parked, u, true).1 == DisabledAndFlushed(level)
      && GetLastStockAlertLevel(QuietOffGuarded(parked, u, true).0, u)
         == Some(AlertRecord(level, info.allTimeHigh, info.athDate))
  {
  }

  /** The as-written `quiet:off` can lower the stored level for an unchanged
      peak. A user with quiet hours 22:00-07:00 gets a 7 % alert parked at
      23:00; at 09:00 the drop has reached 8 % and that alert is sent and
      recorded, but the parked 7 % alert stays; pressing `quiet:off` sends the
      stale 7 % alert and records level 7, so the 8 % alert is due again.
      The guarded version keeps level 8 and drops the stale alert. */
  lemma QuietOffLowersLevel()
    ensures var u: UserId := 1;
      var info7 := Snapshot(18600.0, 20000.0, 7.0, "2025-02-19");
      var info8 := Snapshot(18400.0, 20000.0, 8.0, "2025-02-19");
      var db0 := SetQuietHours(AddKeyword(Empty, u, "AI").0, u, 22 * 60, 7 * 60);
      var db1 := AlertStep(db0, u, LevelOf(info7.dropPercentage), info7, 23 * 60, true);
      var db2 := AlertStep(db1, u, LevelOf(info8.dropPercentage), info8, 9 * 60, true);
      var db3 := QuietOff(db2, u, true).0;
      && GetLastStockAlertLevel(db2, u) == Some(AlertRecord(8, 20000.0, "2025-02-19"))
      && GetLastStockAlertLevel(db3, u) == Some(AlertRecord(7, 20000.0, "2025-02-19"))
      && !LevelsNotLowered(db2, db3)
      && ShouldAlert(GetLastStockAlertLevel(db3, u), 8, 20000.0)
      && GetLastStockAlertLevel(QuietOffGuarded(db2, u, true).0, u) == Some(AlertRecord(8, 20000.0, "2025-02-19"))
  {
    var u: UserId := 1;
    var info7 := Snapshot(18600.0, 20000.0, 7.0, "2025-02-19");
    var info8 := Snapshot(18400.0, 20000.0, 8.0, "2025-02-19");
    assert LevelOf(7.0) == 7 && LevelOf(8.0) == 8;
    var db0 := SetQuietHours(AddKeyword(Empty, u, "AI").0, u, 22 * 60, 7 * 60);
    assert IsQuietTime(db0, u, 23 * 60);
    assert !IsQuietTime(db0, u, 9 * 60);
    var db1 := AlertStep(db0, u, 7, info7, 23 * 60, true);
    assert GetPendingStockAlert(db1, u) == Some(PendingAlert(7, 20000.0, "2025-02-19", info7));
    var db2 := AlertStep(db1, u, 8, info8, 9 * 60, true);
    assert GetLastStockAlertLevel(db2, u) == Some(AlertRecord(8, 20000.0, "2025-02-19"));
    assert GetPendingStockAlert(db2, u) == Some(PendingAlert(7, 20000.0, "2025-02-19", info7));
    var db3 := QuietOff(db2, u, true).0;
    assert GetLastStockAlertLevel(db3, u) == Some(AlertRecord(7, 20000.0, "2025-02-19"));
    assert u in db2.alertLevels && db3.alertLevels[u].lastLevel < db2.alertLevels[u].lastLevel;
  }
}
