/** `is_quiet_time` (bot.py): whether automatic notifications to a user are
    suppressed at a given time of day. The clock is a parameter. */
module QuietHours {
  import opened Optional
  import opened Text
  import opened Clock
  import opened Store

  /** `now` lies on the clockwise arc of the 24-hour dial that runs from `start`
      to `end`, both ends included. This is the meaning of a quiet window whether
      or not it wraps past midnight. */
  predicate OnArc(start: Minute, end: Minute, now: Minute) {
    (now - start) % MinutesPerDay <= (end - start) % MinutesPerDay
  }

  /** `is_quiet_time`: no row or a disabled row means "not quiet"; otherwise a
      window with `start <= end` holds the times between the two, bounds
      included, and one with `start > end` runs overnight. */
  function IsQuietTime(db: Db, u: UserId, now: Minute): (r: bool)
    ensures r <==> && GetQuietHours(db, u).Some?
                   && GetQuietHours(db, u).value.enabled
                   && OnArc(GetQuietHours(db, u).value.start, GetQuietHours(db, u).value.end, now)
  {
    match GetQuietHours(db, u)
    case None => false
    case Some(row) =>
      if !row.enabled then false
      else if row.start <= row.end then row.start <= now <= row.end
      else now >= row.start || now <= row.end
  }

  /** The comparison exactly as the source writes it, on `"HH:MM"` strings. */
  predicate IsQuietText(start: string, end: string, now: string) {
    if LexLe(start, end) then LexLe(start, now) && LexLe(now, end)
    else LexLe(start, now) || LexLe(now, end)
  }

  /** On the strings `strftime('%H:%M')` produces, the string comparison and the
      minutes comparison decide quiet time the same way. */
  lemma QuietTextAgrees(db: Db, u: UserId, now: Minute)
    requires GetQuietHours(db, u).Some? && GetQuietHours(db, u).value.enabled
    ensures IsQuietTime(db, u, now) ==
      IsQuietText(Format(GetQuietHours(db, u).value.start), Format(GetQuietHours(db, u).value.end), Format(now))
  {
    var row := GetQuietHours(db, u).value;
    FormatOrder(row.start, row.end);
    FormatOrder(row.start, now);
    FormatOrder(now, row.end);
  }

  /** Nothing is quiet for a user without a row or whose row is disabled. */
  lemma NoRowNotQuiet(db: Db, u: UserId, now: Minute)
    requires GetQuietHours(db, u).None? || !GetQuietHours(db, u).value.enabled
    ensures !IsQuietTime(db, u, now)
  {
  }

  /** Right after `set_quiet_hours(start, end)` the bounds themselves are quiet,
      and after `disable_quiet_hours` nothing is. */
  lemma SetAndDisableDecideQuiet(db: Db, u: UserId, start: Minute, end: Minute, now: Minute)
    ensures IsQuietTime(SetQuietHours(db, u, start, end), u, start)
    ensures IsQuietTime(SetQuietHours(db, u, start, end), u, end)
    ensures !IsQuietTime(DisableQuietHours(db, u).0, u, now)
  {
  }
}
