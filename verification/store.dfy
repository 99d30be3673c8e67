/** The persistent state of the bot (`database.py`), as maps and sets.

    Each table becomes one field of `Db`; a table's uniqueness constraint or
    primary key becomes the key of a set or map, so an `INSERT` that would violate
    it is a no-op that reports failure, and an `INSERT ... ON CONFLICT DO UPDATE`
    is a map update. Every operation is a pure function from the old state to the
    new state (and the value the Python method returns). */
module Store {
  import opened Optional
  import opened Clock

  type UserId = int
  type Keyword = string
  type Url = string

  /** A row of `stock_alert_levels`: the last announced drop level and the peak
      (all-time high) it was measured against. */
  datatype AlertRecord = AlertRecord(lastLevel: int, athPrice: real, athDate: string)

  /** A row of `quiet_hours`. */
  datatype QuietRow = QuietRow(start: Minute, end: Minute, enabled: bool)

  /** The index figures an alert is built from (`nasdaq_info`). */
  datatype Snapshot = Snapshot(currentPrice: real, allTimeHigh: real, dropPercentage: real, athDate: string)

  /** A row of `pending_stock_alerts`: an alert held back by quiet hours. */
  datatype PendingAlert = PendingAlert(level: int, athPrice: real, athDate: string, snapshot: Snapshot)

  datatype Db = Db(
    keywords: set<(UserId, Keyword)>,
    sentNews: set<(UserId, Keyword, Url)>,
    alertLevels: map<UserId, AlertRecord>,
    quietHours: map<UserId, QuietRow>,
    pending: map<UserId, PendingAlert>)

  const Empty: Db := Db({}, {}, map[], map[], map[])

  // ---------------------------------------------------------------- keywords

  /** `get_keywords`: the keywords a user registered. */
  function GetKeywords(db: Db, u: UserId): (r: set<Keyword>)
    ensures forall k :: k in r <==> (u, k) in db.keywords
  {
    set p | p in db.keywords && p.0 == u :: p.1
  }

  /** `add_keyword`: inserts the pair and answers true, or answers false and
      changes nothing when the `UNIQUE(user_id, keyword)` constraint refuses it. */
  function AddKeyword(db: Db, u: UserId, k: Keyword): (r: (Db, bool))
    ensures r.1 <==> (u, k) !in db.keywords
    ensures r.0.keywords == db.keywords + {(u, k)}
    ensures r.0 == db.(keywords := r.0.keywords)
    ensures !r.1 ==> r.0 == db
  {
    if (u, k) in db.keywords then (db, false)
    else (db.(keywords := db.keywords + {(u, k)}), true)
  }

  /** `remove_keyword`: deletes that one pair; true iff a row was deleted. */
  function RemoveKeyword(db: Db, u: UserId, k: Keyword): (r: (Db, bool))
    ensures r.1 <==> (u, k) in db.keywords
    ensures r.0.keywords == db.keywords - {(u, k)}
    ensures r.0 == db.(keywords := r.0.keywords)
  {
    (db.(keywords := db.keywords - {(u, k)}), (u, k) in db.keywords)
  }

  /** `remove_all_keywords`: deletes every keyword of `u` and returns how many
      there were; other users keep theirs. */
  function RemoveAllKeywords(db: Db, u: UserId): (r: (Db, nat))
    ensures r.1 == |GetKeywords(db, u)|
    ensures r.1 == |db.keywords - r.0.keywords|
    ensures r.0.keywords <= db.keywords
    ensures GetKeywords(r.0, u) == {}
    ensures forall v, k :: v != u ==> ((v, k) in r.0.keywords <==> (v, k) in db.keywords)
    ensures r.0 == db.(keywords := r.0.keywords)
  {
    var mine := set p | p in db.keywords && p.0 == u;
    var rest := db.keywords - mine;
    CountOwned(db.keywords, u);
    assert db.keywords - rest == mine;
    (db.(keywords := rest), |GetKeywords(db, u)|)
  }

  /** The pairs owned by `u` are as many as `u`'s keywords. */
  lemma CountOwned(ks: set<(UserId, Keyword)>, u: UserId)
    ensures |set p | p in ks && p.0 == u| == |set p | p in ks && p.0 == u :: p.1|
  {
    var mine := set p | p in ks && p.0 == u;
    var names := set p | p in ks && p.0 == u :: p.1;
    var back := set k | k in names :: (u, k);
    assert mine == back;
    InjectiveImage(names, u);
  }

  lemma InjectiveImage(names: set<Keyword>, u: UserId)
    ensures |set k | k in names :: (u, k)| == |names|
    decreases |names|
  {
    if names != {} {
      var k :| k in names;
      var rest := names - {k};
      InjectiveImage(rest, u);
      assert (set x | x in names :: (u, x)) == (set x | x in rest :: (u, x)) + {(u, k)};
    }
  }

  /** `get_all_users`: the distinct users that hold at least one keyword. */
  function GetAllUsers(db: Db): (r: set<UserId>)
    ensures forall u :: u in r <==> GetKeywords(db, u) != {}
  {
    var r := set p | p in db.keywords :: p.0;
    assert forall u :: u in r ==> GetKeywords(db, u) != {} by {
      forall u | u in r ensures GetKeywords(db, u) != {} {
        var p :| p in db.keywords && p.0 == u;
        assert p.1 in GetKeywords(db, u);
      }
    }
    r
  }

  // ---------------------------------------------------------------- sent news

  /** `is_news_sent`. */
  predicate IsNewsSent(db: Db, u: UserId, k: Keyword, url: Url) {
    (u, k, url) in db.sentNews
  }

  /** `mark_news_sent`: records the triple; false and no change when the
      `UNIQUE(user_id, keyword, url)` constraint refuses a second record. */
  function MarkNewsSent(db: Db, u: UserId, k: Keyword, url: Url): (r: (Db, bool))
    ensures r.1 <==> !IsNewsSent(db, u, k, url)
    ensures IsNewsSent(r.0, u, k, url)
    ensures forall v, k', url' :: IsNewsSent(r.0, v, k', url') <==>
      IsNewsSent(db, v, k', url') || (v, k', url') == (u, k, url)
    ensures r.0 == db.(sentNews := r.0.sentNews)
    ensures !r.1 ==> r.0 == db
  {
    if (u, k, url) in db.sentNews then (db, false)
    else (db.(sentNews := db.sentNews + {(u, k, url)}), true)
  }

  // ---------------------------------------------------------------- alert levels

  /** `get_last_stock_alert_level`: the user's row, or `None` without one. */
  function GetLastStockAlertLevel(db: Db, u: UserId): (r: Option<AlertRecord>)
    ensures r.Some? <==> u in db.alertLevels
    ensures r.Some? ==> r.value == db.alertLevels[u]
  {
    if u in db.alertLevels then Some(db.alertLevels[u]) else None
  }

  /** `update_stock_alert_level`: insert-or-replace of the user's row. */
  function UpdateStockAlertLevel(db: Db, u: UserId, level: int, athPrice: real, athDate: string): (r: Db)
    ensures GetLastStockAlertLevel(r, u) == Some(AlertRecord(level, athPrice, athDate))
    ensures forall v :: v != u ==> GetLastStockAlertLevel(r, v) == GetLastStockAlertLevel(db, v)
    ensures r == db.(alertLevels := r.alertLevels)
  {
    db.(alertLevels := db.alertLevels[u := AlertRecord(level, athPrice, athDate)])
  }

  // ---------------------------------------------------------------- quiet hours

  /** `get_quiet_hours`: the user's row, enabled or not, or `None` without one. */
  function GetQuietHours(db: Db, u: UserId): (r: Option<QuietRow>)
    ensures r.Some? <==> u in db.quietHours
    ensures r.Some? ==> r.value == db.quietHours[u]
  {
    if u in db.quietHours then Some(db.quietHours[u]) else None
  }

  /** `set_quiet_hours`: insert-or-replace, always enabled. */
  function SetQuietHours(db: Db, u: UserId, start: Minute, end: Minute): (r: Db)
    ensures GetQuietHours(r, u) == Some(QuietRow(start, end, true))
    ensures forall v :: v != u ==> GetQuietHours(r, v) == GetQuietHours(db, v)
    ensures r == db.(quietHours := r.quietHours)
  {
    db.(quietHours := db.quietHours[u := QuietRow(start, end, true)])
  }

  /** `disable_quiet_hours`: clears `enabled` of an existing row only; true iff
      the row exists. */
  function DisableQuietHours(db: Db, u: UserId): (r: (Db, bool))
    ensures r.1 <==> GetQuietHours(db, u).Some?
    ensures r.1 ==> GetQuietHours(r.0, u) == Some(GetQuietHours(db, u).value.(enabled := false))
    ensures !r.1 ==> r.0 == db
    ensures forall v :: v != u ==> GetQuietHours(r.0, v) == GetQuietHours(db, v)
    ensures r.0 == db.(quietHours := r.0.quietHours)
  {
    if u in db.quietHours then (db.(quietHours := db.quietHours[u := db.quietHours[u].(enabled := false)]), true)
    else (db, false)
  }

  /** `enable_quiet_hours`: sets `enabled` of an existing row only; true iff the
      row exists. */
  function EnableQuietHours(db: Db, u: UserId): (r: (Db, bool))
    ensures r.1 <==> GetQuietHours(db, u).Some?
    ensures r.1 ==> GetQuietHours(r.0, u) == Some(GetQuietHours(db, u).value.(enabled := true))
    ensures !r.1 ==> r.0 == db
    ensures forall v :: v != u ==> GetQuietHours(r.0, v) == GetQuietHours(db, v)
    ensures r.0 == db.(quietHours := r.0.quietHours)
  {
    if u in db.quietHours then (db.(quietHours := db.quietHours[u := db.quietHours[u].(enabled := true)]), true)
    else (db, false)
  }

  // ---------------------------------------------------------------- pending alerts

  /** `get_pending_stock_alert`: the user's parked alert, or `None` without one. */
  function GetPendingStockAlert(db: Db, u: UserId): (r: Option<PendingAlert>)
    ensures r.Some? <==> u in db.pending
    ensures r.Some? ==> r.value == db.pending[u]
  {
    if u in db.pending then Some(db.pending[u]) else None
  }

  /** `set_pending_stock_alert`: at most one per user; a new one replaces it. */
  function SetPendingStockAlert(db: Db, u: UserId, p: PendingAlert): (r: Db)
    ensures GetPendingStockAlert(r, u) == Some(p)
    ensures forall v :: v != u ==> GetPendingStockAlert(r, v) == GetPendingStockAlert(db, v)
    ensures r == db.(pending := r.pending)
  {
    db.(pending := db.pending[u := p])
  }

  /** `clear_pending_stock_alert`. */
  function ClearPendingStockAlert(db: Db, u: UserId): (r: Db)
    ensures GetPendingStockAlert(r, u) == None
    ensures forall v :: v != u ==> GetPendingStockAlert(r, v) == GetPendingStockAlert(db, v)
    ensures r == db.(pending := r.pending)
  {
    db.(pending := db.pending - {u})
  }

  // ---------------------------------------------------------------- laws relating operations

  /** Adding a new keyword and removing it again restores the state. */
  lemma AddRemoveRoundTrip(db: Db, u: UserId, k: Keyword)
    requires (u, k) !in db.keywords
    ensures RemoveKeyword(AddKeyword(db, u, k).0, u, k) == (db, true)
  {
    assert db.keywords + {(u, k)} - {(u, k)} == db.keywords;
  }

  /** A user who adds a keyword is among `get_all_users`; removing all of a
      user's keywords takes them out and leaves the other users in. */
  lemma AllUsersFollowKeywords(db: Db, u: UserId, k: Keyword)
    ensures GetAllUsers(AddKeyword(db, u, k).0) == GetAllUsers(db) + {u}
    ensures GetAllUsers(RemoveAllKeywords(db, u).0) == GetAllUsers(db) - {u}
  {
    AddedUserListed(db, u, k);
    ClearedUserUnlisted(db, u);
  }

  lemma AddedUserListed(db: Db, u: UserId, k: Keyword)
    ensures GetAllUsers(AddKeyword(db, u, k).0) == GetAllUsers(db) + {u}
  {
    var added := AddKeyword(db, u, k).0;
    assert k in GetKeywords(added, u);
    forall v ensures v in GetAllUsers(added) <==> v in GetAllUsers(db) + {u} {
      if v != u {
        assert GetKeywords(added, v) == GetKeywords(db, v);
      }
    }
  }

  lemma ClearedUserUnlisted(db: Db, u: UserId)
    ensures GetAllUsers(RemoveAllKeywords(db, u).0) == GetAllUsers(db) - {u}
  {
    var cleared := RemoveAllKeywords(db, u).0;
    forall v ensures v in GetAllUsers(cleared) <==> v in GetAllUsers(db) - {u} {
      if v != u {
        assert GetKeywords(cleared, v) == GetKeywords(db, v);
      }
    }
  }

  /** Marking a triple twice: the second call reports false and changes nothing. */
  lemma MarkTwice(db: Db, u: UserId, k: Keyword, url: Url)
    ensures MarkNewsSent(MarkNewsSent(db, u, k, url).0, u, k, url) == (MarkNewsSent(db, u, k, url).0, false)
  {
  }

  /** A pending alert replaced by a later one leaves only the later one. */
  lemma PendingOverwrite(db: Db, u: UserId, p: PendingAlert, q: PendingAlert)
    ensures SetPendingStockAlert(SetPendingStockAlert(db, u, p), u, q) == SetPendingStockAlert(db, u, q)
  {
  }

  /** Setting quiet hours and then disabling them keeps the times and only turns
      `enabled` off. */
  lemma SetThenDisable(db: Db, u: UserId, start: Minute, end: Minute)
    ensures DisableQuietHours(SetQuietHours(db, u, start, end), u).1
    ensures GetQuietHours(DisableQuietHours(SetQuietHours(db, u, start, end), u).0, u)
      == Some(QuietRow(start, end, false))
  {
  }
}
