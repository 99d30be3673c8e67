/** The news-delivery ledger of the bot (bot.py): which fetched articles a
    user is sent for a keyword, and when they are recorded in `sent_news` so
    they are not sent again. Fetching is a parameter (the crawler's answer
    for a keyword), and so is whether the chat API delivered a message (the
    result of `send_message_to_user`, see `Dispatch`). */
module NewsLedger {
  import opened Clock
  import opened Store
  import opened QuietHours
  import opened Sequences
  import opened Crawler

  /** Some item of `items` has address `url`. */
  predicate HasUrl(items: seq<NewsItem>, url: Url) {
    exists i :: 0 <= i < |items| && items[i].url == url
  }

  /** The loop building `new_news`: the fetched items whose
      (user, keyword, url) is not yet recorded, in fetched order. */
  function FilterUnseen(db: Db, u: UserId, k: Keyword, items: seq<NewsItem>): (r: seq<NewsItem>)
    ensures IsSubsequence(r, items)
    ensures forall n :: n in r ==> !IsNewsSent(db, u, k, n.url)
    ensures forall i :: 0 <= i < |items| && !IsNewsSent(db, u, k, items[i].url) ==> items[i] in r
    decreases |items|
  {
    if items == [] then []
    else
      var init := items[..|items| - 1];
      var last := items[|items| - 1];
      var rest := FilterUnseen(db, u, k, init);
      assert init + [last] == items;
      var r := if !IsNewsSent(db, u, k, last.url) then rest + [last] else rest;
      assert IsSubsequence(r, items) by {
        if !IsNewsSent(db, u, k, last.url) {
          SubsequenceAppendBoth(rest, init, last);
        } else {
          SubsequenceExtend(rest, init, last);
        }
      }
      forall i | 0 <= i < |items| && !IsNewsSent(db, u, k, items[i].url) ensures items[i] in r {
        if i < |init| {
          assert items[i] == init[i];
        }
      }
      r
  }

  /** The loop calling `mark_news_sent` for every item of a delivered message. */
  function MarkAll(db: Db, u: UserId, k: Keyword, items: seq<NewsItem>): (r: Db)
    ensures forall v, k', url :: IsNewsSent(r, v, k', url) <==>
              IsNewsSent(db, v, k', url) || (v == u && k' == k && HasUrl(items, url))
    ensures r == db.(sentNews := r.sentNews)
    decreases |items|
  {
    if items == [] then db
    else
      var rest := MarkAll(MarkNewsSent(db, u, k, items[0].url).0, u, k, items[1..]);
      assert forall url :: HasUrl(items, url) <==> items[0].url == url || HasUrl(items[1..], url) by {
        forall url | HasUrl(items, url) && items[0].url != url
          ensures HasUrl(items[1..], url)
        {
          var i :| 0 <= i < |items| && items[i].url == url;
          assert items[1..][i - 1] == items[i];
        }
        forall url | HasUrl(items[1..], url)
          ensures HasUrl(items, url)
        {
          var i :| 0 <= i < |items[1..]| && items[1..][i].url == url;
          assert items[i + 1] == items[1..][i];
        }
      }
      rest
  }

  /** What one check told the user. */
  datatype Notice =
    | Skipped                                   // quiet time, nothing fetched
    | NothingFound                              // manual check, empty fetch: a warning is sent
    | Silent                                    // nothing to say
    | Fresh(items: seq<NewsItem>, ok: bool)     // the unseen items, and whether the message got through
    | AlreadySeen(items: seq<NewsItem>)         // manual check, nothing new: the whole list again

  /** The check goes ahead: a manual check always, an automatic one outside
      quiet time. */
  predicate Proceeds(db: Db, u: UserId, manual: bool, now: Minute) {
    manual || !IsQuietTime(db, u, now)
  }

  /** `_check_news_for_keyword`: `fetched` is what the crawler returned,
      `delivered` what the send of the resulting message returned. */
  function CheckNewsForKeyword(db: Db, u: UserId, k: Keyword, manual: bool, now: Minute,
                               fetched: seq<NewsItem>, delivered: bool): (r: (Db, Notice))
    ensures !Proceeds(db, u, manual, now) ==> r == (db, Skipped)
    ensures r.0 == db.(sentNews := r.0.sentNews)
    ensures forall v, k', url :: IsNewsSent(r.0, v, k', url) <==>
              IsNewsSent(db, v, k', url)
              || (v == u && k' == k && Proceeds(db, u, manual, now) && delivered && HasUrl(fetched, url))
    ensures r.0 != db ==> r.1.Fresh? && r.1.ok
    ensures r.1.Fresh? ==> r.1.items == FilterUnseen(db, u, k, fetched) && r.1.items != [] && r.1.ok == delivered
    ensures r.1.Fresh? && !r.1.ok ==> r.0 == db
    ensures Proceeds(db, u, manual, now) && FilterUnseen(db, u, k, fetched) != [] ==> r.1.Fresh?
    ensures manual && fetched == [] ==> r == (db, NothingFound)
    ensures manual && fetched != [] && FilterUnseen(db, u, k, fetched) == [] ==> r == (db, AlreadySeen(fetched))
    ensures !manual && Proceeds(db, u, manual, now) && FilterUnseen(db, u, k, fetched) == [] ==> r == (db, Silent)
  {
    if !manual && IsQuietTime(db, u, now) then (db, Skipped)
    else if fetched == [] then (if manual then (db, NothingFound) else (db, Silent))
    else
      var unseen := FilterUnseen(db, u, k, fetched);
      AllSeenWhenNoneFresh(db, u, k, fetched, unseen);
      if unseen != [] then
        if delivered then
          var db' := MarkAll(db, u, k, unseen);
          MarkingFreshMarksAll(db, u, k, fetched, unseen, db');
          (db', Fresh(unseen, true))
        else (db, Fresh(unseen, false))
      else if manual then (db, AlreadySeen(fetched))
      else (db, Silent)
  }

  /** When nothing is unseen, every fetched url is already recorded. */
  lemma AllSeenWhenNoneFresh(db: Db, u: UserId, k: Keyword, fetched: seq<NewsItem>, unseen: seq<NewsItem>)
    requires unseen == FilterUnseen(db, u, k, fetched)
    ensures unseen == [] ==> forall url :: HasUrl(fetched, url) ==> IsNewsSent(db, u, k, url)
  {
  }

  /** Recording the unseen items records every fetched url: the others were
      recorded already. */
  lemma MarkingFreshMarksAll(db: Db, u: UserId, k: Keyword, fetched: seq<NewsItem>, unseen: seq<NewsItem>, db': Db)
    requires unseen == FilterUnseen(db, u, k, fetched)
    requires db' == MarkAll(db, u, k, unseen)
    ensures forall v, k', url :: IsNewsSent(db', v, k', url) <==>
              IsNewsSent(db, v, k', url) || (v == u && k' == k && HasUrl(fetched, url))
  {
    SubsequenceElements(unseen, fetched);
    forall url | HasUrl(unseen, url)
      ensures HasUrl(fetched, url)
    {
      var i :| 0 <= i < |unseen| && unseen[i].url == url;
      assert unseen[i] in fetched;
    }
    forall url | HasUrl(fetched, url) && !IsNewsSent(db, u, k, url)
      ensures HasUrl(unseen, url)
    {
      var i :| 0 <= i < |fetched| && fetched[i].url == url;
      assert fetched[i] in unseen;
    }
  }

  /** `_send_news_to_user`: the automatic path used by the scheduled cycle,
      with the crawler's list fetched once per keyword. */
  function SendNewsToUser(db: Db, u: UserId, k: Keyword, news: seq<NewsItem>, now: Minute, delivered: bool): (r: (Db, Notice))
    ensures IsQuietTime(db, u, now) ==> r == (db, Skipped)
    ensures r.0 == db.(sentNews := r.0.sentNews)
    ensures r.1.Fresh? ==> r.1.items == FilterUnseen(db, u, k, news) && r.1.items != [] && r.1.ok == delivered
    ensures r.0 != db ==> r.1.Fresh? && r.1.ok
  {
    if IsQuietTime(db, u, now) then (db, Skipped)
    else
      var unseen := FilterUnseen(db, u, k, news);
      if unseen != [] then
        if delivered then (MarkAll(db, u, k, unseen), Fresh(unseen, true))
        else (db, Fresh(unseen, false))
      else (db, Silent)
  }

  /** The two copies of the logic agree: an automatic check of a keyword
      leaves the ledger as `_send_news_to_user` does with the same list. */
  lemma AutomaticCheckMatchesSend(db: Db, u: UserId, k: Keyword, now: Minute, fetched: seq<NewsItem>, delivered: bool)
    ensures CheckNewsForKeyword(db, u, k, false, now, fetched, delivered).0 == SendNewsToUser(db, u, k, fetched, now, delivered).0
    ensures CheckNewsForKeyword(db, u, k, false, now, fetched, delivered).1 == SendNewsToUser(db, u, k, fetched, now, delivered).1
  {
  }

  /** An article delivered for a keyword is never part of a later unseen
      batch for that user and keyword, whatever the later fetch returns. */
  lemma DeliveredNotRepeated(db: Db, u: UserId, k: Keyword, m1: bool, m2: bool, t1: Minute, t2: Minute,
                             f1: seq<NewsItem>, f2: seq<NewsItem>, d2: bool)
    requires CheckNewsForKeyword(db, u, k, m1, t1, f1, true).1.Fresh?
    ensures var (db1, n1) := CheckNewsForKeyword(db, u, k, m1, t1, f1, true);
            var n2 := CheckNewsForKeyword(db1, u, k, m2, t2, f2, d2).1;
            n2.Fresh? ==> forall x, y :: x in n1.items && y in n2.items ==> x.url != y.url
  {
    var (db1, n1) := CheckNewsForKeyword(db, u, k, m1, t1, f1, true);
    SubsequenceElements(n1.items, f1);
    forall x | x in n1.items
      ensures IsNewsSent(db1, u, k, x.url)
    {
      var i :| 0 <= i < |f1| && f1[i] == x;
      assert HasUrl(f1, x.url);
    }
  }

  /** The unseen filter is idempotent. */
  lemma FilterUnseenIdempotent(db: Db, u: UserId, k: Keyword, items: seq<NewsItem>)
    ensures FilterUnseen(db, u, k, FilterUnseen(db, u, k, items)) == FilterUnseen(db, u, k, items)
  {
    KeepAllUnseen(db, u, k, FilterUnseen(db, u, k, items));
  }

  /** A list of unrecorded items passes the filter whole. */
  lemma {:induction false} KeepAllUnseen(db: Db, u: UserId, k: Keyword, items: seq<NewsItem>)
    requires forall n :: n in items ==> !IsNewsSent(db, u, k, n.url)
    ensures FilterUnseen(db, u, k, items) == items
    decreases |items|
  {
    if items != [] {
      var init := items[..|items| - 1];
      assert forall n :: n in init ==> n in items;
      KeepAllUnseen(db, u, k, init);
      var last := items[|items| - 1];
      assert !IsNewsSent(db, u, k, last.url);
      assert FilterUnseen(db, u, k, items) == FilterUnseen(db, u, k, init) + [last];
      assert init + [last] == items;
    }
  }

  /** The filter keeps every unrecorded item as often as it occurs and drops
      every recorded one. */
  lemma {:induction false} FilterUnseenCounts(db: Db, u: UserId, k: Keyword, items: seq<NewsItem>)
    ensures forall n :: multiset(FilterUnseen(db, u, k, items))[n] ==
              (if IsNewsSent(db, u, k, n.url) then 0 else multiset(items)[n])
    decreases |items|
  {
    if items != [] {
      var init := items[..|items| - 1];
      var last := items[|items| - 1];
      FilterUnseenCounts(db, u, k, init);
      assert items == init + [last];
      assert multiset(items) == multiset(init) + multiset{last};
    }
  }

  // ---------------------------------------------------------------- per user

  /** `check_news_for_user`: every keyword of the user in the order the
      database lists them; `fetch(k)` and `delivered(k)` are the crawler's
      list and the send result for keyword `k`, and `now(k)` is the clock
      reading `is_quiet_time` takes when keyword `k` is checked. */
  function CheckNewsForUser(db: Db, u: UserId, manual: bool, now: Keyword -> Minute, order: seq<Keyword>,
                            fetch: Keyword -> seq<NewsItem>, delivered: Keyword -> bool): (r: (Db, seq<Notice>))
    ensures |r.1| == |order|
    ensures r.0 == db.(sentNews := r.0.sentNews)
    ensures forall v, k, url :: IsNewsSent(r.0, v, k, url) <==>
              IsNewsSent(db, v, k, url)
              || (v == u && k in order && Proceeds(db, u, manual, now(k)) && delivered(k) && HasUrl(fetch(k), url))
    decreases |order|
  {
    if order == [] then (db, [])
    else
      var k := order[0];
      var (db1, notice) := CheckNewsForKeyword(db, u, k, manual, now(k), fetch(k), delivered(k));
      var (db2, rest) := CheckNewsForUser(db1, u, manual, now, order[1..], fetch, delivered);
      assert db1.quietHours == db.quietHours;
      forall v, k', url ensures IsNewsSent(db2, v, k', url) <==>
          IsNewsSent(db, v, k', url)
          || (v == u && k' in order && Proceeds(db, u, manual, now(k')) && delivered(k') && HasUrl(fetch(k'), url))
      {
        assert Proceeds(db1, u, manual, now(k')) == Proceeds(db, u, manual, now(k'));
        assert k' in order <==> k' == k || k' in order[1..];
      }
      (db2, [notice] + rest)
  }

  /** With the keyword list `get_keywords` returns (each of the user's
      keywords once), the check answers once per keyword the user follows and
      records news for exactly the user's registered keywords. */
  lemma CheckNewsForUserAllKeywords(db: Db, u: UserId, manual: bool, now: Keyword -> Minute, order: seq<Keyword>,
                                    fetch: Keyword -> seq<NewsItem>, delivered: Keyword -> bool)
    requires Distinct(order)
    requires forall k :: k in order <==> k in GetKeywords(db, u)
    ensures var r := CheckNewsForUser(db, u, manual, now, order, fetch, delivered);
      && |r.1| == |GetKeywords(db, u)|
      && forall v, k, url :: IsNewsSent(r.0, v, k, url) <==>
           IsNewsSent(db, v, k, url)
           || (v == u && (u, k) in db.keywords && Proceeds(db, u, manual, now(k)) && delivered(k) && HasUrl(fetch(k), url))
  {
    assert (set x | x in order) == GetKeywords(db, u);
    DistinctCard(order);
  }

  // ---------------------------------------------------------------- scheduled cycle

  /** The groups `check_news_updates` builds with `defaultdict(list)`. */
  type Groups = seq<(Keyword, seq<UserId>)>

  /** `v` is listed under keyword `k`. */
  predicate InGroups(g: Groups, v: UserId, k: Keyword) {
    exists i :: 0 <= i < |g| && g[i].0 == k && v in g[i].1
  }

  /** No keyword has two groups. */
  predicate KeysUnique(g: Groups) {
    forall i, j :: 0 <= i < j < |g| ==> g[i].0 != g[j].0
  }

  function KeySet(g: Groups): set<Keyword> {
    set i | 0 <= i < |g| :: g[i].0
  }

  lemma InGroupsCons(g: Groups, v: UserId, k: Keyword)
    requires g != []
    ensures InGroups(g, v, k) <==> (g[0].0 == k && v in g[0].1) || InGroups(g[1..], v, k)
  {
    if InGroups(g, v, k) {
      var i :| 0 <= i < |g| && g[i].0 == k && v in g[i].1;
      if i > 0 {
        assert g[1..][i - 1] == g[i];
      }
    }
    if InGroups(g[1..], v, k) {
      var i :| 0 <= i < |g[1..]| && g[1..][i].0 == k && v in g[1..][i].1;
      assert g[i + 1] == g[1..][i];
    }
  }

  lemma KeySetCons(g: Groups)
    requires g != []
    ensures KeySet(g) == {g[0].0} + KeySet(g[1..])
  {
    forall x | x in KeySet(g) ensures x in {g[0].0} + KeySet(g[1..]) {
      var i :| 0 <= i < |g| && g[i].0 == x;
      if i > 0 { assert g[1..][i - 1].0 == x; }
    }
    forall x | x in KeySet(g[1..]) ensures x in KeySet(g) {
      var i :| 0 <= i < |g[1..]| && g[1..][i].0 == x;
      assert g[i + 1].0 == x;
    }
  }

  lemma HeadKeyNotInTail(g: Groups)
    requires g != [] && KeysUnique(g)
    ensures g[0].0 !in KeySet(g[1..])
  {
    forall x | 0 <= x < |g[1..]| ensures g[1..][x].0 != g[0].0 {
      assert g[1..][x] == g[x + 1];
    }
  }

  /** `keyword_users[keyword].append(user_id)`: append to the keyword's group,
      or open a new group at the end. */
  function AddToGroup(g: Groups, u: UserId, k: Keyword): (r: Groups)
    requires KeysUnique(g)
    ensures KeysUnique(r)
    ensures KeySet(r) == KeySet(g) + {k}
    ensures forall v, k' :: InGroups(r, v, k') <==> InGroups(g, v, k') || (v, k') == (u, k)
    decreases |g|
  {
    if g == [] then
      var r := [(k, [u])];
      assert forall v, k' :: InGroups(r, v, k') <==> (v, k') == (u, k) by {
        forall v, k' | (v, k') == (u, k) ensures InGroups(r, v, k') {
          assert r[0].0 == k' && v in r[0].1;
        }
      }
      assert KeySet(r) == {k} by {
        assert r[0].0 == k;
      }
      r
    else if g[0].0 == k then
      var r := [(k, g[0].1 + [u])] + g[1..];
      assert r[1..] == g[1..];
      forall v, k' ensures InGroups(r, v, k') <==> InGroups(g, v, k') || (v, k') == (u, k) {
        InGroupsCons(r, v, k');
        InGroupsCons(g, v, k');
      }
      KeySetCons(g);
      KeySetCons(r);
      assert forall i, j :: 0 <= i < j < |r| ==> r[i].0 == g[i].0 && r[j].0 == g[j].0;
      r
    else
      var rest := AddToGroup(g[1..], u, k);
      var r := [g[0]] + rest;
      assert r[1..] == rest;
      forall v, k' ensures InGroups(r, v, k') <==> InGroups(g, v, k') || (v, k') == (u, k) {
        InGroupsCons(r, v, k');
        InGroupsCons(g, v, k');
      }
      KeySetCons(g);
      KeySetCons(r);
      HeadKeyNotInTail(g);
      UniqueCons(r);
      r
  }

  lemma UniqueCons(r: Groups)
    requires r != [] && KeysUnique(r[1..]) && r[0].0 !in KeySet(r[1..])
    ensures KeysUnique(r)
  {
    forall i, j | 0 <= i < j < |r| ensures r[i].0 != r[j].0 {
      assert r[j] == r[1..][j - 1];
      if i > 0 {
        assert r[i] == r[1..][i - 1];
      }
    }
  }

  /** The whole grouping loop, over the pairs in the order the database
      returns them. */
  function GroupByKeyword(pairs: seq<(UserId, Keyword)>): (r: Groups)
    ensures KeysUnique(r)
    ensures forall v, k :: (v, k) in pairs <==> InGroups(r, v, k)
    decreases |pairs|
  {
    if pairs == [] then []
    else
      var init := pairs[..|pairs| - 1];
      var (u, k) := pairs[|pairs| - 1];
      assert pairs == init + [(u, k)];
      AddToGroup(GroupByKeyword(init), u, k)
  }

  /** The ledger after `_send_news_to_user`: the fetched urls are recorded
      exactly when the user is outside quiet time and the message got through. */
  lemma SendLedger(db: Db, u: UserId, k: Keyword, news: seq<NewsItem>, now: Minute, delivered: bool)
    ensures var r := SendNewsToUser(db, u, k, news, now, delivered).0;
      forall v, k', url :: IsNewsSent(r, v, k', url) <==>
        IsNewsSent(db, v, k', url) || (v == u && k' == k && !IsQuietTime(db, u, now) && delivered && HasUrl(news, url))
  {
    AutomaticCheckMatchesSend(db, u, k, now, news, delivered);
  }

  /** Sending one keyword's list to each user of its group. `now(v, k)` is
      the clock reading `is_quiet_time` takes when `v` is sent keyword `k`'s
      list: the clock is read once per send, not once per cycle. */
  function SendToGroup(db: Db, k: Keyword, users: seq<UserId>, news: seq<NewsItem>, now: (UserId, Keyword) -> Minute,
                       delivered: (UserId, Keyword) -> bool): (r: Db)
    ensures r == db.(sentNews := r.sentNews)
    ensures forall v, k', url :: IsNewsSent(r, v, k', url) <==>
              IsNewsSent(db, v, k', url)
              || (v in users && k' == k && !IsQuietTime(db, v, now(v, k)) && delivered(v, k) && HasUrl(news, url))
    decreases |users|
  {
    if users == [] then db
    else
      var u := users[0];
      var db1 := SendNewsToUser(db, u, k, news, now(u, k), delivered(u, k)).0;
      SendLedger(db, u, k, news, now(u, k), delivered(u, k));
      var r := SendToGroup(db1, k, users[1..], news, now, delivered);
      assert db1.quietHours == db.quietHours;
      forall v, k', url ensures IsNewsSent(r, v, k', url) <==>
          IsNewsSent(db, v, k', url)
          || (v in users && k' == k && !IsQuietTime(db, v, now(v, k)) && delivered(v, k) && HasUrl(news, url))
      {
        assert IsQuietTime(db1, v, now(v, k)) == IsQuietTime(db, v, now(v, k));
        assert v in users <==> v == u || v in users[1..];
      }
      r
  }

  /** The loop over the groups: fetch once per keyword, skip an empty list. */
  function SendToGroups(db: Db, groups: Groups, now: (UserId, Keyword) -> Minute, fetch: Keyword -> seq<NewsItem>,
                        delivered: (UserId, Keyword) -> bool): (r: Db)
    ensures r == db.(sentNews := r.sentNews)
    ensures forall v, k, url :: IsNewsSent(r, v, k, url) <==>
              IsNewsSent(db, v, k, url)
              || (InGroups(groups, v, k) && !IsQuietTime(db, v, now(v, k)) && delivered(v, k) && HasUrl(fetch(k), url))
    decreases |groups|
  {
    if groups == [] then db
    else
      var (k, users) := groups[0];
      var news := fetch(k);
      var db1 := if news == [] then db else SendToGroup(db, k, users, news, now, delivered);
      forall v, k' ensures InGroups(groups, v, k') <==> (k' == k && v in users) || InGroups(groups[1..], v, k') {
        InGroupsCons(groups, v, k');
      }
      SendToGroups(db1, groups[1..], now, fetch, delivered)
  }

  /** `check_news_updates` (without the clean-up of old records): every
      user following a keyword, outside quiet time, whose message got
      through, has every fetched article of that keyword recorded; nothing
      else changes. */
  function NewsCycle(db: Db, pairs: seq<(UserId, Keyword)>, now: (UserId, Keyword) -> Minute, fetch: Keyword -> seq<NewsItem>,
                     delivered: (UserId, Keyword) -> bool): (r: Db)
    ensures r == db.(sentNews := r.sentNews)
    ensures forall v, k, url :: IsNewsSent(r, v, k, url) <==>
              IsNewsSent(db, v, k, url)
              || ((v, k) in pairs && !IsQuietTime(db, v, now(v, k)) && delivered(v, k) && HasUrl(fetch(k), url))
  {
    SendToGroups(db, GroupByKeyword(pairs), now, fetch, delivered)
  }

  /** With the pairs `get_all_user_keywords` returns (the registered
      (user, keyword) rows), the cycle records news for exactly the
      registered pairs. */
  lemma NewsCycleRegisteredPairs(db: Db, pairs: seq<(UserId, Keyword)>, now: (UserId, Keyword) -> Minute,
                                 fetch: Keyword -> seq<NewsItem>, delivered: (UserId, Keyword) -> bool)
    requires forall p :: p in pairs <==> p in db.keywords
    ensures var r := NewsCycle(db, pairs, now, fetch, delivered);
      forall v, k, url :: IsNewsSent(r, v, k, url) <==>
        IsNewsSent(db, v, k, url)
        || (k in GetKeywords(db, v) && !IsQuietTime(db, v, now(v, k)) && delivered(v, k) && HasUrl(fetch(k), url))
  {
  }
}
