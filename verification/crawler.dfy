/** `NaverNewsCrawler` (news_crawler.py): turning the search API's answer into
    news items, and the near-duplicate filter. The HTTP request, the HTML
    scraping of a full title, the date parser and `SequenceMatcher` are
    parameters; the model fixes what the crawler does with their answers. */
module Crawler {
  import opened Optional
  import opened Text
  import opened Sequences
  import opened Sources

  /** One article as the bot passes it around (`title`, `url`, `source`, `date`). */
  datatype NewsItem = NewsItem(title: string, url: string, source: string, date: string)

  /** One entry of the API's `items`, with tags already removed from `title`
      and `description`. `link` is `None` when the entry has no `link` key. */
  datatype ApiItem = ApiItem(title: string, description: string, link: Option<string>,
                             originalLink: string, pubDate: string)

  /** What the crawler asks the outside world while parsing:
      `fullTitle(url)` is `_fetch_full_title` (`None` on any failure),
      `hostOf(link)` is `urlparse(link).netloc` (`None` if it raises), and
      `tooOld(pubDate)` says the date parsed and lies more than 30 days back
      (an unparsable date is kept, so `tooOld` is false for it), and
      `outlet(originalLink, host, description)` names the outlet. The
      program's `outlet` is `LabelBy(FirstKey)`. */
  datatype Env = Env(fullTitle: string -> Option<string>,
                     hostOf: string -> Option<string>,
                     tooOld: string -> bool,
                     outlet: (string, Option<string>, string) -> string)

  /** The outlet labeller with the given domain-table lookup. */
  function LabelBy(lookup: Lookup): (string, Option<string>, string) -> string {
    (originalLink, host, description) => SourceLabelBy(lookup, originalLink, host, description)
  }

  /** The API's `display` is capped at 100. */
  const ApiMaxDisplay: nat := 100
  /** `search_news` fetches three times the number it wants to return. */
  const FetchFactor: nat := 3
  /** The similarity at or above which `search_news` drops a later title. */
  const SearchThreshold: real := 0.60
  /** `get_latest_news` asks for ten items. */
  const LatestCount: nat := 10

  /** A title the API cut short. */
  predicate IsTruncated(title: string) {
    EndsWith(title, "...") || EndsWith(title, "…")
  }

  /** How many items `search_news` requests: three times what it will return,
      but never more than the API allows. */
  function FetchCount(maxResults: nat): (n: nat)
    ensures n <= ApiMaxDisplay && n <= FetchFactor * maxResults
    ensures n == ApiMaxDisplay || n == FetchFactor * maxResults
    ensures maxResults <= ApiMaxDisplay / FetchFactor ==> n == FetchFactor * maxResults
  {
    if FetchFactor * maxResults < ApiMaxDisplay then FetchFactor * maxResults else ApiMaxDisplay
  }

  /** The title kept for an item: a truncated one is replaced by the scraped
      full title when scraping gives a non-empty one. */
  function FinalTitle(title: string, link: string, env: Env): (t: string)
    ensures !IsTruncated(title) ==> t == title
    ensures IsTruncated(title) && env.fullTitle(link).Some? && env.fullTitle(link).value != [] ==>
              t == env.fullTitle(link).value
    ensures IsTruncated(title) && (env.fullTitle(link).None? || env.fullTitle(link) == Some([])) ==> t == title
    ensures t != title ==> env.fullTitle(link) == Some(t) && t != []
  {
    if IsTruncated(title) then
      match env.fullTitle(link)
      case Some(full) => if full != [] then full else title
      case None => title
    else title
  }

  /** The body of the parsing loop for one API entry: `None` when the entry
      is skipped. */
  function ParseItem(item: ApiItem, env: Env): (r: Option<NewsItem>)
    ensures r.None? <==> item.title == [] || item.link.GetOr(item.originalLink) == []
                         || env.tooOld(item.pubDate)
    ensures r.Some? ==> r.value.url == item.link.GetOr(item.originalLink)
    ensures r.Some? ==> r.value.title != [] && r.value.url != []
    ensures r.Some? ==> r.value.date == item.pubDate
    ensures r.Some? ==> r.value.source == env.outlet(item.originalLink, env.hostOf(item.originalLink), item.description)
    ensures r.Some? && !IsTruncated(item.title) ==> r.value.title == item.title
    ensures r.Some? ==> r.value.title == FinalTitle(item.title, r.value.url, env)
  {
    var link := item.link.GetOr(item.originalLink);
    if item.title == [] || link == [] then None
    else
      var title := FinalTitle(item.title, link, env);
      var source := env.outlet(item.originalLink, env.hostOf(item.originalLink), item.description);
      if env.tooOld(item.pubDate) then None
      else Some(NewsItem(title, link, source, item.pubDate))
  }

  /** The outlet of a parsed item under either lookup; with the program's
      lookup it is the first-key label. */
  lemma ParseItemSource(item: ApiItem, env: Env, lookup: Lookup)
    requires env.outlet == LabelBy(lookup)
    ensures ParseItem(item, env).Some? ==>
              ParseItem(item, env).value.source == SourceLabelBy(lookup, item.originalLink, env.hostOf(item.originalLink), item.description)
    ensures ParseItem(item, env).Some? && lookup == FirstKey ==>
              ParseItem(item, env).value.source == SourceLabelAsWritten(item.originalLink, env.hostOf(item.originalLink), item.description)
  {
  }

  /** The parsing loop: the kept entries, in API order. */
  function ParseAll(items: seq<ApiItem>, env: Env): (r: seq<NewsItem>)
    ensures |r| <= |items|
    ensures forall n :: n in r ==> n.title != [] && n.url != []
    decreases |items|
  {
    if items == [] then []
    else ParseAll(items[..|items| - 1], env) + ParsedOne(items[|items| - 1], env)
  }

  /** Every parsed item comes from some API entry, and every entry that
      parses contributes its item. */
  lemma {:induction false} ParseAllMembers(items: seq<ApiItem>, env: Env)
    ensures forall n :: n in ParseAll(items, env) ==> exists i :: 0 <= i < |items| && ParseItem(items[i], env) == Some(n)
    ensures forall i :: 0 <= i < |items| && ParseItem(items[i], env).Some? ==> ParseItem(items[i], env).value in ParseAll(items, env)
  {
    ParsedComeFromEntries(items, env);
    EntriesAreParsed(items, env);
  }

  lemma {:induction false} ParsedComeFromEntries(items: seq<ApiItem>, env: Env)
    ensures forall n :: n in ParseAll(items, env) ==> exists i :: 0 <= i < |items| && ParseItem(items[i], env) == Some(n)
    decreases |items|
  {
    if items != [] {
      var front := items[..|items| - 1];
      ParsedComeFromEntries(front, env);
      var r, rest := ParseAll(items, env), ParseAll(front, env);
      assert r == rest + ParsedOne(items[|items| - 1], env);
      forall n | n in r
        ensures exists i :: 0 <= i < |items| && ParseItem(items[i], env) == Some(n)
      {
        if n in rest {
          var i :| 0 <= i < |front| && ParseItem(front[i], env) == Some(n);
          assert items[i] == front[i];
        } else {
          assert ParseItem(items[|items| - 1], env) == Some(n);
        }
      }
    }
  }

  lemma {:induction false} EntriesAreParsed(items: seq<ApiItem>, env: Env)
    ensures forall i :: 0 <= i < |items| && ParseItem(items[i], env).Some? ==> ParseItem(items[i], env).value in ParseAll(items, env)
    decreases |items|
  {
    if items != [] {
      var front := items[..|items| - 1];
      EntriesAreParsed(front, env);
      var r := ParseAll(items, env);
      assert r == ParseAll(front, env) + ParsedOne(items[|items| - 1], env);
      forall i | 0 <= i < |items| && ParseItem(items[i], env).Some?
        ensures ParseItem(items[i], env).value in r
      {
        if i < |front| {
          assert items[i] == front[i];
        }
      }
    }
  }

  /** The items one API entry contributes: its parsed item, or none. */
  function ParsedOne(x: ApiItem, env: Env): (r: seq<NewsItem>)
    ensures |r| <= 1
    ensures r == [] <==> ParseItem(x, env).None?
    ensures forall n :: n in r ==> ParseItem(x, env) == Some(n)
  {
    match ParseItem(x, env)
    case Some(n) => [n]
    case None => []
  }

  /** Parsing keeps order and multiplicity: one more API entry adds its item,
      if it has one, at the end. */
  lemma ParseAllAppend(items: seq<ApiItem>, x: ApiItem, env: Env)
    ensures ParseAll(items + [x], env) ==
              ParseAll(items, env) + (if ParseItem(x, env).Some? then [ParseItem(x, env).value] else [])
  {
    assert (items + [x])[..|items|] == items;
  }

  /** Whether `filter_similar_news` keeps the item at position `i`: it does
      unless its title scores at least `threshold` against the title of an
      earlier item that was kept. */
  ghost predicate Kept(items: seq<NewsItem>, score: (string, string) -> real, threshold: real, i: nat)
    requires i < |items|
    decreases i
  {
    forall j :: 0 <= j < i ==> !(Kept(items, score, threshold, j) && score(items[i].title, items[j].title) >= threshold)
  }

  /** The kept items among the first `n`, in order. */
  ghost function Select(items: seq<NewsItem>, score: (string, string) -> real, threshold: real, n: nat): seq<NewsItem>
    requires n <= |items|
  {
    if n == 0 then []
    else Select(items, score, threshold, n - 1) + (if Kept(items, score, threshold, n - 1) then [items[n - 1]] else [])
  }

  /** The selection holds exactly the items at kept positions. */
  lemma {:induction false} SelectMembers(items: seq<NewsItem>, score: (string, string) -> real, threshold: real, n: nat)
    requires n <= |items|
    ensures forall e :: e in Select(items, score, threshold, n) <==>
              exists j :: 0 <= j < n && Kept(items, score, threshold, j) && items[j] == e
  {
    if n > 0 {
      SelectMembers(items, score, threshold, n - 1);
    }
  }

  /** The selection among fewer items is a prefix of the selection among more. */
  lemma {:induction false} SelectPrefix(items: seq<NewsItem>, score: (string, string) -> real, threshold: real, m: nat, n: nat)
    requires m <= n <= |items|
    ensures Select(items, score, threshold, m) <= Select(items, score, threshold, n)
    decreases n - m
  {
    if m < n {
      SelectPrefix(items, score, threshold, m, n - 1);
    }
  }

  /** The selection is a subsequence of the input. */
  lemma {:induction false} SelectSubsequence(items: seq<NewsItem>, score: (string, string) -> real, threshold: real, n: nat)
    requires n <= |items|
    ensures IsSubsequence(Select(items, score, threshold, n), items[..n])
  {
    if n > 0 {
      var s := Select(items, score, threshold, n - 1);
      SelectSubsequence(items, score, threshold, n - 1);
      assert items[..n] == items[..n - 1] + [items[n - 1]];
      if Kept(items, score, threshold, n - 1) {
        SubsequenceAppendBoth(s, items[..n - 1], items[n - 1]);
      } else {
        assert Select(items, score, threshold, n) == s;
        SubsequenceExtend(s, items[..n - 1], items[n - 1]);
      }
    }
  }

  /** No two kept titles are similar: a later one scores below the threshold
      against every earlier one. */
  lemma {:induction false} SelectPairwiseDistinct(items: seq<NewsItem>, score: (string, string) -> real, threshold: real, n: nat)
    requires n <= |items|
    ensures forall a, b :: 0 <= a < b < |Select(items, score, threshold, n)| ==>
              score(Select(items, score, threshold, n)[b].title, Select(items, score, threshold, n)[a].title) < threshold
  {
    if n > 0 {
      var s := Select(items, score, threshold, n - 1);
      SelectPairwiseDistinct(items, score, threshold, n - 1);
      if Kept(items, score, threshold, n - 1) {
        SelectMembers(items, score, threshold, n - 1);
        var r := s + [items[n - 1]];
        forall a, b | 0 <= a < b < |r|
          ensures score(r[b].title, r[a].title) < threshold
        {
          if b == |s| {
            assert r[a] in s;
          }
        }
      }
    }
  }

  /** An item is kept exactly when its title scores below the threshold
      against every item kept before it. */
  lemma KeptIff(items: seq<NewsItem>, score: (string, string) -> real, threshold: real, i: nat)
    requires i < |items|
    ensures Kept(items, score, threshold, i) <==>
              forall e :: e in Select(items, score, threshold, i) ==> score(items[i].title, e.title) < threshold
  {
    SelectMembers(items, score, threshold, i);
  }

  /** The inner loop of `filter_similar_news`: whether the title is similar
      to that of some item already kept. */
  method SimilarToAny(news: NewsItem, kept: seq<NewsItem>, score: (string, string) -> real, threshold: real)
    returns (isDuplicate: bool)
    ensures isDuplicate <==> exists e :: e in kept && score(news.title, e.title) >= threshold
  {
    isDuplicate := false;
    var k := 0;
    while k < |kept|
      invariant 0 <= k <= |kept|
      invariant forall a :: 0 <= a < k ==> score(news.title, kept[a].title) < threshold
    {
      if score(news.title, kept[k].title) >= threshold {
        return true;
      }
      k := k + 1;
    }
  }

  /** `filter_similar_news`: keep an item unless its title is similar to the
      title of one already kept. The similarity measure is a parameter. */
  method FilterSimilarNews(items: seq<NewsItem>, score: (string, string) -> real, threshold: real)
    returns (filtered: seq<NewsItem>)
    ensures filtered == Select(items, score, threshold, |items|)
    ensures items == [] ==> filtered == []
    ensures items != [] ==> filtered != [] && filtered[0] == items[0]
    ensures IsSubsequence(filtered, items)
    ensures forall a, b :: 0 <= a < b < |filtered| ==> score(filtered[b].title, filtered[a].title) < threshold
    ensures forall i :: 0 <= i < |items| && items[i] !in filtered ==>
              exists a :: 0 <= a < |filtered| && score(items[i].title, filtered[a].title) >= threshold
  {
    if items == [] {
      return [];
    }
    filtered := [];
    var i := 0;
    while i < |items|
      invariant 0 <= i <= |items|
      invariant filtered == Select(items, score, threshold, i)
    {
      var news := items[i];
      var isDuplicate := SimilarToAny(news, filtered, score, threshold);
      KeptIff(items, score, threshold, i);
      if !isDuplicate {
        filtered := filtered + [news];
      }
      i := i + 1;
    }
    FilterFacts(items, score, threshold);
  }

  /** The properties `FilterSimilarNews` promises, proved of the selection. */
  lemma FilterFacts(items: seq<NewsItem>, score: (string, string) -> real, threshold: real)
    ensures var r := Select(items, score, threshold, |items|);
      && (items != [] ==> r != [] && r[0] == items[0])
      && IsSubsequence(r, items)
      && (forall a, b :: 0 <= a < b < |r| ==> score(r[b].title, r[a].title) < threshold)
      && (forall i :: 0 <= i < |items| && items[i] !in r ==>
            exists a :: 0 <= a < |r| && score(items[i].title, r[a].title) >= threshold)
  {
    SelectKeepsFirst(items, score, threshold);
    SelectSubsequence(items, score, threshold, |items|);
    assert items[..|items|] == items;
    SelectPairwiseDistinct(items, score, threshold, |items|);
    DroppedAreWitnessed(items, score, threshold);
  }

  /** The first item is always kept. */
  lemma SelectKeepsFirst(items: seq<NewsItem>, score: (string, string) -> real, threshold: real)
    ensures items != [] ==> Select(items, score, threshold, |items|) != []
    ensures items != [] ==> Select(items, score, threshold, |items|)[0] == items[0]
  {
    if items != [] {
      SelectPrefix(items, score, threshold, 1, |items|);
      assert Select(items, score, threshold, 1) == [items[0]];
    }
  }

  /** Every item the filter drops is similar to one it keeps. */
  lemma DroppedAreWitnessed(items: seq<NewsItem>, score: (string, string) -> real, threshold: real)
    ensures var r := Select(items, score, threshold, |items|);
      forall i :: 0 <= i < |items| && items[i] !in r ==>
        exists a :: 0 <= a < |r| && score(items[i].title, r[a].title) >= threshold
  {
    var r := Select(items, score, threshold, |items|);
    SelectMembers(items, score, threshold, |items|);
    forall i | 0 <= i < |items| && items[i] !in r
      ensures exists a :: 0 <= a < |r| && score(items[i].title, r[a].title) >= threshold
    {
      DroppedHasEarlierWitness(items, score, threshold, i);
    }
  }

  /** A dropped item is similar to an item at an earlier position that the
      filter kept. */
  lemma DroppedHasEarlierWitness(items: seq<NewsItem>, score: (string, string) -> real, threshold: real, i: nat)
    requires i < |items|
    requires !Kept(items, score, threshold, i)
    ensures exists j :: 0 <= j < i && Kept(items, score, threshold, j)
              && items[j] in Select(items, score, threshold, |items|)
              && score(items[i].title, items[j].title) >= threshold
  {
    var j :| 0 <= j < i && Kept(items, score, threshold, j) && score(items[i].title, items[j].title) >= threshold;
    SelectMembers(items, score, threshold, |items|);
  }

  /** The filter is idempotent: filtering a filtered list changes nothing. */
  lemma FilterIdempotent(items: seq<NewsItem>, score: (string, string) -> real, threshold: real)
    ensures var r := Select(items, score, threshold, |items|);
            Select(r, score, threshold, |r|) == r
  {
    var r := Select(items, score, threshold, |items|);
    SelectPairwiseDistinct(items, score, threshold, |items|);
    AllKeptWhenDistinct(r, score, threshold, |r|);
  }

  /** When no later title is similar to an earlier one, every item is kept. */
  lemma {:induction false} AllKeptWhenDistinct(items: seq<NewsItem>, score: (string, string) -> real, threshold: real, n: nat)
    requires n <= |items|
    requires forall a, b :: 0 <= a < b < |items| ==> score(items[b].title, items[a].title) < threshold
    ensures Select(items, score, threshold, n) == items[..n]
  {
    if n > 0 {
      AllKeptWhenDistinct(items, score, threshold, n - 1);
      assert items[..n] == items[..n - 1] + [items[n - 1]];
    }
  }

  /** `search_news`: without API keys, or when the request fails, nothing;
      otherwise the parsed items, near-duplicates removed with threshold 0.60,
      cut to `maxResults`. `response` is the API's answer to a request for
      `display` items (`None` for any raised error). */
  method SearchNews(maxResults: nat, hasKeys: bool, response: Option<seq<ApiItem>>, env: Env,
                    score: (string, string) -> real)
    returns (display: nat, news: seq<NewsItem>)
    ensures display == FetchCount(maxResults)
    ensures !hasKeys || response.None? ==> news == []
    ensures hasKeys && response.Some? ==>
              var parsed := ParseAll(response.value, env);
              var selected := Select(parsed, score, SearchThreshold, |parsed|);
              |news| == (if |selected| < maxResults then |selected| else maxResults) && news <= selected
    ensures |news| <= maxResults
    ensures forall a, b :: 0 <= a < b < |news| ==> score(news[b].title, news[a].title) < SearchThreshold
    ensures forall n :: n in news ==> n.title != [] && n.url != []
  {
    display := FetchCount(maxResults);
    if !hasKeys {
      return display, [];
    }
    match response
    case None =>
      news := [];
    case Some(items) =>
      var parsed := ParseAll(items, env);
      var filtered := FilterSimilarNews(parsed, score, SearchThreshold);
      SubsequenceElements(filtered, parsed);
      if |filtered| > maxResults {
        news := filtered[..maxResults];
      } else {
        news := filtered;
      }
  }

  /** `get_latest_news`: `search_news` with ten results. */
  method GetLatestNews(hasKeys: bool, response: Option<seq<ApiItem>>, env: Env, score: (string, string) -> real)
    returns (news: seq<NewsItem>)
    ensures |news| <= LatestCount
    ensures !hasKeys || response.None? ==> news == []
    ensures hasKeys && response.Some? ==>
              var parsed := ParseAll(response.value, env);
              var selected := Select(parsed, score, SearchThreshold, |parsed|);
              |news| == (if |selected| < LatestCount then |selected| else LatestCount) && news <= selected
    ensures forall a, b :: 0 <= a < b < |news| ==> score(news[b].title, news[a].title) < SearchThreshold
    ensures forall n :: n in news ==> n.title != [] && n.url != []
  {
    var _, r := SearchNews(LatestCount, hasKeys, response, env, score);
    news := r;
  }
}
