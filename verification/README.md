# TeleNews delivery core in Dafny

TeleNews is a Telegram bot. Users register keywords; the bot polls the Naver
news search API for them, removes near-duplicate headlines, and sends each user
the articles not yet sent for that keyword. It also watches the Nasdaq-100 index
and raises a drop alert at each whole percent from 5 % below the all-time high.
Both kinds of notification respect a per-user quiet window. A retry policy
delivers messages over an unreliable chat API.

This project models that decision logic as pure functions over an immutable
database value, and proves what the code promises about it:

- `store.dfy` (`Store`): the keyed tables of `database.py` (keywords, sent news,
  alert levels, quiet hours, pending alerts), as sets and maps.
- `quiet_hours.dfy` (`QuietHours`): `is_quiet_time`. `clock.dfy` (`Clock`)
  shows that comparing the zero-padded `"HH:MM"` strings, as the code does, is
  the same as comparing minutes.
- `dispatch.dfy` (`Dispatch`): the retry policy of `send_message_to_user` and
  `safe_reply`, over a sequence of attempt outcomes.
- `drop_alert.dfy` (`DropAlert`): the drop-alert state machine of
  `check_stock_drop_alerts`, `_send_drop_alert` and the `quiet:off` button.
- `news_ledger.dfy` (`NewsLedger`): the unseen filter, commit-after-send and
  manual re-show of `_check_news_for_keyword` / `_send_news_to_user`, the
  per-user loop, and the keyword grouping of `check_news_updates`.
- `crawler.dfy` (`Crawler`) and `sources.dfy` (`Sources`): `filter_similar_news`
  and the result shaping of `search_news`, including how an outlet label is
  derived.
- `text.dfy`, `sequences.dfy` and `optional.dfy` are support modules. `Text`
  holds the Python `str` operations the code relies on. `Sequences` defines
  order-preserving sublists. `Optional` is an option type.

The following are parameters, not computed:

- the wall clock (a `Minute` of the day). The code reads it afresh each time it
  asks whether a user is in quiet time, so the loops take one reading per user
  (drop alerts) or per user and keyword (news);
- the chat API's behaviour on each attempt;
- whether a send was delivered;
- the crawler's answer for a keyword;
- the similarity score of two titles;
- the parsed host of a link;
- the outlet labeller. `Crawler.LabelBy(FirstKey)` is the code's first-key
  table lookup; `Crawler.LabelBy(LongestKey)` is the corrected lookup of the
  first finding below;
- the scraped full title;
- whether a publication date is more than 30 days old.

Sleeps become returned delays in milliseconds.

Some behaviour a reader might expect is not in the code, and the model does
not add it:

- Delivery makes up to 5 attempts, waiting 3·2^k seconds after the k-th
  retryable failure.
- Blocked users are not marked in the database.
- Keywords are plain strings. No AND/OR expressions are evaluated, no results
  are allocated in proportion, and no clusters with representatives or counts
  are built: the filter keeps the first item of each group of similar titles.
- A manual check with nothing new re-shows the whole fetched list. It does not
  top it up with older articles.
- Automatic news checks during quiet time are skipped; they are not queued.

## Model

| member | source | states |
|---|---|---|
| Text.SubstringAt | news_crawler.py:204 | Python's `key in domain` holds exactly when the key occurs at some position of the host |
| Text.FirstOccurrence | news_crawler.py:210 | the leftmost position where the pattern occurs, or none exactly when it occurs nowhere |
| Text.RemoveAll | news_crawler.py:210 | `replace('www.', '')` never lengthens the host and leaves a host without `www.` unchanged |
| Text.RemoveAllLeftmost | news_crawler.py:210 | `replace` deletes the leftmost occurrence, keeps the text before it, and carries on after it, so occurrences are removed left to right without overlap |
| Text.EndsWith | news_crawler.py:155 | `endswith` holds exactly when the text is some text followed by the suffix |
| Text.BeforeFirst | news_crawler.py:210 | `split('.')[0]` is a prefix containing no dot, and when shorter than the input it stops at a dot |
| Text.StripLeft | news_crawler.py:218 | the leading run of whitespace is removed and nothing else: the result is a suffix, everything cut off is whitespace, and it does not start with whitespace |
| Text.StripRight | news_crawler.py:218 | the trailing run of whitespace is removed and nothing else: the result is a prefix, everything cut off is whitespace, and it does not end with whitespace |
| Text.Strip | news_crawler.py:218 | `strip()` yields a contiguous piece of its input with only whitespace before and after it, neither starting nor ending with whitespace, and the input itself when its ends are not whitespace |
| Text.AsciiUpper | news_crawler.py:210 | `upper()` keeps the length and maps every character independently |
| Text.LexLe | bot.py:48-53 | Python's string `<=`: true exactly when the first is a prefix of the second or is smaller at the first position where they differ |
| Clock.Format | bot.py:42 | `strftime('%H:%M')` gives five characters with a colon in the middle |
| Clock.FormatOrder | bot.py:48-53 | comparing two formatted times as strings orders them exactly as their minute values |
| Clock.FormatLex | bot.py:42-53 | the string comparison of two formatted times decides digit by digit, skipping the colon |
| Clock.DigitsOrder | bot.py:42 | the digit-wise order of hours and minutes is the numeric order of the times |
| Clock.FormatInjective | bot.py:42 | different times of day have different `"HH:MM"` text |
| Store.GetKeywords | database.py:107-111 | the result holds exactly the keywords stored for the user |
| Store.AddKeyword | database.py:80-89 | returns true exactly when the pair was new, the pair is stored afterwards, and a duplicate changes nothing |
| Store.RemoveKeyword | database.py:91-97 | returns true exactly when the pair existed, and removes only that pair |
| Store.RemoveAllKeywords | database.py:99-105 | returns the number of rows deleted, which is the number of the user's keywords, leaves the user with none, and keeps every other user's keywords |
| Store.GetAllUsers | database.py:187-191 | a user is listed exactly when they follow at least one keyword |
| Store.IsNewsSent | database.py:119-124 | an article counts as sent exactly when its (user, keyword, url) row exists |
| Store.MarkNewsSent | database.py:126-136 | the triple is recorded afterwards, true is returned exactly when it was new, and no other triple changes |
| Store.GetLastStockAlertLevel | database.py:159-170 | the user's stored level, peak and date, or none exactly when the user has no row |
| Store.UpdateStockAlertLevel | database.py:172-185 | after the upsert the user's record is exactly the new (level, peak, date), and other users are untouched |
| Store.GetQuietHours | database.py:207-218 | the user's window with its `enabled` flag, or none exactly when the user has no row |
| Store.SetQuietHours | database.py:193-205 | after the upsert the user's window is the new one and enabled, and other users are untouched |
| Store.DisableQuietHours | database.py:220-226 | returns true exactly when the user has a window, and then changes only its `enabled` flag |
| Store.EnableQuietHours | database.py:228-234 | returns true exactly when the user has a window, and then changes only its `enabled` flag |
| Store.GetPendingStockAlert | database.py:257-273 | the user's parked alert, or none exactly when the user has none |
| Store.SetPendingStockAlert | database.py:236-255 | the user's single pending alert is the new one, and other users are untouched |
| Store.ClearPendingStockAlert | database.py:275-279 | the user has no pending alert afterwards, and other users are untouched |
| Store.AddRemoveRoundTrip | database.py:80-97 | removing a freshly added keyword restores the database and reports success |
| Store.AllUsersFollowKeywords | database.py:187-191 | adding a keyword puts its user in the user list; removing all their keywords takes them out |
| Store.AddedUserListed | database.py:80-89 | after adding a keyword the user list is the old one plus that user |
| Store.ClearedUserUnlisted | database.py:99-105 | after removing all of a user's keywords the user list is the old one without that user |
| Store.MarkTwice | database.py:126-136 | marking the same article twice is refused the second time and changes nothing |
| Store.PendingOverwrite | database.py:236-255 | a second pending alert replaces the first |
| Store.SetThenDisable | database.py:193-226 | disabling a window just set succeeds and keeps its bounds |
| QuietHours.IsQuietTime | bot.py:34-53 | quiet exactly when the user has an enabled window and now lies on the clockwise arc from start to end, both ends included, whether or not the window wraps past midnight |
| QuietHours.IsQuietText | bot.py:46-53 | the code's test on `"HH:MM"` text with string `<=`: a window with start <= end is quiet from start to end inclusive; otherwise at or after start or at or before end |
| QuietHours.QuietTextAgrees | bot.py:42-53 | the code's string comparisons on `"HH:MM"` decide quiet time exactly as the minute model does |
| QuietHours.NoRowNotQuiet | bot.py:36-38 | with no window, or a disabled one, nothing is quiet |
| QuietHours.SetAndDisableDecideQuiet | bot.py:48-53 | right after setting a window both of its bounds are quiet; after disabling it nothing is |
| Dispatch.Classify | bot.py:827-836 | an error is "blocked" exactly when the message says `bot was blocked` or the type mentions `Forbidden`; "retryable" only when a network marker occurs in the message or type |
| Dispatch.Deliver | bot.py:806-856 | the attempts before the last all failed retryably; the last is the first that did not, or the fifth; success is exactly a delivered last attempt; the k-th wait is 3·2^k s |
| Dispatch.SendMessageToUser | bot.py:801-856 | follows the retry policy with a 0.5 s pause after a delivery |
| Dispatch.SafeReply | bot.py:55-102 | follows the same retry policy with a 0.3 s pause after a delivery |
| Dispatch.FollowsUnique | bot.py:806-856 | the policy determines the report completely for a given transport behaviour |
| Dispatch.DeliveredIff | bot.py:806-856 | the call succeeds exactly when some attempt among the first five delivers after only retryable failures |
| Dispatch.StopsAtPermanentError | bot.py:827-849 | a blocked or non-retryable error ends the call right after that attempt, without success and with no further wait |
| Dispatch.GivesUpAfterFive | bot.py:838-854 | five retryable failures give up after the fifth attempt, having waited 3, 6, 12 and 24 s |
| DropAlert.LevelOf | bot.py:708 | `int(drop_percentage)` truncates toward zero |
| DropAlert.ShouldAlert | bot.py:719-727 | nothing below level 5; with no record or a different peak, any level from 5; with the same peak, only a level above the stored one |
| DropAlert.AlertStep | bot.py:729-744 | only a due alert changes anything; a due alert outside quiet time is recorded as (level, peak, date) exactly when its send was delivered; a due alert in quiet time is parked as the pending alert and the level is not recorded; other users and tables are untouched; no stored level drops |
| DropAlert.StepIsLocal | bot.py:714-744 | what the check does to a user depends only on that user's rows |
| DropAlert.AtMostOncePerLevel | bot.py:719-744 | once a level is announced, the same or a lower level for the same peak changes nothing |
| DropAlert.NewPeakRearms | bot.py:721-724 | a changed peak makes every level from 5 due again |
| DropAlert.AlertCycle | bot.py:694-751 | without index data nothing changes; each listed user ends as if checked alone, at the clock reading taken for that user; unlisted users and other tables are untouched; no stored level drops |
| DropAlert.CheckUsers | bot.py:714-751 | the per-user loop gives each user the outcome of checking that user alone |
| DropAlert.LaterUsersUnaffected | bot.py:714-744 | checking one user first does not change the outcome for any other user |
| DropAlert.NoAlertBelowFivePercent | bot.py:708-730 | a drop below 5 % leaves the whole database unchanged |
| DropAlert.SendDropAlert | bot.py:760-799 | without the TQQQ quote nothing is sent and the result is false; otherwise the result is the delivery policy's verdict |
| DropAlert.QuietOff | bot.py:275-296 | as written: without a window nothing changes; otherwise the window keeps its bounds with `enabled` off so nothing is quiet, keywords, sent news and other users stay as they were, and a delivered pending alert is recorded as the level and cleared, whatever the stored level |
| DropAlert.QuietOffGuarded | bot.py:275-296 | corrected: the same frame and window change; a pending alert still due is flushed when delivered and kept when not, one no longer due is dropped with the stored level unchanged; stored levels never drop |
| DropAlert.ParkedAlertIsFlushed | bot.py:733-737 | an alert parked during quiet time is sent and recorded when the window is switched off |
| DropAlert.QuietOffLowersLevel | bot.py:281-294 | a concrete trace where the as-written flush lowers the stored level from 8 to 7 and makes 8 due again, while the guarded flush keeps 8 |
| Sources.FirstMatchFrom | news_crawler.py:203-206 | the first entry whose key occurs in the host, or none exactly when no key occurs |
| Sources.LongestMatch | news_crawler.py:170-206 | corrected lookup: a key occurring in the host, no shorter than any other occurring key and longer than any earlier occurring one; none exactly when no key occurs |
| Sources.HostLabel | news_crawler.py:209-210 | the fallback label is the text before the first dot of the host with every `www.` removed, upper-cased character by character; it is no longer than the host and has no dot |
| Sources.TableLabelAsWritten | news_crawler.py:203-210 | when some key occurs in the host, the label of the first entry in table order whose key occurs; when none occurs, the host label |
| Sources.TableLabel | news_crawler.py:203-210 | when some key occurs in the host, the label of the entry with the longest occurring key, the earliest among equally long ones; when none occurs, the host label |
| Sources.FromDescription | news_crawler.py:215-218 | an unknown label with a non-empty description whose text before the first dot is under 20 characters becomes that text stripped; in every other case the label is kept; a replacement is a dot-free piece of the description |
| Sources.SourceLabelAsWritten | news_crawler.py:162-218 | method 1 applies only with an original link whose host parses; method 2 then fills an unknown label |
| Sources.SourceLabel | news_crawler.py:162-218 | the same with the longest-key lookup |
| Sources.SourceLabelBy | news_crawler.py:162-218 | the outlet label under either lookup: first-key is the code's labelling, longest-key the corrected one; without an original link or a parsed host only the description can name the outlet |
| Sources.EveryEntryReachable | news_crawler.py:170-206 | with the longest-key lookup, a host equal to a key is labelled by the first entry with that key |
| Sources.DomainKeysDistinct | news_crawler.py:170-201 | the 57 keys of the table are pairwise distinct |
| Sources.TableNamesEveryKey | news_crawler.py:170-206 | with the longest-key lookup, every key of the table gets its own label |
| Sources.ChosunWinsAsWritten | news_crawler.py:170-206 | as written, any host containing `chosun.com` and no `y` is labelled 조선일보 |
| Sources.TvChosunLabels | news_crawler.py:170-206 | `tvchosun.com` is labelled 조선일보 as written and TV조선 with the longest-key lookup |
| Sources.BizChosunLabels | news_crawler.py:170-206 | `biz.chosun.com` is labelled 조선일보 as written and 조선비즈 with the longest-key lookup |
| Sources.ChosunShadowsSubsidiaries | news_crawler.py:170-206 | as written, `tvchosun.com` and `biz.chosun.com` are labelled 조선일보; the longest-key lookup labels them TV조선 and 조선비즈 |
| Crawler.FetchCount | news_crawler.py:125 | the request asks for three times the wanted count, capped at the API's 100 |
| Crawler.IsTruncated | news_crawler.py:155 | a title counts as cut short exactly when it ends in `...` or `…` |
| Crawler.FinalTitle | news_crawler.py:155-159 | an untruncated title is kept; a truncated one is replaced by the scraped full title exactly when scraping gives a non-empty one, and kept otherwise |
| Crawler.ParseItem | news_crawler.py:142-242 | an entry is skipped exactly when its title or link is empty or it is too old; a kept one has the link as url, the pub date, the outlet labeller's label for its original link, host and description, and the entry's title or, when truncated, the non-empty scraped title |
| Crawler.ParseItemSource | news_crawler.py:162-218 | with the code's first-key labeller a parsed item's outlet is the as-written label; with the longest-key labeller it is the corrected one |
| Crawler.ParseAll | news_crawler.py:141-242 | the parsed list is never longer than the API's list, and every parsed item has a title and a url |
| Crawler.ParseAllMembers | news_crawler.py:141-242 | every parsed item comes from some entry, and every entry that parses contributes its item |
| Crawler.ParseAllAppend | news_crawler.py:141-242 | parsing keeps API order and multiplicity: one more entry appends its item, if any, at the end |
| Crawler.SelectMembers | news_crawler.py:83-100 | the selection holds exactly the items at kept positions |
| Crawler.SelectPrefix | news_crawler.py:83-100 | the selection over fewer items is a prefix of the selection over more |
| Crawler.SelectSubsequence | news_crawler.py:83-100 | the selection keeps input order |
| Crawler.SelectPairwiseDistinct | news_crawler.py:85-100 | a later kept title scores below the threshold against every earlier kept one |
| Crawler.KeptIff | news_crawler.py:85-100 | an item is kept exactly when it scores below the threshold against everything kept before it |
| Crawler.SimilarToAny | news_crawler.py:86-96 | the inner loop reports a duplicate exactly when some already kept title scores at or above the threshold against the new one |
| Crawler.FilterSimilarNews | news_crawler.py:78-103 | equals the first-wins selection: empty for empty input; the first item kept; order kept; kept titles pairwise below the threshold; every dropped item similar to a kept one |
| Crawler.FilterFacts | news_crawler.py:78-103 | the first-wins selection keeps the first item and input order, keeps titles pairwise below the threshold, and every dropped item is similar to a kept one |
| Crawler.SelectKeepsFirst | news_crawler.py:83-100 | the first item of a non-empty list is always kept, at the front |
| Crawler.DroppedAreWitnessed | news_crawler.py:85-100 | every dropped item is similar to some item of the output |
| Crawler.DroppedHasEarlierWitness | news_crawler.py:89-96 | a dropped item is similar to an item at an earlier position that survives in the output |
| Crawler.FilterIdempotent | news_crawler.py:78-103 | filtering the filtered list changes nothing |
| Crawler.AllKeptWhenDistinct | news_crawler.py:85-100 | when no later title is similar to an earlier one, everything is kept |
| Crawler.SearchNews | news_crawler.py:105-276 | no keys or a failed request give nothing; otherwise the result is a prefix of the filtered list, of length min(max_results, filtered) |
| Crawler.GetLatestNews | news_crawler.py:278-285 | `search_news` with ten results: nothing without keys or answer, otherwise the first min(10, filtered) items of the filtered list, pairwise dissimilar, each with a title and a url |
| NewsLedger.FilterUnseen | bot.py:569-572 | `new_news` keeps fetched order, holds only unrecorded items, and holds every unrecorded item |
| NewsLedger.MarkAll | bot.py:597-599 | after the marking loop, the ledger is the old one plus exactly the batch's urls for that user and keyword |
| NewsLedger.CheckNewsForKeyword | bot.py:550-626 | skipped in quiet time unless manual; records every fetched url only when it proceeds and the send was delivered; the fresh batch is the unseen filter; an empty manual fetch warns; a manual check with nothing new re-shows the whole list and records nothing |
| NewsLedger.AllSeenWhenNoneFresh | bot.py:569-575 | when nothing is new, every fetched url is already recorded |
| NewsLedger.MarkingFreshMarksAll | bot.py:569-599 | recording the new items is the same as recording every fetched url |
| NewsLedger.SendNewsToUser | bot.py:490-532 | skipped in quiet time; the batch is the unseen filter; the ledger changes only after a delivered send |
| NewsLedger.SendLedger | bot.py:490-532 | after `_send_news_to_user` the ledger gains exactly the list's urls for that user and keyword, and only when the user is outside quiet time and the message got through |
| NewsLedger.AutomaticCheckMatchesSend | bot.py:490-626 | an automatic keyword check and `_send_news_to_user` with the same list have the same effect and notice |
| NewsLedger.DeliveredNotRepeated | bot.py:569-599 | an article delivered once for a keyword never appears in a later new batch for that user and keyword |
| NewsLedger.FilterUnseenIdempotent | bot.py:569-572 | filtering an already filtered list changes nothing |
| NewsLedger.KeepAllUnseen | bot.py:569-572 | a list of unrecorded items passes the filter whole |
| NewsLedger.FilterUnseenCounts | bot.py:569-572 | `new_news` holds each unrecorded item as often as the fetched list does, and no recorded item |
| NewsLedger.CheckNewsForUser | bot.py:534-548 | over the keywords listed in `order`, one notice each; exactly the fetched urls of the checks that proceed at their own clock reading and are delivered are recorded |
| NewsLedger.CheckNewsForUserAllKeywords | bot.py:534-548 | with the keyword list `get_keywords` returns (database.py:107-111), one notice per keyword the user follows, and news recorded across exactly the user's registered keywords |
| NewsLedger.AddToGroup | bot.py:452 | appending keeps one group per keyword and adds exactly the new (user, keyword) pair |
| NewsLedger.GroupByKeyword | bot.py:450-452 | one group per keyword, and a user is in a keyword's group exactly when the pair was listed |
| NewsLedger.SendToGroup | bot.py:470-474 | each group member outside quiet time at the reading taken for their send, whose send was delivered, gets the keyword's urls recorded; nothing else changes |
| NewsLedger.SendToGroups | bot.py:458-484 | the same over all groups, each keyword fetched once |
| NewsLedger.NewsCycle | bot.py:434-488 | a scheduled cycle records a url for (user, keyword) exactly when the pair is listed in `pairs`, the user is not in quiet time at that send's clock reading, the send was delivered and the url was fetched for the keyword |
| NewsLedger.NewsCycleRegisteredPairs | bot.py:434-488 | with the pairs `get_all_user_keywords` returns (database.py:113-117), news is recorded for exactly the registered (user, keyword) pairs, under the same quiet-time and delivery conditions |

## Left out

- `cleanup_old_news` and the 30-day date filter depend on the wall clock and on SQL `NOW()`. The cycle is modelled without the clean-up, and the date test is the `tooOld` parameter.
- `calculate_similarity` (`SequenceMatcher` ratio with regex normalisation) is float library code. It is the `score` parameter.
- The Naver HTTP request, BeautifulSoup tag stripping, `_fetch_full_title` and `urlparse` are left out. Their results are parameters: the answer list, tag-free text, the `fullTitle` oracle and the `hostOf` oracle.
- The Telegram transport, keyboards, HTML message text, `_format_date_simple`, `asyncio.sleep`, the scheduler, `error_handler` and `run` are left out. Sleeps are returned as delay values.
- `stock_monitor.py` is left out (network fetches and floating-point scenarios). The drop percentage, peak and date are inputs, and the TQQQ quote is a flag.
- The `waiting_for_keyword` conversation and the quiet-hours button menus are UI. Only the `quiet:off` branch is modelled.
- SQL connections, table creation and commit/rollback are left out. Exceptions caught and logged per user or per keyword are modelled as "nothing changes for that item".
- `DropAlert.AlertStep`: the peak is compared as an opaque real. Rounding when the code stores it in a `REAL` column is not modelled.
- `Store.MarkNewsSent`: the title column of `sent_news` is not modelled, because it is never read.
- `Text.AsciiUpper`: only ASCII letters are upper-cased. Python's `upper()` on other scripts is not modelled; Korean has no case.
- `Crawler.SearchNews`: `max_results` is a natural number. A negative value, which the code never passes, is not modelled.
- The final `return False` after the retry loop of `send_message_to_user` is unreachable. The loop always returns, so it has no counterpart.
- The JSON round trip of the stored index snapshot in the pending alert, and its date re-parsing, are not modelled.

## Findings

| source | as written | input that shows it | evidently intended | confidence | as-written member | corrected member |
|---|---|---|---|---|---|---|
| news_crawler.py:203-206 | the first table key that occurs in the host wins, and `chosun.com` (3rd entry) occurs in `tvchosun.com` (30th) and `biz.chosun.com` (39th) | host `biz.chosun.com` is labelled 조선일보 | each host is labelled by its own entry (조선비즈, TV조선): prefer the longest matching key | high, not executed | Sources.ChosunShadowsSubsidiaries | Sources.TableNamesEveryKey |
| bot.py:281-294 | `quiet:off` sends the pending alert and records its level without re-checking it against the stored level; nothing else ever clears a pending alert | quiet 22:00-07:00; 7 % parked at 23:00; 8 % sent and recorded at 09:00; `quiet:off` re-sends 7 % and records 7, so 8 % is due again | send a pending alert only if it is still due, and drop it otherwise, so the stored level never falls for the same peak | high, not executed | DropAlert.QuietOffLowersLevel | DropAlert.QuietOffGuarded |
