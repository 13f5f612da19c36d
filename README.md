# Legacy Twitter timeline scraper, modelled in Dafny

This project models the core of a command-line tool that scrapes the public
tweets of Twitter users from the legacy HTML timeline.

The scraper (`scraper.py`) works in four steps:

- It reads each tweet element of a profile page into a record (`process_tweet`).
- It walks the tweet ids of a page in document order. It cuts them to `max_count`, keeps tweets until the first one the age filter turns down, and reads the stream container's `min_position` (`process_html`).
- It asks the infinite-scroll endpoint for older pages while a page falls short of its budget (`get_next_page` and `get_user_tweets`).
- It runs that for a list of users (`get_tweets`), and reads the state and the new tweets that polling needs (`get_update_info`, `get_new_tweets`).

The command-line front end (`cli/cli.py`) does five things:

- It checks its numeric options (`positive_int`).
- It sorts the collected tweets oldest first (`sort_tweets`).
- It rewrites mention and hashtag links and adds tabs (`format_tweet` without its `strip` branch).
- It reads the users file.
- It keeps the per-user bookkeeping of `poll`.

The model follows the code's own form:

- Text processing and parsing are functions.
- The loops of `process_html`, `get_tweets`, `sort_tweets`, the users file reader and `poll` are methods with loop invariants. Each method is proved equal to a specification function.
- The recursive page walk is a recursive method, proved equal to a recursive function.
- The properties the code promises are proved as lemmas about those functions.

Python behaviour that decides results is written out:

- `re.findall` and `re.sub` are left-to-right scans with greedy character classes.
- `str.strip(chars)` strips a set of characters.
- `int` accepts surrounding whitespace and a sign.
- `lst[:None]` keeps every element.
- In Python 2, `n < None` is false.
- `if older_age:` is false for 0.
- `if data:` is false for an empty dictionary.
- `len(info) <= 0` counts entries that hold `None`.

Exceptions that nothing catches are results:

- `IndexError` from `select(...)[0]`.
- `AttributeError` from `process_tweet(None)`, whose first step is `None.select`.
- `TypeError` from `dict.update(None)`.
- `KeyError` and `TypeError` in `poll`.
- `ValueError` from `int`.

A network request is an input, not an action. It is the answer the server gives, or `None` when the request failed with `HTTPError`, `URLError` or `SSLError`. The older-page endpoint is a finite script of answers.

Two intended behaviours of the page walk differ from the code:

- A page that yields no new tweet should end the walk.
- A later page that cannot be fetched should leave the tweets already collected, instead of raising `TypeError` from `update(None)`.

The model follows the code (policy `AsWritten`). It states the intended walk as policy `Guarded`, and "## Findings" lists the differences.

Files:

- `wrappers.dfy`: `Option` and `Result`.
- `decimal.dfy`: `int` and `str` on decimal text.
- `scan.dfy`: `re.findall` of `name="\d+"` and `str.strip`.
- `urls.dfy`: the three URL builders.
- `tweets.dfy`: `process_tweet` and `process_html`.
- `pagination.dfy`: `get_next_page` and `get_user_tweets`.
- `batch.dfy`: `get_tweets`, `get_update_info` and `get_new_tweets`.
- `cli_args.dfy`, `cli_sort.dfy`, `cli_format.dfy`, `cli_users.dfy` and `cli_poll.dfy`: the command-line parts.

## Model

| member | source | states |
|---|---|---|
| Decimal.Digits | scraper.py:32 | `str` of a natural number is a non-empty run of digits with no leading zero |
| Decimal.ValueOfDigits | scraper.py:32 | reading the decimal digits of `n` gives `n` back |
| Decimal.ParseIntToString | cli/cli.py:46 | `int(str(i)) == i` for every integer, negative ones included |
| Decimal.ParseUnsigned | scraper.py:123-124 | `int` of a run of digits is the number they spell |
| Decimal.ParseSigned | cli/cli.py:46 | `int` of a minus sign followed by digits is the negated number |
| Decimal.TrimUnspaced | cli/cli.py:46 | `int` ignores no character of a string that neither starts nor ends with whitespace |
| Decimal.DropLeadingSpace | cli/cli.py:46 | what `int` reads starts at the first non-whitespace character and is a suffix of its argument |
| Decimal.DropTrailingSpace | cli/cli.py:46 | what `int` reads ends at the last non-whitespace character and is a prefix of its argument |
| Scan.RunLength | cli/cli.py:138 | a greedy character class consumes the longest prefix in the class: the next character is outside it |
| Scan.RunLengthOf | cli/cli.py:138 | the greedy run over a text in the class followed by one outside it is exactly that text |
| Scan.MatchAt | scraper.py:168 | a match found at the start of a text is one `name="digits"` |
| Scan.MatchAtFinds | scraper.py:168 | a text that starts with a match has all of that match found, however it goes on |
| Scan.FindAll | scraper.py:168 | every string `findall` returns is a match of `name="\d+"` |
| Scan.LStripPrefix | scraper.py:167 | `lstrip(chars)` drops every leading character in the set, not only a leading copy of the string |
| Scan.StripMatch | scraper.py:167 | `strip(name + '="')` on a match leaves exactly its digits, since no digit is in the stripped set and the closing quote is |
| Scan.ExtractedValues | scraper.py:166-169 | the extracted values are, one per match and in order, the digit strings between the quotes |
| Scan.FindAllRender | scraper.py:168 | `findall` over markup carrying the attribute once per value finds one match per value, in order |
| Scan.ExtractRender | scraper.py:166-169 | extracting the values of such markup gives back exactly the values written into it |
| Urls.BuildTwitterUrl | scraper.py:21 | the profile URL is the base followed by exactly the user name |
| Urls.BuildNewpageUrl | scraper.py:26-32 | the older-page URL has the user's prefix and fixed tail, and between them the decimal `max_position`, which `int` reads back |
| Urls.BuildUpdateUrl | scraper.py:39-46 | the update URL holds the base, the user name, the fixed query and ends with `min_position` |
| Urls.NewpageUrlInjective | scraper.py:26-32 | two older-page URLs of one user are equal only for the same position |
| Tweets.Splice | scraper.py:265-267 | replacing the stream items changes the items and nothing else of the page |
| Tweets.FindFirst | scraper.py:176 | `find` gives the first element carrying the id, and `None` exactly when no element carries it |
| Tweets.StatCounts | scraper.py:120-125 | the stat counts are, in order, the values of the `data-tweet-stat-count="\d+"` matches of the content |
| Tweets.ProcessTweetMeaning | scraper.py:55-135 | `None` exactly when the floor is truthy, the epoch is below it and the tweet is not pinned. `IndexError` exactly when a kept tweet has fewer than three stat counts. Otherwise the record has the pinned and retweet flags, `retweet_info` only for a retweet, the epoch, the user, and replies, retweets and likes from the first three counts. It passes the filter |
| Tweets.Limit | scraper.py:172 | `ids[:max_count]` is a prefix: all of it for `None`, `min(k, len)` for `k >= 0`, and `len + k` clamped at 0 for a negative `k` |
| Tweets.PageIdsAreDigits | scraper.py:166-169 | the page's ids are, one per `data-tweet-id="\d+"` match and in document order, the digit strings of the matches |
| Tweets.VerdictFaults | scraper.py:176-187 | reading one id raises only a missing element, too few stat counts, or a missing profile avatar |
| Tweets.VerdictMeaning | scraper.py:174-189 | one id's outcome is `None` exactly when its element is turned down by the filter. A stored tweet is the element's record under that id, with the page's first avatar exactly when it is not a retweet. Each of the three exceptions arises exactly in its own case |
| Tweets.SelectStable | scraper.py:174-181 | once the loop has stopped or raised, later ids change nothing |
| Tweets.SelectStep | scraper.py:174-189 | one pass of the loop raises on an exception, stops with the map so far on a rejection, or stores the tweet under its id |
| Tweets.SelectCollects | scraper.py:174-189 | the loop stores no more tweets than ids, each under its own id and each an outcome of some id |
| Tweets.SelectComplete | scraper.py:174-189 | a loop that did not stop stored a tweet for every id, and none of them raised |
| Tweets.SelectStopsAtRejection | scraper.py:178-181 | `older_age_reached` is set only at a rejected id, with the map exactly as it was before that id |
| Tweets.SelectStopsIfRejected | scraper.py:178-181 | conversely, a rejection the loop reaches stops it with what it held before |
| Tweets.SelectRaises | scraper.py:174-189 | the loop raises only the exception of an id it reached, before which nothing stopped it |
| Tweets.HtmlResultFacts | scraper.py:166-201 | `n_items` is the map's size, at most the cut id list and `max_count`. Every tweet is stored under an id of that list, as `process_tweet` built it. When the loop did not stop, every id of the list is there |
| Tweets.HtmlResultStored | scraper.py:174-189 | every kept tweet sits under an id of the cut list and is that id's record |
| Tweets.HtmlResultComplete | scraper.py:174-189 | without a rejection every id of the cut list has its tweet |
| Tweets.HtmlResultReached | scraper.py:174-181 | `older_age_reached` means some id of the cut list was turned down by the filter, every id before it was kept, and no id from it on |
| Tweets.HtmlResultUnfloored | scraper.py:92-99 | without a truthy floor nothing is turned down, and every id of the cut list is kept |
| Tweets.VerdictsStore | scraper.py:183-188 | a tweet some id stores is stored under one of the ids, as `process_html` builds it |
| Tweets.VerdictsKeep | scraper.py:183-188 | the tweet stored for an id carries that id |
| Tweets.ProcessId | scraper.py:176-188 | the loop body for one id equals that id's outcome: find, `process_tweet`, and the avatar for a tweet that is not a retweet |
| Tweets.WalkIds | scraper.py:174-190 | the loop equals the left fold over the ids' outcomes, which stops at the first rejection or exception |
| Tweets.ProcessHtml | scraper.py:138-201 | `process_html` equals its specification, and `n_items` is the map's size and at most the cut id list |
| Pagination.HtmlResultFaults | scraper.py:138-201 | `process_html` never raises the `update(None)` fault |
| Pagination.HtmlWalkerHonest | scraper.py:272-275 | `process_html` gives a map whose tweets sit under their own ids and pass the filter, with `n_items` its size and at most a non-negative `max_count` |
| Pagination.UpdateSound | scraper.py:280-287 | `update` keeps tweets under their own ids and past the filter, and holds at most the tweets of both maps |
| Pagination.MergeCollected | scraper.py:280-287 | merging what the later pages returned within the remaining budget keeps the map within the whole budget |
| Pagination.NextPagesCollect | scraper.py:262-289 | with any page reader that keeps those promises, a walk that returns a map returns a sound one of at most `budget` tweets |
| Pagination.NextPagesCollectStep | scraper.py:278-287 | the same, in the case where the page falls short and the walk asks for more |
| Pagination.UserWalkCollect | scraper.py:337-353 | with such a reader, `get_user_tweets` returns a sound map of at most a non-negative `max_count` tweets over all pages |
| Pagination.UserWalkCollectStep | scraper.py:342-351 | the same, in the case where the profile page falls short |
| Pagination.UserTweetsCollect | scraper.py:292-353 | `get_user_tweets` returns tweets stored under their own ids, admitted by the age filter, and at most `max_count` of them |
| Pagination.LinkedSplice | scraper.py:265-267 | which page the answers are spliced into does not change how one request leads to the next |
| Pagination.NextPagesChain | scraper.py:278-287 | the first request starts at `position` with the whole budget, with at most one request per answer plus one. Each further request follows a page that was read and fell short, starts at that answer's `min_position`, and carries the budget minus that page's `n_items` |
| Pagination.LinkedShrinks | scraper.py:278-284 | a follow-up request has a positive budget no larger than the one before, and a smaller one under the guard |
| Pagination.NextPagesBudgets | scraper.py:278-287 | request budgets stay between 1 and the first budget and never grow; under the guard they fall at every request |
| Pagination.BudgetsBelow | scraper.py:284 | budgets that never grow stay at or below the first |
| Pagination.GuardedFinishes | scraper.py:278-287 | the corrected walk always ends, after at most `budget` requests |
| Pagination.GuardedUserFinishes | scraper.py:342-351 | corrected `get_user_tweets` always ends once the server answers at least `max_count` times |
| Pagination.AsWrittenRepeatsRequest | scraper.py:278-287 | as written, on older pages that are all empty every request carries the same budget, so the walk asks again for as long as there are answers |
| Pagination.GuardedStopsOnEmptyPage | scraper.py:278-287 | corrected, the walk stops at the first empty page with what that page gave |
| Pagination.EmptyPageResult | scraper.py:166-201 | `process_html` on a page without tweet ids keeps nothing, is not stopped, and reads the first container's position |
| Pagination.EmptyAnswers | scraper.py:258-266 | `n` answers, each without tweets |
| Pagination.EmptyTimelineExample | scraper.py:278-287 | a profile with no tweets and ten asked for: as written the walk asks again for each of any number of empty answers; corrected it returns an empty map |
| Pagination.AsWrittenLaterFailureRaises | scraper.py:342-351 | as written, when the first older page cannot be fetched, `update(None)` raises and the profile page's tweets are lost |
| Pagination.GuardedLaterFailureKeeps | scraper.py:342-351 | corrected, the same failure returns the profile page's tweets |
| Pagination.GuardedNextNeverUpdatesWithNone | scraper.py:278-287 | the corrected walk over older pages never calls `update(None)` |
| Pagination.UserWalkNeverUpdatesWithNone | scraper.py:342-351 | corrected `get_user_tweets` never calls `update(None)`, for any reader that does not raise it |
| Pagination.UserWalkGoesOn | scraper.py:342-351 | the same, in the case where the profile page falls short |
| Pagination.GuardedNeverUpdatesWithNone | scraper.py:292-353 | corrected `get_user_tweets` with `process_html` never raises `TypeError` from `update(None)` |
| Pagination.RequestUrlsCons | scraper.py:239-240 | the URLs of a walk are the URL of its first request followed by those of the rest |
| Pagination.NextPagesStep | scraper.py:272-289 | a page that raises ends the walk with that exception; a page that does not fall short ends it with the page's map |
| Pagination.NextPagesContinue | scraper.py:278-287 | a page that falls short is followed by the walk from its `min_position` with the rest of the budget, merged in with `update` |
| Pagination.HtmlWalkerReadsAsHtml | scraper.py:272 | the walk's reader is `process_html` |
| Pagination.ReadPage | scraper.py:272-275 | reading a page gives what the reader gives, with `n_items` the map's size |
| Pagination.Update | scraper.py:280-287 | `tweet_map.update(later)`: later pages win on a shared id, and a later `None` raises as written but keeps the map under the guard |
| Pagination.NextPagesOf | scraper.py:205-289 | `get_next_page` sends exactly the requests of the walk, to `build_newpage_url` of their positions, and ends as the walk ends |
| Pagination.GetNextPage | scraper.py:205-289 | the same with `process_html` as the reader |
| Pagination.UserTweetsRequests | scraper.py:337-351 | older pages are asked for only after the profile page was read and fell short. The first starts at its `min_position` with `max_count` minus its `n_items`, with at most one per answer plus one |
| Pagination.UserTweetsContinue | scraper.py:342-351 | a profile page that falls short is followed by the older-page walk, merged in with `update` |
| Pagination.UserTweetsOf | scraper.py:292-353 | `get_user_tweets` sends exactly the requests of the walk, to their URLs, and ends as the walk ends |
| Pagination.GetUserTweets | scraper.py:292-353 | the same with `process_html` as the reader |
| Batch.GatherStep | scraper.py:377-387 | the loop over one more user is one more turn after the shorter loop |
| Batch.GatherSticks | scraper.py:377-387 | once a user's walk has raised, later users change nothing |
| Batch.GatherLast | scraper.py:383-386 | the last turn stores the user's map exactly when it is not empty |
| Batch.GatherKeys | scraper.py:383-386 | a user is in the result exactly when one of its walks returned a non-empty map |
| Batch.GatherLatest | scraper.py:383-384 | a user's entry is the map of its last walk that gave data |
| Batch.GatherEnds | scraper.py:377-387 | `get_tweets` returns exactly when every walk returned; otherwise it raises the first walk's exception |
| Batch.GuardedGathers | scraper.py:377-387 | with the corrected walk, `get_tweets` always ends when the server answers each user at least `max_count` times |
| Batch.GatherCollects | scraper.py:357-388 | every map `get_tweets` keeps is sound and holds at most `max_count` tweets |
| Batch.GetTweetsOf | scraper.py:357-388 | the loop of `get_tweets` equals its specification over the users' walks |
| Batch.WalkOf | scraper.py:381 | one call of `get_user_tweets` in that loop ends as the walk ends |
| Batch.GetTweets | scraper.py:357-388 | the same with `process_html` as the reader |
| Batch.GetUpdateInfo | scraper.py:391-434 | `None` exactly when the fetch failed, `IndexError` exactly when the page has no stream container, and otherwise the page with the first container's `data-max-position` |
| Batch.NewTweetsFacts | scraper.py:488-507 | `new_latent_count == 0` gives an empty map. Otherwise the map has a tweet under its own id for each of the first `new_latent_count` ids of the spliced page, at most that many, and nothing else |
| Batch.NewTweetsIgnoresItems | scraper.py:493-500 | the items an earlier call spliced into the stored page never change a later call's result |
| Batch.GetNewTweets | scraper.py:438-507 | `get_new_tweets` equals its specification |
| CliArgs.PositiveInt | cli/cli.py:33-49 | accepts exactly what `int` reads as a number above zero and returns that number; `ValueError` exactly when `int` cannot read it |
| CliArgs.PositiveIntRoundTrip | cli/cli.py:46-49 | the decimal spelling of a positive number is accepted as itself; that of any other number is refused as not positive |
| CliSort.OfAgeAppend | cli/cli.py:107-110 | the tweets of one age in a concatenation are those of each part, in order |
| CliSort.InsertPerm | cli/cli.py:112-114 | an insertion adds exactly the inserted tweet |
| CliSort.InsertAbove | cli/cli.py:112-114 | an insertion keeps a lower bound on the ages |
| CliSort.InsertSorted | cli/cli.py:112-114 | an insertion into a list sorted by age keeps it sorted |
| CliSort.OfAgeCons | cli/cli.py:112-114 | the tweets of one age of a list are those of its head followed by those of its tail |
| CliSort.InsertOfAge | cli/cli.py:112-114 | an insertion puts the tweet ahead of the tweets of its age and changes no other age's tweets |
| CliSort.InsertOfAgeStep | cli/cli.py:112-114 | the same, in the case where the tweet passes a strictly younger first tweet |
| CliSort.SortByAgeSorted | cli/cli.py:112-114 | `sorted` by `tweet_age` orders the tweets oldest first |
| CliSort.SortByAgePerm | cli/cli.py:112-114 | it keeps every tweet as often as it occurs |
| CliSort.SortByAgeStable | cli/cli.py:112-114 | it keeps tweets of equal age in their input order, as Python's stable sort does |
| CliSort.FlattenContents | cli/cli.py:107-110 | the collected list holds every tweet of every user, and only those |
| CliSort.Collect | cli/cli.py:107-110 | the loop appends the users' tweets one user after another |
| CliSort.SortTweets | cli/cli.py:96-117 | `sort_tweets` returns every collected tweet, as a permutation, oldest first, ties in collection order |
| CliFormat.Run | cli/cli.py:138 | `[^*]+` or `[^)]+` takes the longest prefix without the stop character, and the stop character follows it |
| CliFormat.RunOf | cli/cli.py:138 | a run followed by the stop character is exactly that run |
| CliFormat.MarkupStart | cli/cli.py:138 | a link's markup starts with `[~` and has the length of its parts |
| CliFormat.MatchLink | cli/cli.py:138 | a match at the start of the text has a name without `*` and a path without `)`, and the text starts with their markup |
| CliFormat.MatchLinkFinds | cli/cli.py:138 | every `[~~@~~**name**](path)` is matched with its own name and path |
| CliFormat.RewriteLink | cli/cli.py:138-141 | such markup becomes `[@name](https://twitter.com<path>)` and the scan goes on after it |
| CliFormat.RewriteCopies | cli/cli.py:138-141 | a character where no match can start is copied |
| CliFormat.RewritePlain | cli/cli.py:138-148 | text without `[` is copied unchanged |
| CliFormat.TrimNewlines | cli/cli.py:197 | `\n+$` removes the whole trailing run of new lines and nothing else |
| CliFormat.TrimNewlinesAppended | cli/cli.py:197 | new lines appended to a text are all removed again |
| CliFormat.TabLines | cli/cli.py:202 | the tabbed text is no shorter and ends as the text does |
| CliFormat.TabLinesTabs | cli/cli.py:202 | every new line of the tabbed text is followed by a tab |
| CliFormat.UntabTabLines | cli/cli.py:202 | dropping the tab after each new line gives the text back |
| CliFormat.AddTabs | cli/cli.py:200-202 | with `add_tabs`, the result starts with a tab |
| CliFormat.AddTabsRoundTrip | cli/cli.py:200-202 | the tabbed result without its added tabs is the text |
| CliFormat.FormatTweet | cli/cli.py:120-205 | the result never ends with a new line, starts with a tab under `add_tabs`, and otherwise is a prefix of the rewritten text |
| CliFormat.FormatTweetPlain | cli/cli.py:138-197 | a tweet without links only loses its trailing new lines |
| CliFormat.LinkTail | cli/cli.py:139 | a rewritten link holds no `[` after its first character |
| CliFormat.RewriteLinkAgain | cli/cli.py:145-148 | a rewritten mention is left alone by the hashtag rewrite |
| CliFormat.FormatTweetMention | cli/cli.py:138-148 | a tweet that is one mention becomes the absolute link to that profile |
| CliUsers.LineLength | cli/cli.py:381 | a file line runs up to its first new line |
| CliUsers.PrefixNoNewline | cli/cli.py:381 | a prefix has no new line exactly when none of its characters is one |
| CliUsers.LinesStep | cli/cli.py:381 | the first line of a file runs up to and includes its first new line |
| CliUsers.JoinCons | cli/cli.py:381 | joining a line before some lines puts that line first |
| CliUsers.LinesJoin | cli/cli.py:381 | the lines of a file, joined, are the file |
| CliUsers.WellSplitCons | cli/cli.py:381 | a line ended by its only new line can go in front of well-split lines |
| CliUsers.LinesShape | cli/cli.py:381 | every line is non-empty, every line but the last ends with its only new line, and the last has no other |
| CliUsers.CommentAt | cli/cli.py:384 | finds the first `//` of a line, or none when there is none |
| CliUsers.DropBlanks | cli/cli.py:384 | removes exactly the trailing spaces and tabs |
| CliUsers.StripComment | cli/cli.py:384 | `[ \t]*//.*$` leaves a line without `//` as it is; otherwise it leaves the text before the first `//` without its trailing blanks, exactly those blanks removed, and the result has no `//` |
| CliUsers.CommentFreePrefix | cli/cli.py:384 | a prefix before the first `//` holds no `//` |
| CliUsers.Keep | cli/cli.py:386-387 | every kept name is non-empty and holds no `//`, with no more names than lines |
| CliUsers.LoadUsers | cli/cli.py:379-387 | the loop over the file's lines gives exactly the parsed names, each non-empty and without `//` |
| CliUsers.LinesCons | cli/cli.py:381 | a file that starts with a name and a new line has that line first |
| CliUsers.CleanName | cli/cli.py:382-384 | a name line loses only its new line |
| CliUsers.KeepAppend | cli/cli.py:386-387 | one more line at the end appends its clean form, when it is not empty |
| CliUsers.KeepPrepend | cli/cli.py:386-387 | one more line in front puts its clean form first, when it is not empty |
| CliUsers.KeepPrependStep | cli/cli.py:386-387 | the same, over a non-empty rest |
| CliUsers.ParseUsersFile | cli/cli.py:379-387 | a file written one name per line reads back as those names, in order |
| CliUsers.CommentedName | cli/cli.py:382-384 | a name followed by blanks and a `//` comment reads as the name alone |
| CliUsers.CommentAtIs | cli/cli.py:384 | the first `//` is found where it is |
| CliUsers.DropBlanksOf | cli/cli.py:384 | blanks after a name that does not end in a blank are all removed |
| CliPoll.Without | cli/cli.py:317 | a user is kept exactly when it is listed and not marked |
| CliPoll.WithoutAppend | cli/cli.py:317 | the filter keeps the order of the users it keeps |
| CliPoll.FetchRaises | cli/cli.py:306-314 | the initial loop raises exactly when some `get_update_info` raises |
| CliPoll.FetchKeys | cli/cli.py:306-314 | otherwise `info` has an entry for every user, and only for them |
| CliPoll.FetchMarks | cli/cli.py:310-314 | `del_items` names exactly the users some lookup gave `None` for |
| CliPoll.FetchReady | cli/cli.py:306-314 | every user not marked has a stored page |
| CliPoll.ReadyStep | cli/cli.py:306-314 | one more user of the initial loop keeps that so |
| CliPoll.StartPollingFacts | cli/cli.py:304-321 | the set-up raises exactly when a lookup raises. It goes on with exactly the users no lookup failed for, each with a stored page. As written it stops only when given no user; corrected, only when no user is left |
| CliPoll.PollsNobody | cli/cli.py:317-321 | as written, one user whose fetch fails leaves polling going on for nobody; corrected, it stops |
| CliPoll.TurnFacts | cli/cli.py:328-339 | a turn keeps the users with an entry, leaves the others' entries alone, and changes the user's entry only after news, to what the refresh gave. It raises `TypeError` exactly for an entry holding `None` |
| CliPoll.RoundFacts | cli/cli.py:328-339 | a round keeps the users with an entry and leaves unpolled users alone. It changes an entry only to a refresh that user's turn read |
| CliPoll.GuardedRoundReady | cli/cli.py:328-339 | corrected, a round keeps every user's page stored and raises only what the scraper raises |
| CliPoll.TurnReady | cli/cli.py:328-339 | the same for one turn |
| CliPoll.GuardedPollingReady | cli/cli.py:304-339 | corrected, after the set-up no round ever reads a missing or `None` entry |
| CliPoll.RoundsReady | cli/cli.py:323-339 | the same round after round, from any state where every user has a page |
| CliPoll.RefreshFailureBreaksNextRound | cli/cli.py:329-339 | as written, a refresh that fails stores `None` and the next round raises `TypeError`; corrected, the page stored before stays |
| CliPoll.FetchAll | cli/cli.py:306-314 | the initial loop equals its specification |
| CliPoll.FetchSticks | cli/cli.py:306-314 | once it has raised, later users do not matter |
| CliPoll.Start | cli/cli.py:304-321 | the set-up equals its specification |
| CliPoll.PollRound | cli/cli.py:328-339 | one pass of the polling loop equals its specification |
| CliPoll.ReadNews | cli/cli.py:329-332 | `get_new_tweets` on a stored page gives what the round's reader gives |
| CliPoll.RoundStep | cli/cli.py:328-339 | a round over one more user is that user's turn after the shorter round |
| CliPoll.RoundSticks | cli/cli.py:328-339 | once a round has raised, the later turns do not matter |
| CliPoll.NewTweetsReadsNews | cli/cli.py:329-332 | the round's reader is `get_new_tweets` |
| CliPoll.PollOnce | cli/cli.py:328-339 | one pass of the polling loop with `get_new_tweets` equals its specification |

## Left out

- Network I/O (`urllib2.urlopen`) is not modelled. The `HTTPError`, `URLError` and `SSLError` that each fetch maps to `None` become an optional input: the page or answer, or `None`. Timeouts are not modelled.
- Pagination.NextPages: the older-page endpoint is a finite script of answers. When the script runs out the walk ends as `Unfinished`, so a walk that would go on asking shows as one that outlasts any script.
- Pagination.NextPages: the interpreter's recursion limit is not modelled. `get_next_page` calls itself once per older page, so after about a thousand nested calls CPython raises `RuntimeError`. The model has no depth bound and reports `Unfinished` however long the script is.
- Tweets.HtmlResult: the stream container's `data-min-position` is taken as a number. The `KeyError` a missing attribute would raise and the `ValueError` from `int` on a non-numeric one (scraper.py:194) are not modelled.
- HTML parsing and CSS selection (BeautifulSoup) are not modelled. A page is the text the id pattern is searched in, the tweet elements in document order, the profile avatars and the stream containers.
- Tweets.Find looks for an id only among the tweet elements of the stream items, where `parsed.find` searches the whole document. A page whose element for an id lies outside `#stream-items-id` is not represented.
- Tweets.ProcessTweet: the `select(...)[0]` look-ups inside a tweet element (timestamp, content, avatar, text container) and its attributes are taken as present. The `IndexError` or `KeyError` a malformed element would raise is not modelled, and neither is the `ValueError` from `int` on a non-numeric `data-time`, `data-user-id` or `data-conversation-id`.
- Tweets.Splice: the page always has a `#stream-items-id` element. The `IndexError` when it is missing (scraper.py:265, 496) is not modelled.
- `html2text` and `markdown` are foreign libraries. The tweet text is kept as the converted markdown, and the `strip` branch of `format_tweet` (cli/cli.py:150-193) is not modelled.
- JSON decoding of the endpoint's answers is not modelled. An answer is its decoded `items_html`, `min_position` and `new_latent_count`.
- Tweets.TooOld compares the epochs as integers, where the code compares `datetime.fromtimestamp` of both. That gives naive local time, which repeats an hour when daylight saving ends. Two epochs within that hour can compare the other way round in the code, and the model does not capture that.
- Logging, `tqdm`, `notify2` notifications, `argparse` set-up, `print_tweets` and the `get_tweets` wrapper of the front end (cli/cli.py:208-280) only display data and are not modelled.
- CliPoll.Rounds: `time.sleep`, the endless `while True` loop and the `KeyboardInterrupt` handler are not modelled. Polling is a given finite sequence of rounds, each a given answer per user.
- CliPoll.Turn: the poll answer and the refreshed `get_update_info` result are inputs. The URL the poll is sent to (`build_update_url` with the stored `max_pos`) is modelled on its own by Urls.BuildUpdateUrl and is not tracked per turn.
- CliPoll.Turn: `get_new_tweets` splices the new items into the page object stored in `info[u]`, in place. The model keeps the stored page unchanged. Batch.NewTweetsIgnoresItems shows no later result can tell the difference.
- Dictionary iteration order (`tweet_map.values()` in `sort_tweets`) is not modelled. The users' maps are given as a sequence in the order the dictionary yields them, and each map's tweets as a sequence.
- Pagination.NextPagesBudgets does not prove that "the budgets of all requests add up to at most `max_count`", because that does not hold. After a first page of 1 of 10 tweets the next request asks for 9, so 10 + 9 already exceeds 10. What is proved instead:
  - each budget is the previous one minus the tweets of the page between them (NextPagesChain);
  - budgets never grow (NextPagesBudgets);
  - the returned map never exceeds `max_count` (Pagination.UserTweetsCollect).
- Decimal.ParseInt does not accept whitespace between a sign and the digits. Some Python 2 releases accept that in `int`.
- Dafny's unbounded integers stand for Python's integers. Python 2 promotes `int` to `long` on overflow, so no wrap-around is lost.

## Findings

| source | as written | input that shows it | evidently intended | confidence | as-written member | corrected member |
|---|---|---|---|---|---|---|
| scraper.py:278-287 | a page that yields no tweet leaves `n_items = 0 < max_count`, so `get_next_page` recurses with the same budget until the recursion limit raises `RuntimeError` | a user with no tweets and `max_count = 10`: every answer has empty `items_html` | stop after a page that yields no new tweet | not executed | Pagination.AsWrittenRepeatsRequest | Pagination.GuardedFinishes |
| scraper.py:342-351 | the same recursion from `get_user_tweets` on an empty timeline, which asks until the recursion limit and then raises `RuntimeError` | the quiet profile of Pagination.EmptyTimelineExample | stop, returning what was collected | not executed | Pagination.EmptyTimelineExample | Pagination.GuardedStopsOnEmptyPage |
| scraper.py:280-287, 344-351 | `tweet_map.update(get_next_page(...))` raises `TypeError` when the later page's fetch fails and returns `None`. The user's tweets are lost and the exception escapes `get_tweets` | a profile page with 3 of 10 tweets, then an `HTTPError` on the first older page | keep the tweets collected so far | not executed | Pagination.AsWrittenLaterFailureRaises | Pagination.GuardedLaterFailureKeeps |
| cli/cli.py:317-321 | `len(info) <= 0` counts the `None` entries of failed users, so polling goes on with an empty user list | one user whose initial fetch fails | return when no user is left to poll | not executed | CliPoll.PollsNobody | CliPoll.StartPollingFacts |
| cli/cli.py:339, 329-332 | a failed refresh stores `None` in `info[u]`, and the next round's `info[u]["max_pos"]` raises `TypeError`, which ends `poll` | a user with news whose refresh fetch fails | keep the page stored before | not executed | CliPoll.RefreshFailureBreaksNextRound | CliPoll.GuardedPollingReady |
