/**
  The budgeted walk over a user's timeline: `get_user_tweets` reads the
  profile page, and while a page yields fewer tweets than asked for and the
  age floor was not reached, `get_next_page` asks the infinite-scroll
  endpoint for the rest, starting from the position the previous answer
  gave, and merges what it gets with `tweet_map.update(...)`.

  The network is a script of answers, consumed one per request: `None` is a
  request that failed (HTTP, URL or SSL error), `Some` a decoded JSON
  answer.  The script is the walk's fuel: when it runs out while the walk
  still wants a page, the walk is `Unfinished`.
*/
module Pagination {
  import opened Wrappers
  import opened Urls
  import opened Scan
  import opened Tweets

  /**
    `AsWritten` follows the source.  `Guarded` is the walk with its two
    defects corrected: it stops after a page that yields no tweet, and a
    later page that cannot be fetched leaves the tweets already collected
    instead of raising `TypeError` from `update(None)`.
  */
  datatype Policy = AsWritten | Guarded

  /** A decoded answer of the timeline endpoint: its `items_html` and `min_position`. */
  datatype Response = Response(items: Items, minPosition: int)

  /** One older-tweets request: the position it starts from and the `max_count` it passes on. */
  datatype Request = Request(position: int, budget: int)

  /** How a walk ended: what it returned (a dictionary or None), an exception, or the script ran out. */
  datatype Outcome = Returned(tweets: Option<TweetMap>) | Raised(fault: Fault) | Unfinished

  /** The older-tweets requests a walk sent, in order, and how it ended. */
  datatype Walk = Walk(requests: seq<Request>, outcome: Outcome)

  /** The URL a request is sent to. */
  function RequestUrl(username: string, req: Request): string {
    BuildNewpageUrl(username, req.position)
  }

  /** The URLs of a walk's requests, in order. */
  function RequestUrls(username: string, reqs: seq<Request>): (urls: seq<string>)
    ensures |urls| == |reqs|
    decreases |reqs|
  {
    if reqs == [] then [] else [RequestUrl(username, reqs[0])] + RequestUrls(username, reqs[1..])
  }

  /**
    How the walk reads one page, given the `max_count` it passes on.  The
    walk is stated for any such reader; the scraper's is `HtmlWalker`.
  */
  type PageWalker = (Page, Option<int>) -> Result<PageResult, Fault>

  /** `process_html(str(page), max_count, older_age)`. */
  function HtmlWalker(olderAge: Option<int>): PageWalker {
    (page: Page, maxCount: Option<int>) => HtmlResult(page, maxCount, olderAge)
  }

  /**
    `n_items < max_count and not older_age_reached`, with Python 2's
    `n < None` being False; the corrected walk also stops on an empty page.
  */
  predicate Continues(policy: Policy, count: nat, budget: Option<int>, reached: bool) {
    budget.Some? && count < budget.value && !reached && (policy == AsWritten || count > 0)
  }

  /** `tweet_map.update(later)`: the later pages' tweets win on a shared id. */
  function Merge(policy: Policy, mine: TweetMap, later: Outcome): Outcome {
    match later
    case Returned(Some(m)) => Returned(Some(mine + m))
    case Returned(None) => if policy == AsWritten then Raised(UpdateWithNone) else Returned(Some(mine))
    case Raised(f) => Raised(f)
    case Unfinished => Unfinished
  }

  /**
    `get_next_page(username, position, full, budget, older_age)`: the
    answer's items replace the stream items of `full`, the page is walked
    with `budget` as `max_count`, and the rest is asked for with the
    answer's `min_position` and what is left of the budget.
  */
  function NextPages(policy: Policy, walker: PageWalker, full: Page, position: int, budget: int,
                     answers: seq<Option<Response>>): Walk
    decreases |answers|
  {
    var req := Request(position, budget);
    if answers == [] then Walk([req], Unfinished)
    else
      match answers[0]
      case None => Walk([req], Returned(None))
      case Some(resp) =>
        var page := Splice(full, resp.items);
        match walker(page, Some(budget))
        case Raise(f) => Walk([req], Raised(f))
        case Ok(pr) =>
          if Continues(policy, pr.count, Some(budget), pr.reached) then
            var rest := NextPages(policy, walker, page, resp.minPosition, budget - pr.count, answers[1..]);
            Walk([req] + rest.requests, Merge(policy, pr.tweets, rest.outcome))
          else Walk([req], Returned(Some(pr.tweets)))
  }

  /**
    `get_user_tweets(username, max_count, older_age)`: the profile page (None
    when it could not be fetched) is walked with `max_count`, and the older
    pages are asked for as in `get_next_page`.
  */
  function UserTweets(policy: Policy, walker: PageWalker, maxCount: Option<int>, profile: Option<Page>,
                      answers: seq<Option<Response>>): Walk
  {
    match profile
    case None => Walk([], Returned(None))
    case Some(page) =>
      match walker(page, maxCount)
      case Raise(f) => Walk([], Raised(f))
      case Ok(pr) =>
        if Continues(policy, pr.count, maxCount, pr.reached) then
          var rest := NextPages(policy, walker, page, pr.minPosition, maxCount.value - pr.count, answers);
          Walk(rest.requests, Merge(policy, pr.tweets, rest.outcome))
        else Walk([], Returned(Some(pr.tweets)))
  }

  /** Every tweet of a dictionary is stored under its own id and passed the age filter. */
  predicate Sound(olderAge: Option<int>, m: TweetMap) {
    forall i | i in m :: m[i].tweetId == i && Admitted(olderAge, m[i].data)
  }

  /**
    What the walk relies on from reading a page: a sound dictionary of
    `n_items` tweets, at most `max_count` of them, and none of the faults
    the walk itself raises.
  */
  ghost predicate Honest(walker: PageWalker, olderAge: Option<int>) {
    forall page: Page, maxCount: Option<int> ::
      var r := walker(page, maxCount);
      && (r.Ok? ==> Sound(olderAge, r.value.tweets) && r.value.count == |r.value.tweets|
                    && (maxCount.Some? && maxCount.value >= 0 ==> r.value.count <= maxCount.value))
      && (r.Raise? ==> r.error != UpdateWithNone)
  }

  /** `process_html` never raises `UpdateWithNone`: its faults come from a verdict or the stream container. */
  lemma HtmlResultFaults(page: Page, maxCount: Option<int>, olderAge: Option<int>)
    requires HtmlResult(page, maxCount, olderAge).Raise?
    ensures HtmlResult(page, maxCount, olderAge).error != UpdateWithNone
  {
    var ids := Limit(PageIds(page), maxCount);
    var vs := Verdicts(page, olderAge, ids);
    if Select(vs).Raise? {
      SelectRaises(vs);
      var j :| 0 <= j < |vs| && vs[j] == Raise(Select(vs).error) && Select(vs[..j]).Ok? && !Select(vs[..j]).value.reached;
      VerdictFaults(page, olderAge, ids[j]);
    }
  }

  /** The scraper's page reader is one the walk can rely on. */
  lemma HtmlWalkerHonest(olderAge: Option<int>)
    ensures Honest(HtmlWalker(olderAge), olderAge)
  {
    forall page: Page, maxCount: Option<int>
      ensures var r := HtmlWalker(olderAge)(page, maxCount);
        && (r.Ok? ==> Sound(olderAge, r.value.tweets) && r.value.count == |r.value.tweets|
                      && (maxCount.Some? && maxCount.value >= 0 ==> r.value.count <= maxCount.value))
        && (r.Raise? ==> r.error != UpdateWithNone)
    {
      var r := HtmlResult(page, maxCount, olderAge);
      if r.Ok? {
        HtmlResultFacts(page, maxCount, olderAge);
        var m := r.value.tweets;
        forall i | i in m
          ensures m[i].tweetId == i && Admitted(olderAge, m[i].data)
        {
          assert Stored(page, olderAge, i, m[i]);
        }
      } else {
        HtmlResultFaults(page, maxCount, olderAge);
      }
    }
  }

  /** `update` keeps both dictionaries sound and holds at most the tweets of both. */
  lemma UpdateSound(olderAge: Option<int>, a: TweetMap, b: TweetMap)
    requires Sound(olderAge, a) && Sound(olderAge, b)
    ensures Sound(olderAge, a + b)
    ensures |a + b| <= |a| + |b|
  {
    assert (a + b).Keys == a.Keys + b.Keys;
  }

  /**
    Merging what the later pages returned, within what is left of the
    budget, into a page's sound dictionary stays sound and within the budget.
  */
  lemma MergeCollected(policy: Policy, olderAge: Option<int>, mine: TweetMap, later: Outcome, budget: int)
    requires Sound(olderAge, mine) && |mine| < budget
    requires later.Returned? && later.tweets.Some? ==>
      Sound(olderAge, later.tweets.value) && |later.tweets.value| <= budget - |mine|
    ensures var out := Merge(policy, mine, later);
      out.Returned? && out.tweets.Some? ==> Sound(olderAge, out.tweets.value) && |out.tweets.value| <= budget
  {
    if later.Returned? && later.tweets.Some? {
      UpdateSound(olderAge, mine, later.tweets.value);
    }
  }

  /**
    With an honest page reader, a walk over older pages that returns a
    dictionary returns a sound one, with no more tweets than its budget.
  */
  lemma {:induction false} NextPagesCollect(policy: Policy, walker: PageWalker, olderAge: Option<int>, full: Page,
                                            position: int, budget: int, answers: seq<Option<Response>>)
    requires Honest(walker, olderAge)
    ensures var out := NextPages(policy, walker, full, position, budget, answers).outcome;
      out.Returned? && out.tweets.Some? ==>
        Sound(olderAge, out.tweets.value) && (budget >= 0 ==> |out.tweets.value| <= budget)
    decreases |answers|, 1
  {
    if answers != [] && answers[0].Some? {
      var page := Splice(full, answers[0].value.items);
      var hr := walker(page, Some(budget));
      if hr.Ok? && Continues(policy, hr.value.count, Some(budget), hr.value.reached) {
        NextPagesCollectStep(policy, walker, olderAge, full, position, budget, answers);
      }
    }
  }

  /** The step of `NextPagesCollect` where the page is read and falls short, so the walk goes on. */
  lemma {:induction false} NextPagesCollectStep(policy: Policy, walker: PageWalker, olderAge: Option<int>, full: Page,
                                                position: int, budget: int, answers: seq<Option<Response>>)
    requires Honest(walker, olderAge) && answers != [] && answers[0].Some?
    requires var hr := walker(Splice(full, answers[0].value.items), Some(budget));
      hr.Ok? && Continues(policy, hr.value.count, Some(budget), hr.value.reached)
    ensures var out := NextPages(policy, walker, full, position, budget, answers).outcome;
      out.Returned? && out.tweets.Some? ==>
        Sound(olderAge, out.tweets.value) && |out.tweets.value| <= budget
    decreases |answers|, 0
  {
    var resp := answers[0].value;
    var page := Splice(full, resp.items);
    var pr := walker(page, Some(budget)).value;
    assert Sound(olderAge, pr.tweets) && pr.count == |pr.tweets|;
    var w := NextPages(policy, walker, page, resp.minPosition, budget - pr.count, answers[1..]);
    assert NextPages(policy, walker, full, position, budget, answers).outcome == Merge(policy, pr.tweets, w.outcome);
    NextPagesCollect(policy, walker, olderAge, page, resp.minPosition, budget - pr.count, answers[1..]);
    MergeCollected(policy, olderAge, pr.tweets, w.outcome, budget);
  }


  /**
    With an honest page reader, `get_user_tweets` returns a sound
    dictionary, and with a non-negative `max_count` no more than
    `max_count` tweets over all pages.
  */
  lemma UserWalkCollect(policy: Policy, walker: PageWalker, olderAge: Option<int>, maxCount: Option<int>,
                        profile: Option<Page>, answers: seq<Option<Response>>)
    requires Honest(walker, olderAge)
    ensures var out := UserTweets(policy, walker, maxCount, profile, answers).outcome;
      out.Returned? && out.tweets.Some? ==>
        Sound(olderAge, out.tweets.value)
        && (maxCount.Some? && maxCount.value >= 0 ==> |out.tweets.value| <= maxCount.value)
  {
    if profile.Some? {
      var hr := walker(profile.value, maxCount);
      if hr.Ok? && Continues(policy, hr.value.count, maxCount, hr.value.reached) {
        UserWalkCollectStep(policy, walker, olderAge, maxCount, profile.value, answers);
      }
    }
  }

  /** The case of `UserWalkCollect` where the profile page is read and falls short, so the walk goes on. */
  lemma UserWalkCollectStep(policy: Policy, walker: PageWalker, olderAge: Option<int>, maxCount: Option<int>,
                            page: Page, answers: seq<Option<Response>>)
    requires Honest(walker, olderAge)
    requires var hr := walker(page, maxCount);
      hr.Ok? && Continues(policy, hr.value.count, maxCount, hr.value.reached)
    ensures var out := UserTweets(policy, walker, maxCount, Some(page), answers).outcome;
      out.Returned? && out.tweets.Some? ==>
        Sound(olderAge, out.tweets.value) && |out.tweets.value| <= maxCount.value
  {
    var pr := walker(page, maxCount).value;
    assert Sound(olderAge, pr.tweets) && pr.count == |pr.tweets|;
    var w := NextPages(policy, walker, page, pr.minPosition, maxCount.value - pr.count, answers);
    assert UserTweets(policy, walker, maxCount, Some(page), answers).outcome == Merge(policy, pr.tweets, w.outcome);
    NextPagesCollect(policy, walker, olderAge, page, pr.minPosition, maxCount.value - pr.count, answers);
    MergeCollected(policy, olderAge, pr.tweets, w.outcome, maxCount.value);
  }


  /**
    `get_user_tweets` returns a dictionary of tweets each stored under its
    own id and admitted by the age filter, and with a non-negative
    `max_count` no more than `max_count` tweets over all pages.
  */
  lemma UserTweetsCollect(policy: Policy, maxCount: Option<int>, olderAge: Option<int>, profile: Option<Page>,
                          answers: seq<Option<Response>>)
    ensures var out := UserTweets(policy, HtmlWalker(olderAge), maxCount, profile, answers).outcome;
      out.Returned? && out.tweets.Some? ==>
        Sound(olderAge, out.tweets.value)
        && (maxCount.Some? && maxCount.value >= 0 ==> |out.tweets.value| <= maxCount.value)
  {
    HtmlWalkerHonest(olderAge);
    UserWalkCollect(policy, HtmlWalker(olderAge), olderAge, maxCount, profile, answers);
  }

  /** Replacing the stream items twice is replacing them once with the second set. */
  lemma SpliceTwice(page: Page, a: Items, b: Items)
    ensures Splice(Splice(page, a), b) == Splice(page, b)
  {
  }

  /**
    `next` is the request sent after `r`: the answer to `r` arrived, the
    page it gives was read, yielded fewer tweets than `r`'s budget and did
    not reach the age floor, and `next` starts from the answer's
    `min_position` with the budget less what that page yielded.
  */
  predicate Linked(policy: Policy, walker: PageWalker, full: Page, answer: Option<Response>, r: Request, next: Request) {
    && answer.Some?
    && var hr := walker(Splice(full, answer.value.items), Some(r.budget));
    && hr.Ok?
    && Continues(policy, hr.value.count, Some(r.budget), hr.value.reached)
    && next == Request(answer.value.minPosition, r.budget - hr.value.count)
  }

  /** Which page the answers are spliced into does not matter to `Linked`. */
  lemma LinkedSplice(policy: Policy, walker: PageWalker, full: Page, items: Items, answer: Option<Response>,
                     r: Request, next: Request)
    ensures Linked(policy, walker, Splice(full, items), answer, r, next) == Linked(policy, walker, full, answer, r, next)
  {
    if answer.Some? {
      SpliceTwice(full, items, answer.value.items);
    }
  }

  /**
    The requests of a walk over older pages: the first starts at `position`
    with the whole budget, there is at most one per answer plus the last
    one, and each further request is linked to the one before it.
  */
  lemma {:induction false} NextPagesChain(policy: Policy, walker: PageWalker, full: Page, position: int, budget: int,
                                          answers: seq<Option<Response>>)
    ensures var rs := NextPages(policy, walker, full, position, budget, answers).requests;
      && 1 <= |rs| <= |answers| + 1
      && rs[0] == Request(position, budget)
      && forall k | 0 <= k < |rs| - 1 :: Linked(policy, walker, full, answers[k], rs[k], rs[k + 1])
    decreases |answers|
  {
    var rs := NextPages(policy, walker, full, position, budget, answers).requests;
    if answers != [] && answers[0].Some? {
      var resp := answers[0].value;
      var page := Splice(full, resp.items);
      var hr := walker(page, Some(budget));
      if hr.Ok? && Continues(policy, hr.value.count, Some(budget), hr.value.reached) {
        var b := budget - hr.value.count;
        var tail := answers[1..];
        var rest := NextPages(policy, walker, page, resp.minPosition, b, tail).requests;
        assert rs == [Request(position, budget)] + rest;
        NextPagesChain(policy, walker, page, resp.minPosition, b, tail);
        assert Linked(policy, walker, full, answers[0], rs[0], rs[1]);
        forall k | 0 < k < |rs| - 1
          ensures Linked(policy, walker, full, answers[k], rs[k], rs[k + 1])
        {
          assert answers[k] == tail[k - 1];
          assert rs[k] == rest[k - 1] && rs[k + 1] == rest[k];
          LinkedSplice(policy, walker, full, resp.items, answers[k], rs[k], rs[k + 1]);
        }
      }
    }
  }

  /** A linked request has a positive budget no larger than the one before it, and smaller when corrected. */
  lemma LinkedShrinks(policy: Policy, walker: PageWalker, full: Page, answer: Option<Response>, r: Request, next: Request)
    requires Linked(policy, walker, full, answer, r, next)
    ensures 0 < next.budget <= r.budget
    ensures policy == Guarded ==> next.budget < r.budget
  {
  }

  /**
    The budgets of a walk over older pages lie between 1 and the first
    budget after the first request, never grow, and fall at every request
    of the corrected walk.
  */
  lemma NextPagesBudgets(policy: Policy, walker: PageWalker, full: Page, position: int, budget: int,
                         answers: seq<Option<Response>>)
    ensures var rs := NextPages(policy, walker, full, position, budget, answers).requests;
      && (forall k | 0 < k < |rs| :: 0 < rs[k].budget <= budget)
      && (forall k | 0 <= k < |rs| - 1 :: rs[k + 1].budget <= rs[k].budget)
      && (policy == Guarded ==> forall k | 0 <= k < |rs| - 1 :: rs[k + 1].budget < rs[k].budget)
  {
    var rs := NextPages(policy, walker, full, position, budget, answers).requests;
    NextPagesChain(policy, walker, full, position, budget, answers);
    forall k | 0 < k < |rs|
      ensures 0 < rs[k].budget <= rs[k - 1].budget
      ensures policy == Guarded ==> rs[k].budget < rs[k - 1].budget
    {
      LinkedShrinks(policy, walker, full, answers[k - 1], rs[k - 1], rs[k]);
    }
    assert forall k | 0 <= k < |rs| - 1 :: rs[k + 1].budget <= rs[k].budget by {
      forall k | 0 <= k < |rs| - 1
        ensures rs[k + 1].budget <= rs[k].budget
      {
        assert rs[(k + 1) - 1] == rs[k];
      }
    }
    BudgetsBelow(rs, budget);
  }

  /** Budgets that never grow stay at or below the first. */
  lemma {:induction false} BudgetsBelow(rs: seq<Request>, budget: int)
    requires |rs| > 0 && rs[0].budget == budget
    requires forall k | 0 <= k < |rs| - 1 :: rs[k + 1].budget <= rs[k].budget
    ensures forall k | 0 <= k < |rs| :: rs[k].budget <= budget
    decreases |rs|
  {
    if |rs| > 1 {
      BudgetsBelow(rs[..|rs| - 1], budget);
      assert rs[|rs| - 1].budget <= rs[|rs| - 2].budget;
    }
  }

  /**
    The corrected walk always ends when the script holds at least one
    answer and no fewer answers than the budget: every further request
    follows a page that yielded at least one tweet, so the budget falls by
    at least one each time.  It then sends at most `budget` requests.
  */
  lemma {:induction false} GuardedFinishes(walker: PageWalker, full: Page, position: int, budget: int,
                                           answers: seq<Option<Response>>)
    requires 0 < |answers| && budget <= |answers|
    ensures NextPages(Guarded, walker, full, position, budget, answers).outcome != Unfinished
    ensures |NextPages(Guarded, walker, full, position, budget, answers).requests| <= if budget > 1 then budget else 1
    decreases |answers|
  {
    var w := NextPages(Guarded, walker, full, position, budget, answers);
    if answers[0].Some? {
      var resp := answers[0].value;
      var page := Splice(full, resp.items);
      var hr := walker(page, Some(budget));
      if hr.Ok? && Continues(Guarded, hr.value.count, Some(budget), hr.value.reached) {
        var pr := hr.value;
        var rest := NextPages(Guarded, walker, page, resp.minPosition, budget - pr.count, answers[1..]);
        assert w == Walk([Request(position, budget)] + rest.requests, Merge(Guarded, pr.tweets, rest.outcome));
        GuardedFinishes(walker, page, resp.minPosition, budget - pr.count, answers[1..]);
      }
    }
  }

  /**
    `get_user_tweets` with the corrected walk always ends when the script
    holds at least `max_count` answers.
  */
  lemma GuardedUserFinishes(walker: PageWalker, maxCount: Option<int>, profile: Option<Page>,
                            answers: seq<Option<Response>>)
    requires maxCount.None? || maxCount.value <= |answers|
    ensures UserTweets(Guarded, walker, maxCount, profile, answers).outcome != Unfinished
  {
    if profile.Some? {
      var hr := walker(profile.value, maxCount);
      if hr.Ok? && Continues(Guarded, hr.value.count, maxCount, hr.value.reached) {
        var pr := hr.value;
        var rest := NextPages(Guarded, walker, profile.value, pr.minPosition, maxCount.value - pr.count, answers);
        assert UserTweets(Guarded, walker, maxCount, profile, answers).outcome == Merge(Guarded, pr.tweets, rest.outcome);
        GuardedFinishes(walker, profile.value, pr.minPosition, maxCount.value - pr.count, answers);
      }
    }
  }

  /** The stream items of an answer that carries no tweet. */
  const EmptyItems := Items("", [])

  /**
    The walk as written keeps asking on a timeline whose older pages are
    all empty: a page that yields nothing leaves the budget as it was, and
    the same request is made again, one nested call deeper each time, for
    as long as the script of answers lasts.
  */
  lemma {:induction false} AsWrittenRepeatsRequest(walker: PageWalker, full: Page, position: int, budget: int,
                                                  answers: seq<Option<Response>>)
    requires budget > 0
    requires walker(Splice(full, EmptyItems), Some(budget)).Ok?
    requires walker(Splice(full, EmptyItems), Some(budget)).value.count == 0
    requires !walker(Splice(full, EmptyItems), Some(budget)).value.reached
    requires forall k | 0 <= k < |answers| :: answers[k].Some? && answers[k].value.items == EmptyItems
    ensures var w := NextPages(AsWritten, walker, full, position, budget, answers);
      && w.outcome == Unfinished
      && |w.requests| == |answers| + 1
      && forall k | 0 <= k < |w.requests| :: w.requests[k].budget == budget
    decreases |answers|
  {
    if answers != [] {
      var resp := answers[0].value;
      var page := Splice(full, EmptyItems);
      SpliceTwice(full, EmptyItems, EmptyItems);
      var pr := walker(page, Some(budget)).value;
      var rest := NextPages(AsWritten, walker, page, resp.minPosition, budget, answers[1..]);
      assert NextPages(AsWritten, walker, full, position, budget, answers)
          == Walk([Request(position, budget)] + rest.requests, Merge(AsWritten, pr.tweets, rest.outcome));
      AsWrittenRepeatsRequest(walker, page, resp.minPosition, budget, answers[1..]);
    }
  }

  /** The corrected walk stops at the first empty page, with nothing from it. */
  lemma GuardedStopsOnEmptyPage(walker: PageWalker, full: Page, position: int, budget: int,
                                answers: seq<Option<Response>>)
    requires walker(Splice(full, EmptyItems), Some(budget)).Ok?
    requires walker(Splice(full, EmptyItems), Some(budget)).value.count == 0
    requires answers != [] && answers[0].Some? && answers[0].value.items == EmptyItems
    ensures NextPages(Guarded, walker, full, position, budget, answers)
         == Walk([Request(position, budget)], Returned(Some(walker(Splice(full, EmptyItems), Some(budget)).value.tweets)))
  {
  }

  /** `process_html` on a page whose text has no tweet id: nothing, not stopped, the first container's position. */
  lemma EmptyPageResult(page: Page, budget: int, olderAge: Option<int>)
    requires PageIds(page) == [] && page.containers != []
    ensures HtmlResult(page, Some(budget), olderAge) == Ok(PageResult(map[], 0, page.containers[0].minPosition, false))
  {
    assert Limit(PageIds(page), Some(budget)) == [];
    assert Verdicts(page, olderAge, []) == [];
  }

  /** A profile page with no tweet at all and one stream container. */
  const QuietProfile := Page("", EmptyItems, "", [], [StreamContainer(0, "0")])

  /** `n` answers of the endpoint, each with no tweet. */
  function EmptyAnswers(n: nat): (answers: seq<Option<Response>>)
    ensures |answers| == n
    ensures forall k | 0 <= k < n :: answers[k] == Some(Response(EmptyItems, 0))
  {
    seq(n, k => Some(Response(EmptyItems, 0)))
  }

  /**
    An instance: older pages of the quiet profile asked for ten tweets. As
    written, however many empty answers come, the walk asks again with the
    same budget; corrected, it stops at the first with an empty dictionary.
  */
  lemma EmptyTimelineExample(n: nat, olderAge: Option<int>)
    ensures var w := NextPages(AsWritten, HtmlWalker(olderAge), QuietProfile, 0, 10, EmptyAnswers(n));
      w.outcome == Unfinished && |w.requests| == n + 1
    ensures n > 0 ==> NextPages(Guarded, HtmlWalker(olderAge), QuietProfile, 0, 10, EmptyAnswers(n)).outcome
                      == Returned(Some(map[]))
  {
    var page := Splice(QuietProfile, EmptyItems);
    assert Text(page) == "";
    assert FindAll(TweetIdName, "") == [];
    EmptyPageResult(page, 10, olderAge);
    AsWrittenRepeatsRequest(HtmlWalker(olderAge), QuietProfile, 0, 10, EmptyAnswers(n));
    if n > 0 {
      GuardedStopsOnEmptyPage(HtmlWalker(olderAge), QuietProfile, 0, 10, EmptyAnswers(n));
    }
  }

  /**
    As written, when the profile page asks for more and the first older
    page cannot be fetched, `update(None)` raises `TypeError` and the
    tweets of the profile page are lost.
  */
  lemma AsWrittenLaterFailureRaises(walker: PageWalker, maxCount: Option<int>, page: Page,
                                    answers: seq<Option<Response>>)
    requires walker(page, maxCount).Ok?
    requires Continues(AsWritten, walker(page, maxCount).value.count, maxCount, walker(page, maxCount).value.reached)
    requires answers != [] && answers[0].None?
    ensures UserTweets(AsWritten, walker, maxCount, Some(page), answers).outcome == Raised(UpdateWithNone)
  {
  }

  /** Corrected, the same failure leaves the profile page's tweets. */
  lemma GuardedLaterFailureKeeps(walker: PageWalker, maxCount: Option<int>, page: Page,
                                 answers: seq<Option<Response>>)
    requires walker(page, maxCount).Ok?
    requires Continues(Guarded, walker(page, maxCount).value.count, maxCount, walker(page, maxCount).value.reached)
    requires answers != [] && answers[0].None?
    ensures UserTweets(Guarded, walker, maxCount, Some(page), answers).outcome
         == Returned(Some(walker(page, maxCount).value.tweets))
  {
  }

  /** With an honest page reader, the corrected walk over older pages never raises `UpdateWithNone`. */
  lemma {:induction false} GuardedNextNeverUpdatesWithNone(walker: PageWalker, olderAge: Option<int>, full: Page,
                                                           position: int, budget: int, answers: seq<Option<Response>>)
    requires Honest(walker, olderAge)
    ensures NextPages(Guarded, walker, full, position, budget, answers).outcome != Raised(UpdateWithNone)
    decreases |answers|
  {
    if answers != [] && answers[0].Some? {
      var resp := answers[0].value;
      var page := Splice(full, resp.items);
      var hr := walker(page, Some(budget));
      assert hr.Raise? ==> hr.error != UpdateWithNone;
      if hr.Ok? && Continues(Guarded, hr.value.count, Some(budget), hr.value.reached) {
        var pr := hr.value;
        NextPagesContinue(Guarded, walker, full, position, budget, answers, page, hr, resp.minPosition, budget - pr.count);
        GuardedNextNeverUpdatesWithNone(walker, olderAge, page, resp.minPosition, budget - pr.count, answers[1..]);
      } else {
        NextPagesStep(Guarded, walker, full, position, budget, answers, page, hr);
      }
    }
  }

  /** With an honest page reader, `get_user_tweets`, corrected, never raises `UpdateWithNone`. */
  lemma UserWalkNeverUpdatesWithNone(walker: PageWalker, olderAge: Option<int>, maxCount: Option<int>,
                                     profile: Option<Page>, answers: seq<Option<Response>>)
    requires Honest(walker, olderAge)
    ensures UserTweets(Guarded, walker, maxCount, profile, answers).outcome != Raised(UpdateWithNone)
  {
    if profile.Some? {
      var hr := walker(profile.value, maxCount);
      assert hr.Raise? ==> hr.error != UpdateWithNone;
      if hr.Ok? && Continues(Guarded, hr.value.count, maxCount, hr.value.reached) {
        UserWalkGoesOn(walker, olderAge, maxCount, profile.value, answers);
      }
    }
  }

  /** The case of `UserWalkNeverUpdatesWithNone` where the profile page falls short and the walk goes on. */
  lemma UserWalkGoesOn(walker: PageWalker, olderAge: Option<int>, maxCount: Option<int>,
                       page: Page, answers: seq<Option<Response>>)
    requires Honest(walker, olderAge)
    requires var hr := walker(page, maxCount);
      hr.Ok? && Continues(Guarded, hr.value.count, maxCount, hr.value.reached)
    ensures UserTweets(Guarded, walker, maxCount, Some(page), answers).outcome != Raised(UpdateWithNone)
  {
    var hr := walker(page, maxCount);
    var pr := hr.value;
    UserTweetsContinue(Guarded, walker, maxCount, Some(page), answers, hr, pr.minPosition, maxCount.value - pr.count);
    GuardedNextNeverUpdatesWithNone(walker, olderAge, page, pr.minPosition, maxCount.value - pr.count, answers);
  }


  /** `get_user_tweets`, corrected, never raises `UpdateWithNone`. */
  lemma GuardedNeverUpdatesWithNone(maxCount: Option<int>, olderAge: Option<int>, profile: Option<Page>,
                                    answers: seq<Option<Response>>)
    ensures UserTweets(Guarded, HtmlWalker(olderAge), maxCount, profile, answers).outcome != Raised(UpdateWithNone)
  {
    HtmlWalkerHonest(olderAge);
    UserWalkNeverUpdatesWithNone(HtmlWalker(olderAge), olderAge, maxCount, profile, answers);
  }

  /** The URLs of a walk that sends `req` and then `rest`. */
  lemma RequestUrlsCons(username: string, req: Request, rest: seq<Request>)
    ensures RequestUrls(username, [req] + rest) == [RequestUrl(username, req)] + RequestUrls(username, rest)
  {
    assert ([req] + rest)[1..] == rest;
  }

  /** One step of the walk over older pages, once the next answer has arrived and its page has been read. */
  lemma NextPagesStep(policy: Policy, walker: PageWalker, full: Page, position: int, budget: int,
                      answers: seq<Option<Response>>, page: Page, hr: Result<PageResult, Fault>)
    requires answers != [] && answers[0].Some? && page == Splice(full, answers[0].value.items)
    requires hr == walker(page, Some(budget))
    ensures hr.Raise? ==>
      NextPages(policy, walker, full, position, budget, answers) == Walk([Request(position, budget)], Raised(hr.error))
    ensures hr.Ok? && !Continues(policy, hr.value.count, Some(budget), hr.value.reached) ==>
      NextPages(policy, walker, full, position, budget, answers)
      == Walk([Request(position, budget)], Returned(Some(hr.value.tweets)))
  {
  }

  /** A step of the walk over older pages that asks for more. */
  lemma NextPagesContinue(policy: Policy, walker: PageWalker, full: Page, position: int, budget: int,
                          answers: seq<Option<Response>>, page: Page, hr: Result<PageResult, Fault>,
                          minPosition: int, left: int)
    requires answers != [] && answers[0].Some? && page == Splice(full, answers[0].value.items)
    requires minPosition == answers[0].value.minPosition
    requires hr == walker(page, Some(budget))
    requires hr.Ok? && Continues(policy, hr.value.count, Some(budget), hr.value.reached)
    requires left == budget - hr.value.count
    ensures var rest := NextPages(policy, walker, page, minPosition, left, answers[1..]);
      NextPages(policy, walker, full, position, budget, answers)
      == Walk([Request(position, budget)] + rest.requests, Merge(policy, hr.value.tweets, rest.outcome))
  {
  }

  /**
    `walker` reads every page as `process_html` does.  The equation is only
    used for pages `process_html` is run on.
  */
  ghost predicate ReadsAsHtml(walker: PageWalker, olderAge: Option<int>) {
    forall page: Page, maxCount: Option<int> {:trigger HtmlResult(page, maxCount, olderAge)} ::
      walker(page, maxCount) == HtmlResult(page, maxCount, olderAge)
  }

  lemma HtmlWalkerReadsAsHtml(olderAge: Option<int>)
    ensures ReadsAsHtml(HtmlWalker(olderAge), olderAge)
  {
  }

  /** `process_html(str(page), max_count, older_age)` as the walk sees it: the reading `walker` gives. */
  method ReadPage(ghost walker: PageWalker, page: Page, maxCount: Option<int>, olderAge: Option<int>)
    returns (data: Result<PageResult, Fault>)
    requires ReadsAsHtml(walker, olderAge)
    ensures data == walker(page, maxCount)
    ensures data.Ok? ==> data.value.count == |data.value.tweets|
  {
    data := ProcessHtml(page, maxCount, olderAge);
  }

  /** `tweet_map.update(later)` on what a later page returned, as `Merge` states it. */
  method Update(policy: Policy, tweetMap: TweetMap, later: Outcome) returns (out: Outcome)
    ensures out == Merge(policy, tweetMap, later)
  {
    match later {
      case Returned(Some(m)) =>
        var updated := tweetMap + m;
        out := Returned(Some(updated));
      case Returned(None) =>
        out := if policy == AsWritten then Raised(UpdateWithNone) else Returned(Some(tweetMap));
      case Raised(f) =>
        out := Raised(f);
      case Unfinished =>
        out := Unfinished;
    }
  }

  /**
    `get_next_page`, step by step: fetch the page at `position` (the next
    answer of the script), splice its items into `full`, read it with
    `process_html`, and ask for the rest while the page falls short; the
    later tweets are merged in with `update`.  It sends exactly the
    requests, to exactly the URLs, of `NextPages` with a reader that reads
    as `process_html` does, and ends as it does.
  */
  method NextPagesOf(policy: Policy, ghost walker: PageWalker, username: string, position: int, full: Page,
                     budget: int, olderAge: Option<int>, answers: seq<Option<Response>>)
    returns (urls: seq<string>, out: Outcome)
    requires ReadsAsHtml(walker, olderAge)
    ensures var w := NextPages(policy, walker, full, position, budget, answers);
      out == w.outcome && urls == RequestUrls(username, w.requests)
    decreases |answers|
  {
    var req := Request(position, budget);
    var url := BuildNewpageUrl(username, position);
    ghost var w := NextPages(policy, walker, full, position, budget, answers);
    assert [url] == RequestUrls(username, [req]);
    if answers == [] {
      return [url], Unfinished;
    }
    if answers[0].None? {
      return [url], Returned(None);
    }
    var resp := answers[0].value;
    var page := Splice(full, resp.items);
    var data := ReadPage(walker, page, Some(budget), olderAge);
    if data.Raise? {
      NextPagesStep(policy, walker, full, position, budget, answers, page, data);
      assert w == Walk([req], Raised(data.error));
      return [url], Raised(data.error);
    }
    var tweetMap := data.value.tweets;
    var nItems := |tweetMap|;
    assert nItems == data.value.count;
    NextPagesStep(policy, walker, full, position, budget, answers, page, data);
    if Continues(policy, nItems, Some(budget), data.value.reached) {
      var left := budget - nItems;
      var moreUrls, later := NextPagesOf(policy, walker, username, resp.minPosition, page, left, olderAge, answers[1..]);
      ghost var rest := NextPages(policy, walker, page, resp.minPosition, left, answers[1..]);
      NextPagesContinue(policy, walker, full, position, budget, answers, page, data, resp.minPosition, left);
      assert w == Walk([req] + rest.requests, Merge(policy, tweetMap, rest.outcome));
      RequestUrlsCons(username, req, rest.requests);
      urls := [url] + moreUrls;
      out := Update(policy, tweetMap, later);
    } else {
      assert w == Walk([req], Returned(Some(tweetMap)));
      urls, out := [url], Returned(Some(tweetMap));
    }
  }

  /** `get_next_page` with the scraper's own page reader. */
  method GetNextPage(policy: Policy, username: string, position: int, full: Page, budget: int,
                     olderAge: Option<int>, answers: seq<Option<Response>>)
    returns (urls: seq<string>, out: Outcome)
    ensures var w := NextPages(policy, HtmlWalker(olderAge), full, position, budget, answers);
      out == w.outcome && urls == RequestUrls(username, w.requests)
  {
    HtmlWalkerReadsAsHtml(olderAge);
    urls, out := NextPagesOf(policy, HtmlWalker(olderAge), username, position, full, budget, olderAge, answers);
  }

  /**
    `get_user_tweets` asks for older pages only when the profile page was
    read and fell short; the first of them starts from the profile page's
    `min_position` with what is left of `max_count`, and there is at most
    one per answer plus the last.
  */
  lemma UserTweetsRequests(policy: Policy, walker: PageWalker, maxCount: Option<int>, profile: Option<Page>,
                           answers: seq<Option<Response>>)
    ensures var rs := UserTweets(policy, walker, maxCount, profile, answers).requests;
      rs != [] ==>
        && profile.Some?
        && walker(profile.value, maxCount).Ok?
        && var pr := walker(profile.value, maxCount).value;
        && Continues(policy, pr.count, maxCount, pr.reached)
        && rs[0] == Request(pr.minPosition, maxCount.value - pr.count)
        && |rs| <= |answers| + 1
  {
    if profile.Some? {
      var hr := walker(profile.value, maxCount);
      if hr.Ok? && Continues(policy, hr.value.count, maxCount, hr.value.reached) {
        var pr := hr.value;
        NextPagesChain(policy, walker, profile.value, pr.minPosition, maxCount.value - pr.count, answers);
      }
    }
  }

  /** `get_user_tweets` once the profile page has been read, when it asks for more. */
  lemma UserTweetsContinue(policy: Policy, walker: PageWalker, maxCount: Option<int>, profile: Option<Page>,
                           answers: seq<Option<Response>>, hr: Result<PageResult, Fault>, minPosition: int, left: int)
    requires profile.Some? && hr == walker(profile.value, maxCount)
    requires hr.Ok? && Continues(policy, hr.value.count, maxCount, hr.value.reached)
    requires minPosition == hr.value.minPosition && left == maxCount.value - hr.value.count
    ensures var rest := NextPages(policy, walker, profile.value, minPosition, left, answers);
      UserTweets(policy, walker, maxCount, profile, answers) == Walk(rest.requests, Merge(policy, hr.value.tweets, rest.outcome))
  {
  }

  /**
    `get_user_tweets`, step by step: the profile page (`None` when it could
    not be fetched) is read with `process_html`, and while it falls short
    the older pages are asked for with `get_next_page`, starting from the
    page's `min_position`, and merged in.  It sends the requests of
    `UserTweets`, to their URLs, and ends as it does.
  */
  method UserTweetsOf(policy: Policy, ghost walker: PageWalker, username: string, maxCount: Option<int>,
                      olderAge: Option<int>, profile: Option<Page>, answers: seq<Option<Response>>)
    returns (urls: seq<string>, out: Outcome)
    requires ReadsAsHtml(walker, olderAge)
    ensures var w := UserTweets(policy, walker, maxCount, profile, answers);
      out == w.outcome && urls == RequestUrls(username, w.requests)
  {
    if profile.None? {
      return [], Returned(None);
    }
    var html := profile.value;
    var data := ReadPage(walker, html, maxCount, olderAge);
    if data.Raise? {
      return [], Raised(data.error);
    }
    var tweetMap := data.value.tweets;
    var nItems := |tweetMap|;
    if Continues(policy, nItems, maxCount, data.value.reached) {
      var minPosition := data.value.minPosition;
      var left := maxCount.value - nItems;
      var later;
      urls, later := NextPagesOf(policy, walker, username, minPosition, html, left, olderAge, answers);
      UserTweetsContinue(policy, walker, maxCount, profile, answers, data, minPosition, left);
      out := Update(policy, tweetMap, later);
    } else {
      urls, out := [], Returned(Some(tweetMap));
    }
  }

  /** `get_user_tweets` with the scraper's own page reader. */
  method GetUserTweets(policy: Policy, username: string, maxCount: Option<int>, olderAge: Option<int>,
                       profile: Option<Page>, answers: seq<Option<Response>>)
    returns (urls: seq<string>, out: Outcome)
    ensures var w := UserTweets(policy, HtmlWalker(olderAge), maxCount, profile, answers);
      out == w.outcome && urls == RequestUrls(username, w.requests)
  {
    HtmlWalkerReadsAsHtml(olderAge);
    urls, out := UserTweetsOf(policy, HtmlWalker(olderAge), username, maxCount, olderAge, profile, answers);
  }
}
