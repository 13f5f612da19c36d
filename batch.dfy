/**
  The three entry points built on the timeline walk: `get_tweets` runs
  `get_user_tweets` for a list of users and keeps those that gave tweets,
  `get_update_info` reads the position a later poll starts from, and
  `get_new_tweets` reads the tweets a poll reports as new.
*/
module Batch {
  import opened Wrappers
  import opened Tweets
  import opened Pagination

  /** What the network gives for one user: the profile page (None when it fails) and the answers for older pages. */
  datatype Site = Site(profile: Option<Page>, answers: seq<Option<Response>>)

  /** How `get_tweets` ends: the dictionary by user, an exception from one of the walks, or a walk ran out of answers. */
  datatype Gathered = Gathered(tweets: map<string, TweetMap>) | Failed(fault: Fault) | Stalled

  /** `if data:` on what `get_user_tweets` returned: a dictionary that is not empty. */
  predicate HasData(out: Outcome) {
    out.Returned? && out.tweets.Some? && out.tweets.value != map[]
  }

  /**
    The loop of `get_tweets` over the outcomes of the users' walks, in
    order: a user with data is stored under its name (a later entry for the
    same name overwrites it), one without is skipped, and the first walk
    that raises or runs out ends the loop.
  */
  function Gather(users: seq<string>, outs: seq<Outcome>): Gathered
    requires |users| == |outs|
    decreases |users|
  {
    if users == [] then Gathered(map[])
    else
      var n := |users| - 1;
      Absorb(Gather(users[..n], outs[..n]), users[n], outs[n])
  }

  /** One turn of the loop of `get_tweets`, on what the earlier turns left. */
  function Absorb(g: Gathered, user: string, out: Outcome): Gathered {
    match g
    case Gathered(acc) =>
      (match out
       case Returned(data) =>
         if HasData(out) then Gathered(acc[user := data.value]) else Gathered(acc)
       case Raised(f) => Failed(f)
       case Unfinished => Stalled)
    case other => other
  }

  /** The outcome of each user's walk, in order. */
  function UserOutcomes(policy: Policy, walker: PageWalker, maxCount: Option<int>, sites: seq<Site>): (outs: seq<Outcome>)
    ensures |outs| == |sites|
  {
    seq(|sites|, k requires 0 <= k < |sites| => UserTweets(policy, walker, maxCount, sites[k].profile, sites[k].answers).outcome)
  }

  /** `Gather` over a longer prefix is one more step of the loop. */
  lemma GatherStep(users: seq<string>, outs: seq<Outcome>, k: nat)
    requires |users| == |outs| && k < |users|
    ensures Gather(users[..k + 1], outs[..k + 1]) == Absorb(Gather(users[..k], outs[..k]), users[k], outs[k])
  {
    PrefixOfPrefix(users, k + 1, k);
    PrefixOfPrefix(outs, k + 1, k);
    assert users[..k + 1][..k] == users[..k];
    assert outs[..k + 1][..k] == outs[..k];
  }

  /** Once a walk has raised or run out, the loop's result stays what it was. */
  lemma {:induction false} GatherSticks(users: seq<string>, outs: seq<Outcome>, k: nat)
    requires |users| == |outs| && k <= |users|
    requires !Gather(users[..k], outs[..k]).Gathered?
    ensures Gather(users, outs) == Gather(users[..k], outs[..k])
    decreases |users| - k
  {
    if k < |users| {
      GatherStep(users, outs, k);
      GatherSticks(users, outs, k + 1);
    } else {
      assert users[..k] == users && outs[..k] == outs;
    }
  }

  /** The last step of the loop, when it runs to the end. */
  lemma GatherLast(users: seq<string>, outs: seq<Outcome>)
    requires |users| == |outs| && users != [] && Gather(users, outs).Gathered?
    ensures var n := |users| - 1;
      && Gather(users[..n], outs[..n]).Gathered?
      && Gather(users, outs).tweets
         == if HasData(outs[n]) then Gather(users[..n], outs[..n]).tweets[users[n] := outs[n].tweets.value]
            else Gather(users[..n], outs[..n]).tweets
  {
  }

  /** A user is in the result exactly when one of its walks gave data. */
  lemma {:induction false} GatherKeys(users: seq<string>, outs: seq<Outcome>)
    requires |users| == |outs| && Gather(users, outs).Gathered?
    ensures forall u :: u in Gather(users, outs).tweets <==>
      exists k | 0 <= k < |users| :: users[k] == u && HasData(outs[k])
    decreases |users|
  {
    if users != [] {
      var n := |users| - 1;
      var us, os := users[..n], outs[..n];
      GatherLast(users, outs);
      GatherKeys(us, os);
      var r := Gather(users, outs).tweets;
      forall u
        ensures u in r <==> exists k | 0 <= k < |users| :: users[k] == u && HasData(outs[k])
      {
        if u in r && !(u == users[n] && HasData(outs[n])) {
          var k :| 0 <= k < |us| && us[k] == u && HasData(os[k]);
          assert users[k] == u && HasData(outs[k]);
        }
        if exists k | 0 <= k < |users| :: users[k] == u && HasData(outs[k]) {
          var k :| 0 <= k < |users| && users[k] == u && HasData(outs[k]);
          if k < n {
            assert us[k] == u && HasData(os[k]);
          }
        }
      }
    }
  }

  /** A user's dictionary in the result is the data of the last of its walks that gave data. */
  lemma {:induction false} GatherLatest(users: seq<string>, outs: seq<Outcome>)
    requires |users| == |outs| && Gather(users, outs).Gathered?
    ensures var r := Gather(users, outs).tweets;
      forall u | u in r :: exists k | 0 <= k < |users| ::
        && users[k] == u && outs[k] == Returned(Some(r[u]))
        && forall j | k < j < |users| :: users[j] == u ==> !HasData(outs[j])
    decreases |users|
  {
    if users != [] {
      var n := |users| - 1;
      var us, os := users[..n], outs[..n];
      GatherLast(users, outs);
      GatherLatest(us, os);
      var acc := Gather(us, os).tweets;
      var r := Gather(users, outs).tweets;
      forall u | u in r
        ensures exists k | 0 <= k < |users| ::
            && users[k] == u && outs[k] == Returned(Some(r[u]))
            && forall j | k < j < |users| :: users[j] == u ==> !HasData(outs[j])
      {
        if u == users[n] && HasData(outs[n]) {
          assert users[n] == u && outs[n] == Returned(Some(r[u]));
        } else {
          assert u in acc && r[u] == acc[u];
          var k :| 0 <= k < |us| && us[k] == u && os[k] == Returned(Some(acc[u]))
                   && forall j | k < j < |us| :: us[j] == u ==> !HasData(os[j]);
          assert users[k] == u && outs[k] == Returned(Some(r[u]));
          forall j | k < j < |users| && users[j] == u
            ensures !HasData(outs[j])
          {
            if j < n {
              assert us[j] == u;
            }
          }
        }
      }
    }
  }

  /**
    The loop runs to the end exactly when every walk returned; otherwise
    it ends with the first walk that raised or ran out.
  */
  lemma {:induction false} GatherEnds(users: seq<string>, outs: seq<Outcome>)
    requires |users| == |outs|
    ensures Gather(users, outs).Gathered? <==> forall k | 0 <= k < |outs| :: outs[k].Returned?
    ensures Gather(users, outs).Failed? ==>
      exists k | 0 <= k < |outs| :: outs[k] == Raised(Gather(users, outs).fault) && forall j | 0 <= j < k :: outs[j].Returned?
    ensures Gather(users, outs).Stalled? ==>
      exists k | 0 <= k < |outs| :: outs[k] == Unfinished && forall j | 0 <= j < k :: outs[j].Returned?
    decreases |users|
  {
    if users != [] {
      var n := |users| - 1;
      var us, os := users[..n], outs[..n];
      GatherEnds(us, os);
      assert forall k | 0 <= k < n :: os[k] == outs[k];
      if Gather(us, os).Gathered? {
        assert forall k | 0 <= k < n :: outs[k].Returned?;
      }
    }
  }

  /** The corrected walks all end when each user's script holds at least `max_count` answers. */
  lemma GuardedGathers(walker: PageWalker, users: seq<string>, maxCount: Option<int>, sites: seq<Site>)
    requires |users| == |sites|
    requires forall k | 0 <= k < |sites| :: maxCount.None? || maxCount.value <= |sites[k].answers|
    ensures !Gather(users, UserOutcomes(Guarded, walker, maxCount, sites)).Stalled?
  {
    var outs := UserOutcomes(Guarded, walker, maxCount, sites);
    forall k | 0 <= k < |sites|
      ensures outs[k] != Unfinished
    {
      GuardedUserFinishes(walker, maxCount, sites[k].profile, sites[k].answers);
    }
    GatherEnds(users, outs);
  }

  /**
    Every dictionary `get_tweets` keeps is sound: each tweet under its own
    id and past the age filter, and no more of them than `max_count`.
  */
  lemma GatherCollects(policy: Policy, walker: PageWalker, olderAge: Option<int>, users: seq<string>,
                       maxCount: Option<int>, sites: seq<Site>)
    requires |users| == |sites| && Honest(walker, olderAge)
    requires Gather(users, UserOutcomes(policy, walker, maxCount, sites)).Gathered?
    ensures var r := Gather(users, UserOutcomes(policy, walker, maxCount, sites)).tweets;
      forall u | u in r :: Sound(olderAge, r[u]) && (maxCount.Some? && maxCount.value >= 0 ==> |r[u]| <= maxCount.value)
  {
    var outs := UserOutcomes(policy, walker, maxCount, sites);
    var r := Gather(users, outs).tweets;
    GatherLatest(users, outs);
    forall u | u in r
      ensures Sound(olderAge, r[u]) && (maxCount.Some? && maxCount.value >= 0 ==> |r[u]| <= maxCount.value)
    {
      var k :| 0 <= k < |users| && users[k] == u && outs[k] == Returned(Some(r[u]));
      UserWalkCollect(policy, walker, olderAge, maxCount, sites[k].profile, sites[k].answers);
    }
  }

  /**
    `get_tweets`: the users are walked in order with `get_user_tweets`,
    and a user whose walk gave data is stored under its name.
  */
  method GetTweetsOf(policy: Policy, ghost walker: PageWalker, users: seq<string>, maxCount: Option<int>,
                     olderAge: Option<int>, sites: seq<Site>)
    returns (r: Gathered)
    requires |sites| == |users| && ReadsAsHtml(walker, olderAge)
    ensures r == Gather(users, UserOutcomes(policy, walker, maxCount, sites))
  {
    ghost var outs := UserOutcomes(policy, walker, maxCount, sites);
    var tweets: map<string, TweetMap> := map[];
    var k := 0;
    assert Gather(users[..k], outs[..k]) == Gathered(tweets);
    while k < |users|
      invariant 0 <= k <= |users|
      invariant Gather(users[..k], outs[..k]) == Gathered(tweets)
    {
      var username := users[k];
      var data := WalkOf(policy, walker, username, maxCount, olderAge, sites[k].profile, sites[k].answers);
      assert data == outs[k];
      GatherStep(users, outs, k);
      ghost var next := Absorb(Gathered(tweets), username, data);
      match data {
        case Returned(m) =>
          if m.Some? && m.value != map[] {
            tweets := tweets[username := m.value];
          }
        case Raised(f) =>
          GatherSticks(users, outs, k + 1);
          return Failed(f);
        case Unfinished =>
          GatherSticks(users, outs, k + 1);
          return Stalled;
      }
      assert next == Gathered(tweets);
      assert Gather(users[..k + 1], outs[..k + 1]) == Gathered(tweets);
      k := k + 1;
    }
    assert users[..k] == users && outs[..k] == outs;
    r := Gathered(tweets);
  }

  /** One call of `get_user_tweets` in the loop of `get_tweets`, of which the loop keeps only the result. */
  method WalkOf(policy: Policy, ghost walker: PageWalker, username: string, maxCount: Option<int>,
                olderAge: Option<int>, profile: Option<Page>, answers: seq<Option<Response>>)
    returns (out: Outcome)
    requires ReadsAsHtml(walker, olderAge)
    ensures out == UserTweets(policy, walker, maxCount, profile, answers).outcome
  {
    var _, data := UserTweetsOf(policy, walker, username, maxCount, olderAge, profile, answers);
    out := data;
  }

  /** `get_tweets` with the scraper's own page reader. */
  method GetTweets(policy: Policy, users: seq<string>, maxCount: Option<int>, olderAge: Option<int>, sites: seq<Site>)
    returns (r: Gathered)
    requires |sites| == |users|
    ensures r == Gather(users, UserOutcomes(policy, HtmlWalker(olderAge), maxCount, sites))
  {
    HtmlWalkerReadsAsHtml(olderAge);
    r := GetTweetsOf(policy, HtmlWalker(olderAge), users, maxCount, olderAge, sites);
  }

  /** What `get_update_info` returns: the parsed profile page and its `data-max-position`. */
  datatype UpdateInfo = UpdateInfo(html: Page, maxPos: string)

  /**
    `get_update_info`: None when the profile page cannot be fetched,
    IndexError when it has no stream container, and otherwise the page
    with the first container's `data-max-position`.
  */
  function GetUpdateInfo(profile: Option<Page>): (r: Result<Option<UpdateInfo>, Fault>)
    ensures r == Ok(None) <==> profile.None?
    ensures r.Raise? <==> profile.Some? && profile.value.containers == []
    ensures r.Raise? ==> r.error == MissingStreamContainer
    ensures r.Ok? && r.value.Some? ==>
      r.value.value.html == profile.value && r.value.value.maxPos == profile.value.containers[0].maxPosition
  {
    match profile
    case None => Ok(None)
    case Some(page) =>
      if page.containers == [] then Raise(MissingStreamContainer)
      else Ok(Some(UpdateInfo(page, page.containers[0].maxPosition)))
  }

  /** A decoded answer of the new-tweets poll: its `new_latent_count` and `items_html`. */
  datatype Fresh = Fresh(latent: int, items: Items)

  /**
    `get_new_tweets`: None when the poll cannot be fetched, an empty
    dictionary when it reports no new tweet, and otherwise what
    `process_html` keeps of the page with the new items spliced in, with
    `new_latent_count` as `max_count` and no age floor.
  */
  function NewTweets(full: Page, answer: Option<Fresh>): Result<Option<TweetMap>, Fault>
  {
    match answer
    case None => Ok(None)
    case Some(news) =>
      if news.latent == 0 then Ok(Some(map[]))
      else
        match HtmlResult(Splice(full, news.items), Some(news.latent), None)
        case Raise(f) => Raise(f)
        case Ok(pr) => Ok(Some(pr.tweets))
  }

  /**
    A poll that reports no new tweet gives an empty dictionary.  Otherwise
    the dictionary holds, under its own id, a tweet for each of the first
    `new_latent_count` ids of the spliced page, and nothing else.
  */
  lemma NewTweetsFacts(full: Page, news: Fresh)
    ensures news.latent == 0 ==> NewTweets(full, Some(news)) == Ok(Some(map[]))
    ensures var page := Splice(full, news.items);
      var ids := Limit(PageIds(page), Some(news.latent));
      var r := NewTweets(full, Some(news));
      news.latent != 0 && r.Ok? ==>
        && r.value.Some?
        && |r.value.value| <= |ids|
        && (news.latent > 0 ==> |r.value.value| <= news.latent)
        && (forall i :: i in r.value.value <==> i in ids)
        && (forall i | i in r.value.value :: Stored(page, None, i, r.value.value[i]))
  {
    var page := Splice(full, news.items);
    if news.latent != 0 && HtmlResult(page, Some(news.latent), None).Ok? {
      HtmlResultFacts(page, Some(news.latent), None);
      HtmlResultUnfloored(page, Some(news.latent), None);
    }
  }

  /**
    `get_new_tweets` splices the new items into the stored page in place,
    but a later call replaces them before it reads the page again, so what
    an earlier call left there never shows.
  */
  lemma NewTweetsIgnoresItems(full: Page, items: Items, answer: Option<Fresh>)
    ensures NewTweets(Splice(full, items), answer) == NewTweets(full, answer)
  {
    if answer.Some? {
      SpliceTwice(full, items, answer.value.items);
    }
  }

  /**
    `get_new_tweets`, step by step: give up on a failed fetch, return an
    empty dictionary on `new_latent_count == 0`, and otherwise splice the
    items into the page and read it with `process_html`.
  */
  method GetNewTweets(full: Page, answer: Option<Fresh>) returns (r: Result<Option<TweetMap>, Fault>)
    ensures r == NewTweets(full, answer)
  {
    if answer.None? {
      return Ok(None);
    }
    var news := answer.value;
    if news.latent == 0 {
      return Ok(Some(map[]));
    }
    var page := Splice(full, news.items);
    var data := ProcessHtml(page, Some(news.latent), None);
    if data.Raise? {
      return Raise(data.error);
    }
    r := Ok(Some(data.value.tweets));
  }
}
