/**
  Turning one page of the legacy timeline into tweets: `process_tweet`
  (one tweet element to a record, or None when the age filter turns it
  down) and `process_html` (the ids of the page in document order, cut to
  `max_count`, walked until the first rejected tweet).

  A page is abstracted to what these two functions read from the parsed
  document: the serialized text the id pattern is searched in, the tweet
  elements in document order, the full-size avatars and the stream
  containers.  HTML parsing and CSS selection are not modelled.
*/
module Tweets {
  import opened Wrappers
  import opened Decimal
  import opened Scan

  /** The attribute whose values name the tweets of a page. */
  const TweetIdName := "data-tweet-id"

  /** The attribute whose first three values are a tweet's replies, retweets and likes. */
  const StatCountName := "data-tweet-stat-count"

  /** The exceptions of the scraper that nothing catches. */
  datatype Fault =
    | MissingElement          // `find` gives None for an id in the text; `process_tweet(None)` raises AttributeError
    | TooFewStats             // fewer than three stat counts: `stat_list[k]` raises IndexError
    | MissingProfileAvatar    // no `.ProfileAvatar-image` for a tweet that is not a retweet
    | MissingStreamContainer  // no `.stream-container` to read a position from
    | UpdateWithNone          // `tweet_map.update(None)` after a later page could not be fetched

  /** A tweet element, as the attributes and sub-elements `process_tweet` reads. */
  datatype TweetTag = TweetTag(
    tweetId: string,        // `data-tweet-id` of the element
    pinnedMarks: nat,       // how many elements match `.context .pinned`
    retweetMarks: nat,      // how many elements match `.context .js-retweet-text`
    retweeter: string,      // `data-retweeter`
    retweetId: string,      // `data-retweet-id`
    epoch: int,             // `data-time` of the first `.tweet-timestamp span`
    screenName: string,     // `data-screen-name`
    displayName: string,    // `data-name`
    userId: int,            // `data-user-id`
    avatar: string,         // `src` of the avatar image in `.content`
    text: string,           // the tweet text, already converted to markdown
    permalink: string,      // `data-permalink-path`
    conversation: int,      // `data-conversation-id`
    content: string)        // the serialized `.content` element

  datatype User = User(username: string, displayName: string, uid: int, avatar: string)

  datatype RetweetInfo = RetweetInfo(retweeter: string, retweetId: string)

  datatype Stats = Stats(replies: nat, retweets: nat, likes: nat)

  /** The dictionary `process_tweet` returns; `retweetInfo` is the optional `retweet_info` key. */
  datatype TweetData = TweetData(
    pinned: bool,
    retweet: bool,
    retweetInfo: Option<RetweetInfo>,
    age: int,
    user: User,
    text: string,
    permalink: string,
    conversation: int,
    stats: Stats)

  /** A stored tweet: `process_tweet`'s data with the `tweet_id` and optional `profile_pic` keys added. */
  datatype Tweet = Tweet(tweetId: string, data: TweetData, profilePic: Option<string>)

  type TweetMap = map<string, Tweet>

  /** A `.stream-container` element and its two position attributes. */
  datatype StreamContainer = StreamContainer(minPosition: int, maxPosition: string)

  /** The content of `#stream-items-id`: its markup and the tweet elements in it, in document order. */
  datatype Items = Items(markup: string, tags: seq<TweetTag>)

  /**
    A profile page: the markup around the stream items, the items, the
    `src` of every `.ProfileAvatar-image` and every `.stream-container`, in
    document order.
  */
  datatype Page = Page(
    before: string,
    items: Items,
    after: string,
    avatars: seq<string>,
    containers: seq<StreamContainer>)

  /** The serialized page that the id pattern is searched in. */
  function Text(page: Page): string {
    page.before + page.items.markup + page.after
  }

  /** `container.clear(); container.append(items)` on `#stream-items-id`. */
  function Splice(page: Page, items: Items): (r: Page)
    ensures r.items == items
    ensures r.before == page.before && r.after == page.after
    ensures r.avatars == page.avatars && r.containers == page.containers
  {
    page.(items := items)
  }

  /** `parsed.find("div", attrs = {"data-tweet-id": id})`: the first element with that id. */
  function Find(tags: seq<TweetTag>, id: string): Option<TweetTag>
    decreases |tags|
  {
    if tags == [] then None
    else if tags[0].tweetId == id then Some(tags[0])
    else Find(tags[1..], id)
  }

  /** `find` gives the first element carrying the id, and None only when no element does. */
  lemma {:induction false} FindFirst(tags: seq<TweetTag>, id: string)
    ensures var r := Find(tags, id);
      && (r.Some? ==> exists k | 0 <= k < |tags| :: tags[k] == r.value && tags[k].tweetId == id
                                              && forall j | 0 <= j < k :: tags[j].tweetId != id)
      && (r.None? <==> forall k | 0 <= k < |tags| :: tags[k].tweetId != id)
    decreases |tags|
  {
    if tags != [] && tags[0].tweetId != id {
      FindFirst(tags[1..], id);
      var r := Find(tags[1..], id);
      if r.Some? {
        var k :| 0 <= k < |tags[1..]| && tags[1..][k] == r.value && tags[1..][k].tweetId == id
                 && forall j | 0 <= j < k :: tags[1..][j].tweetId != id;
        assert tags[k + 1] == r.value && forall j | 0 <= j < k + 1 :: tags[j].tweetId != id;
      } else {
        forall k | 0 <= k < |tags|
          ensures tags[k].tweetId != id
        {
          if k > 0 {
            assert tags[k] == tags[1..][k - 1];
          }
        }
      }
    } else if tags != [] {
      assert tags[0].tweetId == id;
    }
  }

  lemma NamesHaveNoDigits()
    ensures NoDigits(Opening(TweetIdName)) && NoDigits(Opening(StatCountName))
  {
  }

  /** The stat counts of a tweet's content, in order: `[int(x.strip(...)) for x in re.findall(...)]`. */
  function StatCounts(content: string): (r: seq<nat>)
    ensures |r| == |FindAll(StatCountName, content)|
    ensures forall k | 0 <= k < |r| :: r[k] == Value(AttrValue(StatCountName, FindAll(StatCountName, content)[k]))
  {
    NamesHaveNoDigits();
    ExtractedValues(StatCountName, content);
    var vs := ExtractValues(StatCountName, content);
    seq(|vs|, k requires 0 <= k < |vs| => Value(vs[k]))
  }

  /** `older_age` filters only when it is truthy: given and not 0. */
  predicate FloorActive(olderAge: Option<int>) {
    olderAge.Some? && olderAge.value != 0
  }

  /** The condition under which `process_tweet` returns None. */
  predicate TooOld(tag: TweetTag, olderAge: Option<int>) {
    FloorActive(olderAge) && tag.epoch < olderAge.value && tag.pinnedMarks != 1
  }

  /** A kept tweet is pinned or not older than the floor. */
  predicate Admitted(olderAge: Option<int>, d: TweetData) {
    !FloorActive(olderAge) || d.pinned || d.age >= olderAge.value
  }

  /** `d` is the record `process_tweet` builds from `tag`, field by field. */
  predicate Describes(tag: TweetTag, d: TweetData) {
    var counts := StatCounts(tag.content);
    && d.pinned == (tag.pinnedMarks == 1)
    && d.retweet == (tag.retweetMarks == 1)
    && d.retweetInfo == (if d.retweet then Some(RetweetInfo(tag.retweeter, tag.retweetId)) else None)
    && d.age == tag.epoch
    && d.user == User(tag.screenName, tag.displayName, tag.userId, tag.avatar)
    && d.text == tag.text
    && d.permalink == tag.permalink
    && d.conversation == tag.conversation
    && |counts| >= 3
    && d.stats == Stats(counts[0], counts[1], counts[2])
  }

  /**
    `process_tweet`: None exactly when the floor is active, the tweet is
    older than it and not pinned; an IndexError when a kept tweet has fewer
    than three stat counts; the record otherwise.
  */
  function ProcessTweet(tag: TweetTag, olderAge: Option<int>): Result<Option<TweetData>, Fault>
  {
    var pinned := tag.pinnedMarks == 1;
    var retweet := tag.retweetMarks == 1;
    var info := if retweet then Some(RetweetInfo(tag.retweeter, tag.retweetId)) else None;
    if FloorActive(olderAge) && tag.epoch < olderAge.value && !pinned then Ok(None)
    else
      var user := User(tag.screenName, tag.displayName, tag.userId, tag.avatar);
      var counts := StatCounts(tag.content);
      if |counts| < 3 then Raise(TooFewStats)
      else
        var stats := Stats(counts[0], counts[1], counts[2]);
        Ok(Some(TweetData(pinned, retweet, info, tag.epoch, user, tag.text, tag.permalink, tag.conversation, stats)))
  }

  /**
    What `process_tweet` promises: None exactly when the floor is active,
    the tweet is older than it and not pinned; IndexError exactly when a
    kept tweet has fewer than three stat counts; otherwise the record of
    the element, which the filter admits.
  */
  lemma ProcessTweetMeaning(tag: TweetTag, olderAge: Option<int>)
    ensures var r := ProcessTweet(tag, olderAge);
      && (r == Ok(None) <==> TooOld(tag, olderAge))
      && (r.Raise? <==> !TooOld(tag, olderAge) && |StatCounts(tag.content)| < 3)
      && (r.Raise? ==> r.error == TooFewStats)
      && (r.Ok? && r.value.Some? ==> Describes(tag, r.value.value) && Admitted(olderAge, r.value.value))
  {
  }

  /** Python's `ids[:max_count]`, where `max_count` may be None or negative. */
  function Limit<T>(ids: seq<T>, maxCount: Option<int>): (r: seq<T>)
    ensures |r| <= |ids| && r == ids[..|r|]
    ensures maxCount.None? ==> r == ids
    ensures maxCount.Some? && maxCount.value >= 0 ==> |r| == if maxCount.value < |ids| then maxCount.value else |ids|
    ensures maxCount.Some? && maxCount.value < 0 ==> |r| == if |ids| + maxCount.value > 0 then |ids| + maxCount.value else 0
  {
    match maxCount
    case None => ids
    case Some(k) =>
      if k >= 0 then (if k < |ids| then ids[..k] else ids)
      else if |ids| + k > 0 then ids[..|ids| + k]
      else []
  }

  /** The ids of the tweets of a page, in document order. */
  function PageIds(page: Page): seq<string> {
    ExtractValues(TweetIdName, Text(page))
  }

  /** Every id of a page is a run of digits, the value of one `data-tweet-id="..."` of its text. */
  lemma PageIdsAreDigits(page: Page)
    ensures var ids := PageIds(page);
      && |ids| == |FindAll(TweetIdName, Text(page))|
      && forall k | 0 <= k < |ids| :: IsDigits(ids[k]) && ids[k] == AttrValue(TweetIdName, FindAll(TweetIdName, Text(page))[k])
  {
    NamesHaveNoDigits();
    ExtractedValues(TweetIdName, Text(page));
  }

  /** The id is on the page and its tweet is turned down by the age filter. */
  predicate Rejects(page: Page, olderAge: Option<int>, id: string) {
    var tag := Find(page.items.tags, id);
    tag.Some? && TooOld(tag.value, olderAge)
  }

  /** `t` is what `process_html` stores under the key `id` of `page`. */
  predicate Stored(page: Page, olderAge: Option<int>, id: string, t: Tweet) {
    var tag := Find(page.items.tags, id);
    && t.tweetId == id
    && tag.Some?
    && !TooOld(tag.value, olderAge)
    && Describes(tag.value, t.data)
    && Admitted(olderAge, t.data)
    && (t.data.retweet ==> t.profilePic.None?)
    && (!t.data.retweet ==> page.avatars != [] && t.profilePic == Some(page.avatars[0]))
  }

  /**
    What the loop body of `process_html` makes of one id: the tweet to
    store, None when `process_tweet` turns it down, or an exception.
  */
  function Verdict(page: Page, olderAge: Option<int>, id: string): Result<Option<Tweet>, Fault>
  {
    match Find(page.items.tags, id)
    case None => Raise(MissingElement)
    case Some(tag) =>
      match ProcessTweet(tag, olderAge)
      case Raise(f) => Raise(f)
      case Ok(None) => Ok(None)
      case Ok(Some(d)) =>
        if d.retweet then Ok(Some(Tweet(id, d, None)))
        else if page.avatars == [] then Raise(MissingProfileAvatar)
        else Ok(Some(Tweet(id, d, Some(page.avatars[0]))))
  }

  /** A verdict raises only the faults of reading one tweet. */
  lemma VerdictFaults(page: Page, olderAge: Option<int>, id: string)
    ensures var r := Verdict(page, olderAge, id);
      r.Raise? ==> r.error in {MissingElement, TooFewStats, MissingProfileAvatar}
  {
  }

  /**
    The verdict is None exactly when the age filter turns the tweet down; a
    stored tweet is the record of its element; and it raises exactly when
    the element is missing, has too few stat counts, or is not a retweet on
    a page without a profile avatar.
  */
  lemma VerdictMeaning(page: Page, olderAge: Option<int>, id: string)
    ensures var r := Verdict(page, olderAge, id);
      var tag := Find(page.items.tags, id);
      && (r == Ok(None) <==> Rejects(page, olderAge, id))
      && (r.Ok? && r.value.Some? ==> Stored(page, olderAge, id, r.value.value))
      && (r == Raise(MissingElement) <==> tag.None?)
      && (r == Raise(TooFewStats) <==>
            tag.Some? && !TooOld(tag.value, olderAge) && |StatCounts(tag.value.content)| < 3)
      && (r == Raise(MissingProfileAvatar) <==>
            tag.Some? && !TooOld(tag.value, olderAge) && |StatCounts(tag.value.content)| >= 3
            && tag.value.retweetMarks != 1 && page.avatars == [])
  {
    var tag := Find(page.items.tags, id);
    if tag.Some? {
      ProcessTweetMeaning(tag.value, olderAge);
    }
  }

  /** The verdicts on `ids`, in order. */
  function Verdicts(page: Page, olderAge: Option<int>, ids: seq<string>): (vs: seq<Result<Option<Tweet>, Fault>>)
    ensures |vs| == |ids|
  {
    seq(|ids|, k requires 0 <= k < |ids| => Verdict(page, olderAge, ids[k]))
  }

  /** The tweets collected so far and the `older_age_reached` flag. */
  datatype Selection = Selection(tweets: TweetMap, reached: bool)

  /** One pass of the loop in `process_html`: store the tweet under its id, stop, or raise. */
  function Visit(acc: TweetMap, v: Result<Option<Tweet>, Fault>): Result<Selection, Fault>
  {
    match v
    case Raise(f) => Raise(f)
    case Ok(None) => Ok(Selection(acc, true))
    case Ok(Some(t)) => Ok(Selection(acc[t.tweetId := t], false))
  }

  /**
    The loop of `process_html` as a fold from the left over the verdicts
    on the ids: it stops at the first rejected tweet (`break`) or exception.
  */
  function Select(vs: seq<Result<Option<Tweet>, Fault>>): Result<Selection, Fault>
    decreases |vs|
  {
    if vs == [] then Ok(Selection(map[], false))
    else
      var prev := Select(vs[..|vs| - 1]);
      if prev.Raise? || prev.value.reached then prev
      else Visit(prev.value.tweets, vs[|vs| - 1])
  }

  /** What `process_html` returns: `tweet_map`, `n_items`, `min_position`, `older_age_reached`. */
  datatype PageResult = PageResult(tweets: TweetMap, count: nat, minPosition: int, reached: bool)

  /** `process_html` as a function of the page. */
  function HtmlResult(page: Page, maxCount: Option<int>, olderAge: Option<int>): Result<PageResult, Fault>
  {
    match Select(Verdicts(page, olderAge, Limit(PageIds(page), maxCount)))
    case Raise(f) => Raise(f)
    case Ok(sel) =>
      if page.containers == [] then Raise(MissingStreamContainer)
      else Ok(PageResult(sel.tweets, |sel.tweets|, page.containers[0].minPosition, sel.reached))
  }

  lemma PrefixOfPrefix<T>(s: seq<T>, n: nat, j: nat)
    requires j < n <= |s|
    ensures s[..n][..j] == s[..j] && s[..n][j] == s[j]
  {
  }

  /** Once the walk has stopped or raised, the verdicts after that point change nothing. */
  lemma {:induction false} SelectStable(vs: seq<Result<Option<Tweet>, Fault>>, j: nat)
    requires j <= |vs|
    requires Select(vs[..j]).Raise? || Select(vs[..j]).value.reached
    ensures Select(vs) == Select(vs[..j])
    decreases |vs| - j
  {
    if j < |vs| {
      assert vs[..|vs| - 1][..j] == vs[..j];
      SelectStable(vs[..|vs| - 1], j);
    } else {
      assert vs[..j] == vs;
    }
  }

  /** What the walk does at the verdict `vs[k]`, given what it held before it. */
  lemma SelectStep(vs: seq<Result<Option<Tweet>, Fault>>, k: nat, m: TweetMap)
    requires k < |vs|
    requires Select(vs[..k]) == Ok(Selection(m, false))
    ensures vs[k].Raise? ==> Select(vs) == Raise(vs[k].error)
    ensures vs[k] == Ok(None) ==> Select(vs) == Ok(Selection(m, true))
    ensures vs[k].Ok? && vs[k].value.Some? ==>
              Select(vs[..k + 1]) == Ok(Selection(m[vs[k].value.value.tweetId := vs[k].value.value], false))
  {
    assert vs[..k + 1][..k] == vs[..k];
    if vs[k].Raise? || vs[k] == Ok(None) {
      SelectStable(vs, k + 1);
    }
  }

  /**
    What the walk collects: no more tweets than verdicts, each stored under
    its own id and each the verdict on some id.
  */
  lemma {:induction false} SelectCollects(vs: seq<Result<Option<Tweet>, Fault>>)
    requires Select(vs).Ok?
    ensures var m := Select(vs).value.tweets;
      && |m| <= |vs|
      && forall i | i in m :: m[i].tweetId == i && Ok(Some(m[i])) in vs
    decreases |vs|
  {
    if vs != [] {
      var init := vs[..|vs| - 1];
      SelectCollects(init);
      var prev := Select(init);
      var m := Select(vs).value.tweets;
      if !prev.value.reached {
        var v := vs[|vs| - 1];
        if v.value.Some? {
          var t := v.value.value;
          assert m == prev.value.tweets[t.tweetId := t];
          assert m.Keys == prev.value.tweets.Keys + {t.tweetId};
        }
      }
      forall i | i in m
        ensures Ok(Some(m[i])) in vs
      {
        if Ok(Some(m[i])) != vs[|vs| - 1] {
          var k :| 0 <= k < |init| && init[k] == Ok(Some(m[i]));
          assert vs[k] == init[k];
        }
      }
    }
  }

  /** A walk that did not stop kept a tweet for every verdict, and none of them raised. */
  lemma {:induction false} SelectComplete(vs: seq<Result<Option<Tweet>, Fault>>)
    requires Select(vs).Ok? && !Select(vs).value.reached
    ensures forall k | 0 <= k < |vs| ::
              vs[k].Ok? && vs[k].value.Some? && vs[k].value.value.tweetId in Select(vs).value.tweets
    decreases |vs|
  {
    if vs != [] {
      var init := vs[..|vs| - 1];
      var prev := Select(init);
      assert !prev.value.reached;
      SelectComplete(init);
      var m := Select(vs).value.tweets;
      var t := vs[|vs| - 1].value.value;
      assert m.Keys == prev.value.tweets.Keys + {t.tweetId};
      forall k | 0 <= k < |vs| - 1
        ensures vs[k].Ok? && vs[k].value.Some? && vs[k].value.value.tweetId in m
      {
        assert vs[k] == init[k];
      }
    }
  }

  /**
    The walk sets `older_age_reached` only at a rejected tweet, and every
    tweet before it was kept: the result is what the walk held just before.
  */
  lemma {:induction false} SelectStopsAtRejection(vs: seq<Result<Option<Tweet>, Fault>>, m: TweetMap)
    requires Select(vs) == Ok(Selection(m, true))
    ensures exists j | 0 <= j < |vs| :: Select(vs[..j]) == Ok(Selection(m, false)) && vs[j] == Ok(None)
    decreases |vs|
  {
    var init := vs[..|vs| - 1];
    var prev := Select(init);
    if prev.Ok? && prev.value.reached {
      SelectStopsAtRejection(init, m);
      var j :| 0 <= j < |init| && Select(init[..j]) == Ok(Selection(m, false)) && init[j] == Ok(None);
      PrefixOfPrefix(vs, |vs| - 1, j);
      assert Select(vs[..j]) == Ok(Selection(m, false)) && vs[j] == Ok(None);
    } else {
      assert Select(vs[..|vs| - 1]) == Ok(Selection(m, false));
    }
  }

  /** Conversely, a rejection reached by the walk stops it with what was collected before. */
  lemma SelectStopsIfRejected(vs: seq<Result<Option<Tweet>, Fault>>, j: nat, m: TweetMap)
    requires j < |vs|
    requires Select(vs[..j]) == Ok(Selection(m, false))
    requires vs[j] == Ok(None)
    ensures Select(vs) == Ok(Selection(m, true))
  {
    SelectStep(vs, j, m);
  }

  /**
    The walk raises only the exception of a verdict it reached: one before
    which every verdict stored a tweet.
  */
  lemma {:induction false} SelectRaises(vs: seq<Result<Option<Tweet>, Fault>>)
    requires Select(vs).Raise?
    ensures exists j | 0 <= j < |vs| ::
              vs[j] == Raise(Select(vs).error) && Select(vs[..j]).Ok? && !Select(vs[..j]).value.reached
    decreases |vs|
  {
    var init := vs[..|vs| - 1];
    var prev := Select(init);
    if prev.Raise? {
      SelectRaises(init);
      var j :| 0 <= j < |init| && init[j] == Raise(prev.error) && Select(init[..j]).Ok? && !Select(init[..j]).value.reached;
      PrefixOfPrefix(vs, |vs| - 1, j);
      assert vs[j] == Raise(Select(vs).error) && Select(vs[..j]).Ok? && !Select(vs[..j]).value.reached;
    } else {
      assert Select(vs[..|vs| - 1]) == prev;
    }
  }

  /**
    The page-level facts: `n_items` is the map's size, bounded by the cut id
    list and so by `max_count`; every tweet is stored under an id of that
    list as `process_tweet` built it; and when the walk did not stop, every
    id of the list is there.
  */
  lemma HtmlResultFacts(page: Page, maxCount: Option<int>, olderAge: Option<int>)
    requires HtmlResult(page, maxCount, olderAge).Ok?
    ensures var pr := HtmlResult(page, maxCount, olderAge).value;
      var ids := Limit(PageIds(page), maxCount);
      && pr.count == |pr.tweets|
      && pr.count <= |ids|
      && (maxCount.Some? && maxCount.value >= 0 ==> pr.count <= maxCount.value)
      && (forall i | i in pr.tweets :: i in ids && Stored(page, olderAge, i, pr.tweets[i]))
      && (!pr.reached ==> forall i | i in ids :: i in pr.tweets)
  {
    var ids := Limit(PageIds(page), maxCount);
    var vs := Verdicts(page, olderAge, ids);
    SelectCollects(vs);
    HtmlResultStored(page, maxCount, olderAge);
    if !HtmlResult(page, maxCount, olderAge).value.reached {
      HtmlResultComplete(page, maxCount, olderAge);
    }
  }

  /** Every tweet `process_html` keeps is stored under an id of the cut list, as `process_tweet` built it. */
  lemma HtmlResultStored(page: Page, maxCount: Option<int>, olderAge: Option<int>)
    requires HtmlResult(page, maxCount, olderAge).Ok?
    ensures var m := HtmlResult(page, maxCount, olderAge).value.tweets;
      forall i | i in m :: i in Limit(PageIds(page), maxCount) && Stored(page, olderAge, i, m[i])
  {
    var ids := Limit(PageIds(page), maxCount);
    var vs := Verdicts(page, olderAge, ids);
    SelectCollects(vs);
    var sel := Select(vs).value;
    forall i | i in sel.tweets
      ensures i in ids && Stored(page, olderAge, i, sel.tweets[i])
    {
      VerdictsStore(page, olderAge, ids, sel.tweets[i]);
    }
  }

  /** When the walk did not stop, `process_html` keeps a tweet for every id of the cut list. */
  lemma HtmlResultComplete(page: Page, maxCount: Option<int>, olderAge: Option<int>)
    requires HtmlResult(page, maxCount, olderAge).Ok? && !HtmlResult(page, maxCount, olderAge).value.reached
    ensures forall i | i in Limit(PageIds(page), maxCount) :: i in HtmlResult(page, maxCount, olderAge).value.tweets
  {
    var ids := Limit(PageIds(page), maxCount);
    var vs := Verdicts(page, olderAge, ids);
    var sel := Select(vs).value;
    SelectComplete(vs);
    forall i | i in ids
      ensures i in sel.tweets
    {
      var k :| 0 <= k < |ids| && ids[k] == i;
      VerdictsKeep(page, olderAge, ids, k);
    }
  }

  /**
    `process_html` sets `older_age_reached` only at an id whose tweet the
    age filter turns down, keeps every tweet before it and none from that
    id on.
  */
  lemma HtmlResultReached(page: Page, maxCount: Option<int>, olderAge: Option<int>)
    requires HtmlResult(page, maxCount, olderAge).Ok? && HtmlResult(page, maxCount, olderAge).value.reached
    ensures var ids := Limit(PageIds(page), maxCount);
      var m := HtmlResult(page, maxCount, olderAge).value.tweets;
      exists j | 0 <= j < |ids| ::
        && Rejects(page, olderAge, ids[j])
        && (forall i | 0 <= i < j :: ids[i] in m)
        && (forall i | i in m :: i in ids[..j])
  {
    var ids := Limit(PageIds(page), maxCount);
    var vs := Verdicts(page, olderAge, ids);
    var m := Select(vs).value.tweets;
    SelectStopsAtRejection(vs, m);
    var j :| 0 <= j < |vs| && Select(vs[..j]) == Ok(Selection(m, false)) && vs[j] == Ok(None);
    VerdictMeaning(page, olderAge, ids[j]);
    SelectCollects(vs[..j]);
    assert vs[..j] == Verdicts(page, olderAge, ids[..j]);
    forall i | i in m
      ensures i in ids[..j]
    {
      VerdictsStore(page, olderAge, ids[..j], m[i]);
    }
    SelectComplete(vs[..j]);
    forall i | 0 <= i < j
      ensures ids[i] in m
    {
      assert vs[..j][i] == vs[i];
      VerdictsKeep(page, olderAge, ids, i);
    }
  }

  /** Without an age floor, a page that is read keeps a tweet for every one of its first `max_count` ids. */
  lemma HtmlResultUnfloored(page: Page, maxCount: Option<int>, olderAge: Option<int>)
    requires !FloorActive(olderAge) && HtmlResult(page, maxCount, olderAge).Ok?
    ensures !HtmlResult(page, maxCount, olderAge).value.reached
    ensures forall i | i in Limit(PageIds(page), maxCount) :: i in HtmlResult(page, maxCount, olderAge).value.tweets
  {
    if HtmlResult(page, maxCount, olderAge).value.reached {
      HtmlResultReached(page, maxCount, olderAge);
      assert false;
    }
    HtmlResultFacts(page, maxCount, olderAge);
  }

  /** A tweet some verdict on `ids` stores is stored under one of the ids, as `process_html` builds it. */
  lemma VerdictsStore(page: Page, olderAge: Option<int>, ids: seq<string>, t: Tweet)
    requires Ok(Some(t)) in Verdicts(page, olderAge, ids)
    ensures t.tweetId in ids && Stored(page, olderAge, t.tweetId, t)
  {
    var vs := Verdicts(page, olderAge, ids);
    var k :| 0 <= k < |vs| && vs[k] == Ok(Some(t));
    VerdictMeaning(page, olderAge, ids[k]);
  }

  /** A verdict on `ids[k]` that stores a tweet stores it under `ids[k]`. */
  lemma VerdictsKeep(page: Page, olderAge: Option<int>, ids: seq<string>, k: nat)
    requires k < |ids|
    requires Verdicts(page, olderAge, ids)[k].Ok? && Verdicts(page, olderAge, ids)[k].value.Some?
    ensures Verdicts(page, olderAge, ids)[k].value.value.tweetId == ids[k]
  {
    VerdictMeaning(page, olderAge, ids[k]);
  }

  /**
    The body of the loop in `process_html` for one id: find its element,
    run `process_tweet` on it and, unless it is a retweet, attach the
    page's first profile avatar.
  */
  method ProcessId(page: Page, olderAge: Option<int>, id: string) returns (v: Result<Option<Tweet>, Fault>)
    ensures v == Verdict(page, olderAge, id)
  {
    var tag := Find(page.items.tags, id);
    if tag.None? {
      return Raise(MissingElement);
    }
    var data := ProcessTweet(tag.value, olderAge);
    if data.Raise? {
      return Raise(data.error);
    }
    if data.value.None? {
      return Ok(None);
    }
    var pic: Option<string> := None;
    if !data.value.value.retweet {
      if page.avatars == [] {
        return Raise(MissingProfileAvatar);
      }
      pic := Some(page.avatars[0]);
    }
    v := Ok(Some(Tweet(id, data.value.value, pic)));
  }

  /**
    The loop of `process_html` over the cut id list: each id's tweet is
    stored under it until one is rejected (`older_age_reached`) or raises.
  */
  method WalkIds(page: Page, olderAge: Option<int>, ids: seq<string>) returns (res: Result<Selection, Fault>)
    ensures res == Select(Verdicts(page, olderAge, ids))
  {
    ghost var vs := Verdicts(page, olderAge, ids);
    var tweetMap: TweetMap := map[];
    var k := 0;
    while k < |ids|
      invariant 0 <= k <= |ids|
      invariant Select(vs[..k]) == Ok(Selection(tweetMap, false))
    {
      var v := ProcessId(page, olderAge, ids[k]);
      assert v == vs[k];
      SelectStep(vs, k, tweetMap);
      if v.Raise? {
        return Raise(v.error);
      }
      if v.value.None? {
        return Ok(Selection(tweetMap, true));
      }
      tweetMap := tweetMap[v.value.value.tweetId := v.value.value];
      k := k + 1;
    }
    assert vs[..k] == vs;
    return Ok(Selection(tweetMap, false));
  }

  /**
    `process_html`: walks the first `max_count` ids of the page in document
    order, keeps each tweet `process_tweet` accepts, stops at the first one
    it rejects, and reads `min_position` off the first stream container.
  */
  method ProcessHtml(page: Page, maxCount: Option<int>, olderAge: Option<int>) returns (r: Result<PageResult, Fault>)
    ensures r == HtmlResult(page, maxCount, olderAge)
    ensures r.Ok? ==> r.value.count == |r.value.tweets| <= |Limit(PageIds(page), maxCount)|
  {
    var ids := Limit(PageIds(page), maxCount);
    var sel := WalkIds(page, olderAge, ids);
    if sel.Raise? {
      return Raise(sel.error);
    }
    if page.containers == [] {
      return Raise(MissingStreamContainer);
    }
    r := Ok(PageResult(sel.value.tweets, |sel.value.tweets|, page.containers[0].minPosition, sel.value.reached));
    HtmlResultFacts(page, maxCount, olderAge);
  }
}
