/**
  The bookkeeping of `poll` in the command-line tool: the initial fetch of
  every user's profile page, the removal of the users it failed for, and
  one round of the polling loop, which refreshes a user's stored page only
  after an update with new tweets.

  `Policy.AsWritten` follows the code; `Policy.Guarded` stops when no user
  is left to poll and keeps a user's stored page when its refresh cannot
  be fetched.
*/
module CliPoll {
  import opened Wrappers
  import opened Tweets
  import opened Pagination
  import opened Batch

  /** What ends `poll` with an exception. */
  datatype PollFault =
    | Scraper(fault: Fault)   // raised inside `get_update_info` or `get_new_tweets`
    | MissingInfo             // `info[u]` for a user without an entry: KeyError
    | NoneInfo                // `info[u]["max_pos"]` when `info[u]` is None: TypeError

  /** The `info` dictionary: what `get_update_info` gave for each user. */
  type Info = map<string, Option<UpdateInfo>>

  /**
    What `get_update_info(u)` gives: `GetUpdateInfo` of the profile page
    the fetch returns.
  */
  type Lookup = Result<Option<UpdateInfo>, Fault>

  /** How the set-up ends: `poll` returns, or goes on to poll `users` with `info`. */
  datatype Setup = Stopped | Polling(users: seq<string>, info: Info)

  /**
    The initial loop over `users`: `info[u]` is the result for `u`, and `u`
    goes to `del_items` when that result is None.  `fetched[i]` is what
    `get_update_info` gives for the i-th user.
  */
  function Fetch(users: seq<string>, fetched: seq<Lookup>): Result<(Info, seq<string>), Fault>
    requires |fetched| == |users|
  {
    if users == [] then Ok((map[], []))
    else
      var n := |users| - 1;
      match Fetch(users[..n], fetched[..n])
      case Raise(f) => Raise(f)
      case Ok((info, del)) =>
        match fetched[n]
        case Raise(f) => Raise(f)
        case Ok(x) => Ok((info[users[n] := x], if x.None? then del + [users[n]] else del))
  }

  /** `[x for x in users if x not in del_items]`. */
  function Without(users: seq<string>, del: seq<string>): (r: seq<string>)
    ensures forall u :: u in r <==> u in users && u !in del
  {
    if users == [] then []
    else (if users[0] in del then [] else [users[0]]) + Without(users[1..], del)
  }

  /** `Without` keeps the order of the users it keeps. */
  lemma {:induction false} WithoutAppend(a: seq<string>, b: seq<string>, del: seq<string>)
    ensures Without(a + b, del) == Without(a, del) + Without(b, del)
  {
    if a == [] {
      assert a + b == b;
    } else {
      assert (a + b)[1..] == a[1..] + b;
      WithoutAppend(a[1..], b, del);
    }
  }

  /**
    The set-up of `poll`: the initial loop, the removal of the marked users,
    and the `len(info) <= 0` test (as written), or a test that some user is
    left (guarded).
  */
  function StartPolling(policy: Policy, users: seq<string>, fetched: seq<Lookup>): Result<Setup, PollFault>
    requires |fetched| == |users|
  {
    match Fetch(users, fetched)
    case Raise(f) => Raise(Scraper(f))
    case Ok((info, del)) =>
      var kept := Without(users, del);
      var stop := if policy == AsWritten then |info| <= 0 else kept == [];
      if stop then Ok(Stopped) else Ok(Polling(kept, info))
  }

  /** Whether the i-th fetch failed. */
  predicate FailedAt(fetched: seq<Lookup>, i: int)
    requires 0 <= i < |fetched|
  {
    fetched[i] == Ok(None)
  }

  /** The initial loop raises exactly when one of its lookups raises. */
  lemma {:induction false} FetchRaises(users: seq<string>, fetched: seq<Lookup>)
    requires |fetched| == |users|
    ensures Fetch(users, fetched).Raise? <==> exists i | 0 <= i < |users| :: fetched[i].Raise?
  {
    if users != [] {
      var n := |users| - 1;
      FetchRaises(users[..n], fetched[..n]);
      assert forall i | 0 <= i < n :: fetched[..n][i] == fetched[i];
    }
  }

  /** Otherwise `info` has an entry for every user and nothing else. */
  lemma {:induction false} FetchKeys(users: seq<string>, fetched: seq<Lookup>)
    requires |fetched| == |users|
    ensures Fetch(users, fetched).Ok? ==> Fetch(users, fetched).value.0.Keys == set u | u in users
  {
    if users != [] {
      var n := |users| - 1;
      FetchKeys(users[..n], fetched[..n]);
      assert users == users[..n] + [users[n]];
    }
  }

  /** `del_items` names exactly the users some lookup found nothing for. */
  lemma {:induction false} FetchMarks(users: seq<string>, fetched: seq<Lookup>)
    requires |fetched| == |users|
    ensures Fetch(users, fetched).Ok? ==> forall u ::
      u in Fetch(users, fetched).value.1 <==> exists i | 0 <= i < |users| :: users[i] == u && FailedAt(fetched, i)
  {
    if users != [] && Fetch(users, fetched).Ok? {
      var n := |users| - 1;
      var init, initFetched := users[..n], fetched[..n];
      FetchMarks(init, initFetched);
      var del := Fetch(init, initFetched).value.1;
      var del' := Fetch(users, fetched).value.1;
      assert del' == if fetched[n] == Ok(None) then del + [users[n]] else del;
      forall u
        ensures u in del' <==> exists i | 0 <= i < |users| :: users[i] == u && FailedAt(fetched, i)
      {
        if exists i | 0 <= i < |users| :: users[i] == u && FailedAt(fetched, i) {
          var i :| 0 <= i < |users| && users[i] == u && FailedAt(fetched, i);
          if i < n {
            assert init[i] == u && FailedAt(initFetched, i);
          }
        }
        if u in del {
          var i :| 0 <= i < n && init[i] == u && FailedAt(initFetched, i);
          assert users[i] == u && FailedAt(fetched, i);
        }
      }
    }
  }

  /** Every user not in `del_items` has a stored page. */
  lemma {:induction false} FetchReady(users: seq<string>, fetched: seq<Lookup>)
    requires |fetched| == |users|
    ensures Fetch(users, fetched).Ok? ==>
      var (info, del) := Fetch(users, fetched).value;
      forall u | u in users && u !in del :: u in info && info[u].Some?
  {
    if users != [] && Fetch(users, fetched).Ok? {
      var n := |users| - 1;
      var init, initFetched := users[..n], fetched[..n];
      FetchReady(init, initFetched);
      var (info, del) := Fetch(init, initFetched).value;
      assert users == init + [users[n]];
      ReadyStep(init, info, del, users[n], fetched[n].value);
    }
  }

  /** One more user of the initial loop keeps every user not marked for deletion ready. */
  lemma ReadyStep(init: seq<string>, info: Info, del: seq<string>, v: string, x: Option<UpdateInfo>)
    requires forall u | u in init && u !in del :: u in info && info[u].Some?
    ensures var del' := if x.None? then del + [v] else del;
      forall u | u in init + [v] && u !in del' :: u in info[v := x] && info[v := x][u].Some?
  {
    var del' := if x.None? then del + [v] else del;
    forall u | u in init + [v] && u !in del'
      ensures u in info[v := x] && info[v := x][u].Some?
    {
      if u != v {
        assert u in init && u !in del;
      }
    }
  }


  /**
    What the set-up of `poll` leaves.  It raises exactly when some lookup
    raises.  Otherwise the users it goes on with are those no lookup found
    nothing for, each with a stored page; as written it stops only when it
    was given no user, and guarded when no user is left.
  */
  lemma StartPollingFacts(policy: Policy, users: seq<string>, fetched: seq<Lookup>)
    requires |fetched| == |users|
    ensures StartPolling(policy, users, fetched).Raise? <==>
      exists i | 0 <= i < |users| :: fetched[i].Raise?
    ensures var r := StartPolling(policy, users, fetched);
      r.Ok? && r.value.Polling? ==>
        && (forall u :: u in r.value.users <==>
              u in users && forall i | 0 <= i < |users| && users[i] == u :: !FailedAt(fetched, i))
        && (forall u | u in r.value.users :: u in r.value.info && r.value.info[u].Some?)
    ensures var r := StartPolling(policy, users, fetched);
      policy == AsWritten && r.Ok? ==> (r.value.Stopped? <==> users == [])
    ensures var r := StartPolling(policy, users, fetched);
      policy == Guarded && r.Ok? ==>
        (r.value.Stopped? <==> forall u | u in users :: exists i | 0 <= i < |users| :: users[i] == u && FailedAt(fetched, i))
  {
    FetchRaises(users, fetched);
    FetchKeys(users, fetched);
    FetchMarks(users, fetched);
    FetchReady(users, fetched);
    if Fetch(users, fetched).Ok? {
      var info, del := Fetch(users, fetched).value.0, Fetch(users, fetched).value.1;
      var kept := Without(users, del);
      if users != [] {
        assert users[0] in users;
        assert users[0] in info.Keys;
      }
      if kept != [] {
        assert kept[0] in kept;
      }
    }
  }

  /**
    As written, `poll` goes on polling no user at all when every initial
    fetch fails, since `info` still holds an entry (None) for each of them;
    guarded, it stops.
  */
  lemma PollsNobody(u: string)
    ensures StartPolling(AsWritten, [u], [Ok(None)]) == Ok(Polling([], map[u := None]))
    ensures StartPolling(Guarded, [u], [Ok(None)]) == Ok(Stopped)
  {
    var none: seq<Lookup> := [Ok(None)];
    assert [u][..0] == [] && none[..0] == [];
    var empty: Info := map[];
    assert Fetch([], []) == Ok((empty, []));
    assert empty[u := None] == map[u := None];
    assert [] + [u] == [u];
    assert Fetch([u], none) == Ok((map[u := None], [u]));
    assert Without([u], [u]) == [];
    var info: Info := map[u := None];
    assert info.Keys == {u};
  }

  /**
    What one user's turn of the polling loop reads: the answer of the
    new-tweets poll and, when there is news, what `get_update_info` gives.
  */
  datatype Poll = Poll(answer: Option<Fresh>, refresh: Lookup)

  /** `get_new_tweets` on a stored page, abstracted so that proofs about the loop do not look into it. */
  type NewsReader = (Page, Option<Fresh>) -> Result<Option<TweetMap>, Fault>

  ghost predicate ReadsNews(reader: NewsReader) {
    forall full, answer {:trigger NewTweets(full, answer)} :: reader(full, answer) == NewTweets(full, answer)
  }

  /** `if update:` — the update holds at least one tweet. */
  predicate HasNews(update: Option<TweetMap>) {
    update.Some? && update.value != map[]
  }

  /**
    User `u`'s turn: read the new tweets after the stored page, and when
    there are any, store what `get_update_info` gives again (as written
    even when that is None; guarded only when it is not).
  */
  function Turn(policy: Policy, reader: NewsReader, u: string, info: Info, p: Poll): Result<Info, PollFault> {
    if u !in info then Raise(MissingInfo)
    else if info[u].None? then Raise(NoneInfo)
    else
      match reader(info[u].value.html, p.answer)
      case Raise(f) => Raise(Scraper(f))
      case Ok(update) =>
        if !HasNews(update) then Ok(info)
        else
          match p.refresh
          case Raise(f) => Raise(Scraper(f))
          case Ok(x) => if x.None? && policy == Guarded then Ok(info) else Ok(info[u := x])
  }

  /** One round of the polling loop: each user's turn, in order, until one raises. */
  function Round(policy: Policy, reader: NewsReader, users: seq<string>, info: Info, polls: seq<Poll>): Result<Info, PollFault>
    requires |polls| == |users|
  {
    if users == [] then Ok(info)
    else
      var n := |users| - 1;
      match Round(policy, reader, users[..n], info, polls[..n])
      case Raise(f) => Raise(f)
      case Ok(cur) => Turn(policy, reader, users[n], cur, polls[n])
  }

  /** A turn keeps the users with an entry, and changes only `u`'s entry, and that only after news. */
  lemma TurnFacts(policy: Policy, reader: NewsReader, u: string, info: Info, p: Poll)
    ensures var r := Turn(policy, reader, u, info, p);
      r.Ok? ==>
        && r.value.Keys == info.Keys
        && (forall v | v in info && v != u :: r.value[v] == info[v])
        && (r.value != info ==>
              u in info && info[u].Some? && reader(info[u].value.html, p.answer).Ok?
              && HasNews(reader(info[u].value.html, p.answer).value)
              && p.refresh == Ok(r.value[u]))
    ensures Turn(policy, reader, u, info, p) == Raise(NoneInfo) <==> u in info && info[u].None?
  {
  }

  /** Every user to poll has a stored page. */
  predicate Ready(users: seq<string>, info: Info) {
    forall u | u in users :: u in info && info[u].Some?
  }

  /**
    A round keeps the users with an entry, leaves the entries of the users
    it does not poll alone, and changes a user's entry only to the
    refreshed page after a turn of that user with news.
  */
  lemma {:induction false} RoundFacts(policy: Policy, reader: NewsReader, users: seq<string>, info: Info, polls: seq<Poll>)
    requires |polls| == |users|
    ensures var r := Round(policy, reader, users, info, polls);
      r.Ok? ==>
        && r.value.Keys == info.Keys
        && (forall v | v in info && v !in users :: r.value[v] == info[v])
        && (forall v | v in info && r.value[v] != info[v] ::
              exists i | 0 <= i < |users| :: users[i] == v && polls[i].refresh == Ok(r.value[v]))
  {
    if users != [] {
      var n := |users| - 1;
      RoundFacts(policy, reader, users[..n], info, polls[..n]);
      var prev := Round(policy, reader, users[..n], info, polls[..n]);
      if prev.Ok? {
        var cur := prev.value;
        TurnFacts(policy, reader, users[n], cur, polls[n]);
        var r := Round(policy, reader, users, info, polls);
        if r.Ok? {
          forall v | v in info && v !in users
            ensures r.value[v] == info[v]
          {
            assert v !in users[..n];
          }
          forall v | v in info && r.value[v] != info[v]
            ensures exists i | 0 <= i < |users| :: users[i] == v && polls[i].refresh == Ok(r.value[v])
          {
            if r.value[v] != cur[v] {
              assert users[n] == v && polls[n].refresh == Ok(r.value[v]);
            } else {
              var i :| 0 <= i < n && users[..n][i] == v && polls[..n][i].refresh == Ok(cur[v]);
              assert users[i] == v && polls[i] == polls[..n][i];
            }
          }
        }
      }
    }
  }

  /**
    Guarded, a round never reads a missing or empty entry: every user keeps
    a stored page, so only the scraper can raise.
  */
  lemma {:induction false} GuardedRoundReady(reader: NewsReader, all: seq<string>, users: seq<string>, info: Info,
                                             polls: seq<Poll>)
    requires |polls| == |users| && Ready(all, info)
    requires forall u | u in users :: u in all
    ensures var r := Round(Guarded, reader, users, info, polls);
      && (r.Ok? ==> Ready(all, r.value))
      && (r.Raise? ==> r.error.Scraper?)
  {
    if users != [] {
      var n := |users| - 1;
      assert forall u | u in users[..n] :: u in users;
      GuardedRoundReady(reader, all, users[..n], info, polls[..n]);
      var prev := Round(Guarded, reader, users[..n], info, polls[..n]);
      if prev.Ok? {
        assert users[n] in all;
        TurnReady(reader, all, users[n], prev.value, polls[n]);
      }
    }
  }

  lemma TurnReady(reader: NewsReader, all: seq<string>, u: string, info: Info, p: Poll)
    requires Ready(all, info) && u in info && info[u].Some?
    ensures var r := Turn(Guarded, reader, u, info, p);
      && (r.Ok? ==> Ready(all, r.value))
      && (r.Raise? ==> r.error.Scraper?)
  {
  }

  /** After the set-up, guarded polling never reads a missing or empty entry, round after round. */
  lemma {:induction false} GuardedPollingReady(reader: NewsReader, users: seq<string>, fetched: seq<Lookup>,
                                               rounds: seq<seq<Poll>>)
    requires |fetched| == |users|
    requires StartPolling(Guarded, users, fetched).Ok? && StartPolling(Guarded, users, fetched).value.Polling?
    requires forall k | 0 <= k < |rounds| :: |rounds[k]| == |StartPolling(Guarded, users, fetched).value.users|
    ensures var s := StartPolling(Guarded, users, fetched).value;
      var r := Rounds(Guarded, reader, s.users, s.info, rounds);
      r.Raise? ==> r.error.Scraper?
  {
    StartPollingFacts(Guarded, users, fetched);
    var s := StartPolling(Guarded, users, fetched).value;
    RoundsReady(reader, s.users, s.info, rounds);
  }

  /** Round after round, until one raises. */
  function Rounds(policy: Policy, reader: NewsReader, users: seq<string>, info: Info, rounds: seq<seq<Poll>>): Result<Info, PollFault>
    requires forall k | 0 <= k < |rounds| :: |rounds[k]| == |users|
    decreases |rounds|
  {
    if rounds == [] then Ok(info)
    else
      match Round(policy, reader, users, info, rounds[0])
      case Raise(f) => Raise(f)
      case Ok(next) => Rounds(policy, reader, users, next, rounds[1..])
  }

  lemma {:induction false} RoundsReady(reader: NewsReader, users: seq<string>, info: Info, rounds: seq<seq<Poll>>)
    requires forall k | 0 <= k < |rounds| :: |rounds[k]| == |users|
    requires Ready(users, info)
    ensures var r := Rounds(Guarded, reader, users, info, rounds);
      r.Raise? ==> r.error.Scraper?
    decreases |rounds|
  {
    if rounds != [] {
      GuardedRoundReady(reader, users, users, info, rounds[0]);
      var r := Round(Guarded, reader, users, info, rounds[0]);
      if r.Ok? {
        RoundsReady(reader, users, r.value, rounds[1..]);
      }
    }
  }

  /**
    As written, a refresh that cannot be fetched stores None, and the next
    round raises TypeError at that user's turn; guarded, the user keeps
    the page stored before.
  */
  lemma RefreshFailureBreaksNextRound(reader: NewsReader, u: string, info: Info, p: Poll, q: Poll)
    requires u in info && info[u].Some? && p.refresh == Ok(None)
    requires reader(info[u].value.html, p.answer).Ok? && HasNews(reader(info[u].value.html, p.answer).value)
    ensures Round(AsWritten, reader, [u], info, [p]) == Ok(info[u := None])
    ensures Round(AsWritten, reader, [u], info[u := None], [q]) == Raise(NoneInfo)
    ensures Round(Guarded, reader, [u], info, [p]) == Ok(info)
  {
    assert [u][..0] == [] && [p][..0] == [] && [q][..0] == [];
  }

  /** `get_update_info(u)` for each user of the initial loop, in order. */
  method FetchAll(users: seq<string>, fetched: seq<Lookup>) returns (r: Result<(Info, seq<string>), Fault>)
    requires |fetched| == |users|
    ensures r == Fetch(users, fetched)
  {
    var info: Info := map[];
    var del: seq<string> := [];
    var k := 0;
    while k < |users|
      invariant 0 <= k <= |users|
      invariant Fetch(users[..k], fetched[..k]) == Ok((info, del))
    {
      assert users[..k + 1][..k] == users[..k] && fetched[..k + 1][..k] == fetched[..k];
      var x := fetched[k];
      if x.Raise? {
        r := Raise(x.error);
        FetchSticks(users, fetched, k + 1);
        return;
      }
      info := info[users[k] := x.value];
      if x.value.None? {
        del := del + [users[k]];
      }
      k := k + 1;
    }
    assert users[..k] == users && fetched[..k] == fetched;
    r := Ok((info, del));
  }

  /** Once the initial loop has raised, the later users do not matter. */
  lemma {:induction false} FetchSticks(users: seq<string>, fetched: seq<Lookup>, k: nat)
    requires |fetched| == |users| && k <= |users|
    requires Fetch(users[..k], fetched[..k]).Raise?
    ensures Fetch(users, fetched) == Fetch(users[..k], fetched[..k])
    decreases |users| - k
  {
    if k < |users| {
      assert users[..k + 1][..k] == users[..k] && fetched[..k + 1][..k] == fetched[..k];
      FetchSticks(users, fetched, k + 1);
    } else {
      assert users[..k] == users && fetched[..k] == fetched;
    }
  }

  /** The set-up of `poll`, with `fetched` what `get_update_info` gives for each user in turn. */
  method Start(policy: Policy, users: seq<string>, fetched: seq<Lookup>) returns (r: Result<Setup, PollFault>)
    requires |fetched| == |users|
    ensures r == StartPolling(policy, users, fetched)
  {
    var fetchedInfo := FetchAll(users, fetched);
    match fetchedInfo
    case Raise(f) =>
      r := Raise(Scraper(f));
    case Ok((info, del)) =>
      var kept := Without(users, del);
      if policy == AsWritten && |info| <= 0 {
        r := Ok(Stopped);
      } else if policy == Guarded && kept == [] {
        r := Ok(Stopped);
      } else {
        r := Ok(Polling(kept, info));
      }
  }

  /**
    One round of the polling loop, with `polls` what each user's turn
    reads; the stored pages are read with `get_new_tweets`.
  */
  method PollRound(policy: Policy, ghost reader: NewsReader, users: seq<string>, info: Info, polls: seq<Poll>)
    returns (r: Result<Info, PollFault>)
    requires |polls| == |users| && ReadsNews(reader)
    ensures r == Round(policy, reader, users, info, polls)
  {
    var cur := info;
    var k := 0;
    while k < |users|
      invariant 0 <= k <= |users|
      invariant Round(policy, reader, users[..k], info, polls[..k]) == Ok(cur)
    {
      RoundStep(policy, reader, users, info, polls, k);
      var u := users[k];
      ghost var next := Turn(policy, reader, u, cur, polls[k]);
      if u !in cur {
        r := Raise(MissingInfo);
        RoundSticks(policy, reader, users, info, polls, k + 1);
        return;
      }
      if cur[u].None? {
        r := Raise(NoneInfo);
        RoundSticks(policy, reader, users, info, polls, k + 1);
        return;
      }
      var update := ReadNews(reader, cur[u].value.html, polls[k].answer);
      if update.Raise? {
        r := Raise(Scraper(update.error));
        RoundSticks(policy, reader, users, info, polls, k + 1);
        return;
      }
      if HasNews(update.value) {
        var x := polls[k].refresh;
        if x.Raise? {
          r := Raise(Scraper(x.error));
          RoundSticks(policy, reader, users, info, polls, k + 1);
          return;
        }
        if !(x.value.None? && policy == Guarded) {
          cur := cur[u := x.value];
        }
      }
      assert next == Ok(cur);
      k := k + 1;
    }
    assert users[..k] == users && polls[..k] == polls;
    r := Ok(cur);
  }

  /** `get_new_tweets(html)` on a stored page, as the reader of the round gives it. */
  method ReadNews(ghost reader: NewsReader, full: Page, answer: Option<Fresh>) returns (update: Result<Option<TweetMap>, Fault>)
    requires ReadsNews(reader)
    ensures update == reader(full, answer)
  {
    update := GetNewTweets(full, answer);
  }

  /** A round over one more user is that user's turn after the shorter round. */
  lemma RoundStep(policy: Policy, reader: NewsReader, users: seq<string>, info: Info, polls: seq<Poll>, k: nat)
    requires |polls| == |users| && k < |users|
    ensures Round(policy, reader, users[..k + 1], info, polls[..k + 1])
         == match Round(policy, reader, users[..k], info, polls[..k])
            case Raise(f) => Raise(f)
            case Ok(cur) => Turn(policy, reader, users[k], cur, polls[k])
  {
    assert users[..k + 1][..k] == users[..k] && polls[..k + 1][..k] == polls[..k];
  }

  /** Once a round has raised, the later turns do not matter. */
  lemma {:induction false} RoundSticks(policy: Policy, reader: NewsReader, users: seq<string>, info: Info,
                                       polls: seq<Poll>, k: nat)
    requires |polls| == |users| && k <= |users|
    requires Round(policy, reader, users[..k], info, polls[..k]).Raise?
    ensures Round(policy, reader, users, info, polls) == Round(policy, reader, users[..k], info, polls[..k])
    decreases |users| - k
  {
    if k < |users| {
      assert users[..k + 1][..k] == users[..k] && polls[..k + 1][..k] == polls[..k];
      RoundSticks(policy, reader, users, info, polls, k + 1);
    } else {
      assert users[..k] == users && polls[..k] == polls;
    }
  }

  lemma NewTweetsReadsNews()
    ensures ReadsNews((full, answer) => NewTweets(full, answer))
  {
  }

  /** One round of the polling loop with `get_new_tweets` itself. */
  method PollOnce(policy: Policy, users: seq<string>, info: Info, polls: seq<Poll>) returns (r: Result<Info, PollFault>)
    requires |polls| == |users|
    ensures r == Round(policy, (full, answer) => NewTweets(full, answer), users, info, polls)
  {
    NewTweetsReadsNews();
    r := PollRound(policy, (full, answer) => NewTweets(full, answer), users, info, polls);
  }
}
