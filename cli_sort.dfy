/**
  `sort_tweets` of the command-line tool: the tweets of every user in one
  list, oldest first.  Python's `sorted` is stable, so tweets of the same
  age keep the order in which they were collected.
*/
module CliSort {
  import opened Tweets

  function Age(t: Tweet): int {
    t.data.age
  }

  predicate SortedByAge(s: seq<Tweet>) {
    forall i, j | 0 <= i < j < |s| :: Age(s[i]) <= Age(s[j])
  }

  /** The tweets of `s` of age `a`, in their order in `s`. */
  function OfAge(a: int, s: seq<Tweet>): (r: seq<Tweet>)
    ensures |r| <= |s|
  {
    if s == [] then []
    else (if Age(s[0]) == a then [s[0]] else []) + OfAge(a, s[1..])
  }

  lemma {:induction false} OfAgeAppend(a: int, s: seq<Tweet>, t: seq<Tweet>)
    ensures OfAge(a, s + t) == OfAge(a, s) + OfAge(a, t)
  {
    if s == [] {
      assert s + t == t;
    } else {
      var head := if Age(s[0]) == a then [s[0]] else [];
      assert (s + t)[0] == s[0];
      assert (s + t)[1..] == s[1..] + t;
      assert OfAge(a, s + t) == head + OfAge(a, s[1..] + t);
      OfAgeAppend(a, s[1..], t);
      assert OfAge(a, s) == head + OfAge(a, s[1..]);
    }
  }

  /** The loop `all_tweets += x.values()`: the users' tweets one user after another. */
  function Flatten(groups: seq<seq<Tweet>>): seq<Tweet>
    decreases |groups|
  {
    if groups == [] then [] else Flatten(groups[..|groups| - 1]) + groups[|groups| - 1]
  }

  /**
    Inserts `t` into the sorted `s` before the first tweet not older than
    it; `t` comes from before every tweet of `s` in the input, so ties
    keep their input order.
  */
  function Insert(t: Tweet, s: seq<Tweet>): (r: seq<Tweet>)
    ensures |r| == |s| + 1
  {
    if s == [] || Age(t) <= Age(s[0]) then [t] + s
    else [s[0]] + Insert(t, s[1..])
  }

  /** `sorted(all_tweets, cmp on tweet_age)`: a stable sort, by insertion from the right. */
  function SortByAge(s: seq<Tweet>): (r: seq<Tweet>)
    ensures |r| == |s|
  {
    if s == [] then [] else Insert(s[0], SortByAge(s[1..]))
  }

  lemma {:induction false} InsertPerm(t: Tweet, s: seq<Tweet>)
    ensures multiset(Insert(t, s)) == multiset(s) + multiset{t}
  {
    if s != [] && Age(t) > Age(s[0]) {
      assert s == [s[0]] + s[1..];
      InsertPerm(t, s[1..]);
    }
  }

  /** Every tweet of `Insert(t, s)` is at least as old as `lo` when those of `s` and `t` are. */
  lemma {:induction false} InsertAbove(t: Tweet, s: seq<Tweet>, lo: int)
    requires lo <= Age(t) && forall i | 0 <= i < |s| :: lo <= Age(s[i])
    ensures forall i | 0 <= i < |Insert(t, s)| :: lo <= Age(Insert(t, s)[i])
  {
    if s != [] && Age(t) > Age(s[0]) {
      InsertAbove(t, s[1..], lo);
      var ins := Insert(t, s[1..]);
      assert forall i | 1 <= i < |ins| + 1 :: Insert(t, s)[i] == ins[i - 1];
    }
  }

  lemma {:induction false} InsertSorted(t: Tweet, s: seq<Tweet>)
    requires SortedByAge(s)
    ensures SortedByAge(Insert(t, s))
  {
    if s != [] && Age(t) > Age(s[0]) {
      var rest := s[1..];
      InsertSorted(t, rest);
      InsertAbove(t, rest, Age(s[0]));
      var ins := Insert(t, rest);
      var r := [s[0]] + ins;
      assert r == Insert(t, s);
      forall i, j | 0 <= i < j < |r|
        ensures Age(r[i]) <= Age(r[j])
      {
        if i > 0 {
          assert r[i] == ins[i - 1] && r[j] == ins[j - 1];
        } else {
          assert r[j] == ins[j - 1];
        }
      }
    }
  }

  lemma OfAgeCons(a: int, x: Tweet, s: seq<Tweet>)
    ensures OfAge(a, [x]) == if Age(x) == a then [x] else []
    ensures OfAge(a, [x] + s) == OfAge(a, [x]) + OfAge(a, s)
  {
    assert [x][1..] == [];
    assert ([x] + s)[1..] == s;
  }

  /** Inserting `t` adds it to the tweets of its age ahead of them, and changes no other age's tweets. */
  lemma {:induction false} InsertOfAge(a: int, t: Tweet, s: seq<Tweet>)
    ensures OfAge(a, Insert(t, s)) == OfAge(a, [t]) + OfAge(a, s)
    decreases |s|, 1
  {
    if s == [] || Age(t) <= Age(s[0]) {
      OfAgeCons(a, t, s);
    } else {
      InsertOfAgeStep(a, t, s);
    }
  }

  /** The case where `t` passes the first tweet of `s`, which is then strictly younger than `t`. */
  lemma {:induction false} InsertOfAgeStep(a: int, t: Tweet, s: seq<Tweet>)
    requires s != [] && Age(t) > Age(s[0])
    ensures OfAge(a, Insert(t, s)) == OfAge(a, [t]) + OfAge(a, s)
    decreases |s|, 0
  {
    var first, rest := s[0], s[1..];
    var ins := Insert(t, rest);
    var mine, its, older := OfAge(a, [first]), OfAge(a, [t]), OfAge(a, rest);
    assert OfAge(a, Insert(t, s)) == mine + OfAge(a, ins) by {
      assert Insert(t, s) == [first] + ins;
      OfAgeCons(a, first, ins);
    }
    assert OfAge(a, ins) == its + older by {
      InsertOfAge(a, t, rest);
    }
    assert OfAge(a, s) == mine + older by {
      OfAgeCons(a, first, rest);
      assert s == [first] + rest;
    }
    assert mine == [] || its == [] by {
      OfAgeCons(a, t, rest);
      OfAgeCons(a, first, rest);
    }
    Swap(mine, its, older);
  }

  lemma Swap(x: seq<Tweet>, y: seq<Tweet>, z: seq<Tweet>)
    requires x == [] || y == []
    ensures x + (y + z) == y + (x + z)
  {
    if x == [] {
      assert x + (y + z) == y + z == y + (x + z);
    } else {
      assert x + (y + z) == x + z == y + (x + z);
    }
  }

  /** The stable sort orders by age. */
  lemma {:induction false} SortByAgeSorted(s: seq<Tweet>)
    ensures SortedByAge(SortByAge(s))
  {
    if s != [] {
      SortByAgeSorted(s[1..]);
      InsertSorted(s[0], SortByAge(s[1..]));
    }
  }

  /** The stable sort keeps every tweet as often as it occurs. */
  lemma {:induction false} SortByAgePerm(s: seq<Tweet>)
    ensures multiset(SortByAge(s)) == multiset(s)
  {
    if s != [] {
      SortByAgePerm(s[1..]);
      InsertPerm(s[0], SortByAge(s[1..]));
      assert s == [s[0]] + s[1..];
    }
  }

  /** The stable sort keeps the order of the tweets of each age. */
  lemma {:induction false} SortByAgeStable(s: seq<Tweet>, a: int)
    ensures OfAge(a, SortByAge(s)) == OfAge(a, s)
  {
    if s != [] {
      SortByAgeStable(s[1..], a);
      InsertOfAge(a, s[0], SortByAge(s[1..]));
      OfAgeCons(a, s[0], s[1..]);
      assert s == [s[0]] + s[1..];
    }
  }

  /** The flattened list holds every tweet of every user. */
  lemma {:induction false} FlattenContents(groups: seq<seq<Tweet>>)
    ensures forall g, t | g in groups && t in g :: t in Flatten(groups)
    ensures forall t | t in Flatten(groups) :: exists g | g in groups :: t in g
    decreases |groups|
  {
    if groups != [] {
      var init := groups[..|groups| - 1];
      FlattenContents(init);
      assert forall g | g in init :: g in groups;
      assert groups == init + [groups[|groups| - 1]];
    }
  }

  /**
    `sort_tweets`, its first half: the loop that appends each user's
    tweets to `all_tweets`.
  */
  method Collect(groups: seq<seq<Tweet>>) returns (allTweets: seq<Tweet>)
    ensures allTweets == Flatten(groups)
  {
    allTweets := [];
    var k := 0;
    while k < |groups|
      invariant 0 <= k <= |groups|
      invariant allTweets == Flatten(groups[..k])
    {
      assert groups[..k + 1][..k] == groups[..k];
      allTweets := allTweets + groups[k];
      k := k + 1;
    }
    assert groups[..k] == groups;
  }

  /**
    `sort_tweets(tweet_map)`, with `groups` the users' tweet dictionaries
    in the order the dictionaries give them: every collected tweet, oldest
    first, ties in collection order.
  */
  method SortTweets(groups: seq<seq<Tweet>>) returns (sorted: seq<Tweet>)
    ensures sorted == SortByAge(Flatten(groups))
    ensures SortedByAge(sorted) && multiset(sorted) == multiset(Flatten(groups))
  {
    var allTweets := Collect(groups);
    sorted := SortByAge(allTweets);
    SortByAgeSorted(allTweets);
    SortByAgePerm(allTweets);
  }
}
