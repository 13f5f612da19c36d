/**
  The three URL builders of the legacy scraper: the profile page, the
  "older tweets" page of the infinite scroll (by `max_position`) and the
  "new tweets" poll (by `min_position`).
*/
module Urls {
  import opened Wrappers
  import opened Decimal

  const ProfileBase := "https://twitter.com/"
  const TimelineBase := "https://twitter.com/i/profiles/show/"
  const NewPageQuery := "/timeline/tweets?include_available_features=1&include_entities=1&max_position="
  const NewPageTail := "&reset_error_state=false"
  const UpdateQuery :=
    "/timeline/tweets?composed_count=0&include_available_features=1&include_entities=1"
    + "&include_new_items_bar=true&interval=30000&latent_count=0&min_position="

  /** `build_twitter_url`: the profile page; the user name is everything after the base. */
  function BuildTwitterUrl(user: string): (url: string)
    ensures |url| == |ProfileBase| + |user|
    ensures url[..|ProfileBase|] == ProfileBase && url[|ProfileBase|..] == user
  {
    ProfileBase + user
  }

  /** The part of a timeline URL before the position, for `user`. */
  function NewPagePrefix(user: string): string {
    TimelineBase + user + NewPageQuery
  }

  /**
    `build_newpage_url`: the older-tweets page.  The position is written in
    decimal between the query and the fixed tail, and reads back as itself.
  */
  function BuildNewpageUrl(user: string, maxPosition: int): (url: string)
    ensures |url| >= |NewPagePrefix(user)| + |NewPageTail|
    ensures url[..|NewPagePrefix(user)|] == NewPagePrefix(user)
    ensures url[|url| - |NewPageTail|..] == NewPageTail
    ensures ParseInt(url[|NewPagePrefix(user)|..|url| - |NewPageTail|]) == Some(maxPosition)
  {
    var pos := IntToString(maxPosition);
    var url := NewPagePrefix(user) + pos + NewPageTail;
    assert url[|NewPagePrefix(user)|..|url| - |NewPageTail|] == pos;
    ParseIntToString(maxPosition);
    url
  }

  /**
    `build_update_url`: the new-tweets poll.  Its position is the text of the
    page's `data-max-position` attribute, so `str` leaves it as it is and it
    ends the URL.
  */
  function BuildUpdateUrl(user: string, minPosition: string): (url: string)
    ensures |url| == |TimelineBase| + |user| + |UpdateQuery| + |minPosition|
    ensures url[..|TimelineBase|] == TimelineBase
    ensures url[|TimelineBase|..|TimelineBase| + |user|] == user
    ensures url[|url| - |minPosition|..] == minPosition
  {
    TimelineBase + user + UpdateQuery + minPosition
  }

  /** Two older-tweets pages of one user are the same URL only for the same position. */
  lemma NewpageUrlInjective(user: string, p: int, q: int)
    requires BuildNewpageUrl(user, p) == BuildNewpageUrl(user, q)
    ensures p == q
  {
    var u := BuildNewpageUrl(user, p);
    assert ParseInt(u[|NewPagePrefix(user)|..|u| - |NewPageTail|]) == Some(q);
  }
}
