/**
  `format_tweet` of the command-line tool, without its `strip` branch:
  the mention and hashtag links of a tweet's markdown are made absolute,
  trailing new lines are dropped, and on request every line gets a tab.
*/
module CliFormat {
  import opened Wrappers
  import opened Scan

  const TwitterRoot := "https://twitter.com"

  /** The start of a relative link as the markdown conversion writes it: `[~~@~~**` or `[~~#~~**`. */
  function Opener(marker: char): string {
    "[~~" + [marker] + "~~**"
  }

  /** What `([^*]+)` captures: a non-empty run without `*`. */
  predicate IsName(s: string) {
    s != [] && forall i | 0 <= i < |s| :: s[i] != '*'
  }

  /** What `([^)]+)` captures: a non-empty run without `)`. */
  predicate IsPath(s: string) {
    s != [] && forall i | 0 <= i < |s| :: s[i] != ')'
  }

  /** The text `[~~@~~**name**](path)` (or with `#`) that the pattern matches. */
  function Markup(marker: char, name: string, path: string): string {
    Opener(marker) + name + "**](" + path + ")"
  }

  /** The replacement `[@name](https://twitter.com<path>)` (or with `#`). */
  function Link(marker: char, name: string, path: string): string {
    "[" + [marker] + name + "](" + TwitterRoot + path + ")"
  }

  /**
    The match of the pattern at the start of `s`, as its two groups.  Both
    groups are greedy runs of the characters their class allows, and the
    character after each run is one the class refuses, so only the longest
    runs can be part of a match: the pattern matches when `s` starts with
    the markup those runs make.
  */
  function MatchLink(marker: char, s: string): (r: Option<(string, string)>)
    ensures r.Some? ==> IsName(r.value.0) && IsPath(r.value.1)
    ensures r.Some? ==> Markup(marker, r.value.0, r.value.1) <= s && s[0] == '[' && s[1] == '~'
  {
    var o := Opener(marker);
    if |s| < |o| then None
    else
      var name := Run(s[|o|..], '*');
      var at := |o| + |name| + 4;
      if at > |s| then None
      else
        var path := Run(s[at..], ')');
        var markup := Markup(marker, name, path);
        if name != [] && path != [] && markup <= s then
          MarkupStart(marker, name, path);
          Some((name, path))
        else None
  }

  /** The longest prefix of `t` without `stop`: what a greedy `[^stop]+` takes. */
  function Run(t: string, stop: char): (r: string)
    ensures r <= t && forall i | 0 <= i < |r| :: r[i] != stop
    ensures |r| < |t| ==> t[|r|] == stop
  {
    t[..RunLength(t, c => c != stop)]
  }

  /** Only the longest run is the run. */
  lemma RunOf(a: string, stop: char, b: string)
    requires forall i | 0 <= i < |a| :: a[i] != stop
    requires b != [] && b[0] == stop
    ensures Run(a + b, stop) == a
  {
    RunLengthOf(a, b, c => c != stop);
  }

  lemma MarkupStart(marker: char, name: string, path: string)
    ensures |Markup(marker, name, path)| == |Opener(marker)| + |name| + 4 + |path| + 1
    ensures Markup(marker, name, path)[0] == '[' && Markup(marker, name, path)[1] == '~'
  {
  }

  /** Every markup link is matched, with its own name and path. */
  lemma MatchLinkFinds(marker: char, name: string, path: string, rest: string)
    requires IsName(name) && IsPath(path)
    ensures MatchLink(marker, Markup(marker, name, path) + rest) == Some((name, path))
  {
    var o := Opener(marker);
    var s := Markup(marker, name, path) + rest;
    assert s[|o|..] == name + ("**](" + path + ")" + rest);
    RunOf(name, '*', "**](" + path + ")" + rest);
    var at := |o| + |name| + 4;
    assert s[at..] == path + (")" + rest);
    RunOf(path, ')', ")" + rest);
  }

  /**
    `re.sub` of the link pattern: a left-to-right scan that replaces each
    match and then goes on after it, and copies every other character.
  */
  function Rewrite(marker: char, s: string): string
    decreases |s|
  {
    if s == [] then []
    else match MatchLink(marker, s)
      case Some((name, path)) =>
        Link(marker, name, path) + Rewrite(marker, s[|Markup(marker, name, path)|..])
      case None => [s[0]] + Rewrite(marker, s[1..])
  }

  /** A markup link is replaced by its absolute link, and the scan goes on after it. */
  lemma RewriteLink(marker: char, name: string, path: string, rest: string)
    requires IsName(name) && IsPath(path)
    ensures Rewrite(marker, Markup(marker, name, path) + rest)
      == Link(marker, name, path) + Rewrite(marker, rest)
  {
    var m := Markup(marker, name, path);
    MatchLinkFinds(marker, name, path, rest);
    assert m + rest != [];
    assert (m + rest)[|m|..] == rest;
  }

  /** No match can start where the text does not start with `[~`; that character is copied. */
  lemma RewriteCopies(marker: char, s: string)
    requires s != [] && (s[0] != '[' || (|s| >= 2 && s[1] != '~'))
    ensures Rewrite(marker, s) == [s[0]] + Rewrite(marker, s[1..])
  {
    assert MatchLink(marker, s).None?;
  }

  predicate NoBracket(s: string) {
    forall i | 0 <= i < |s| :: s[i] != '['
  }

  /** Text without `[` is copied as it is. */
  lemma {:induction false} RewritePlain(marker: char, plain: string, rest: string)
    requires NoBracket(plain)
    ensures Rewrite(marker, plain + rest) == plain + Rewrite(marker, rest)
    decreases |plain|
  {
    if plain == [] {
      assert plain + rest == rest;
    } else {
      var s := plain + rest;
      assert s[0] == plain[0];
      RewriteCopies(marker, s);
      assert s[1..] == plain[1..] + rest;
      RewritePlain(marker, plain[1..], rest);
      assert plain == [plain[0]] + plain[1..];
    }
  }

  /**
    `re.sub("\n+$", "", text)`.  A run of new lines is followed by the end
    of the text only when it is the trailing run, and the leftmost match
    starts where that run starts, so the whole trailing run is removed.
  */
  function TrimNewlines(s: string): (r: string)
    ensures r <= s && (r == [] || r[|r| - 1] != '\n')
    ensures forall i | |r| <= i < |s| :: s[i] == '\n'
    decreases |s|
  {
    if s != [] && s[|s| - 1] == '\n' then TrimNewlines(s[..|s| - 1]) else s
  }

  /** Trailing new lines appended to a text are all removed again. */
  lemma {:induction false} TrimNewlinesAppended(s: string, newlines: string)
    requires forall i | 0 <= i < |newlines| :: newlines[i] == '\n'
    ensures TrimNewlines(s + newlines) == TrimNewlines(s)
    decreases |newlines|
  {
    if newlines != [] {
      var n := |newlines| - 1;
      assert (s + newlines)[..|s + newlines| - 1] == s + newlines[..n];
      TrimNewlinesAppended(s, newlines[..n]);
    } else {
      assert s + newlines == s;
    }
  }

  /** `re.sub(r"\n", r"\n\t", text)`: a tab after every new line. */
  function TabLines(s: string): (r: string)
    ensures |r| >= |s|
    ensures s != [] && s[|s| - 1] != '\n' ==> r != [] && r[|r| - 1] == s[|s| - 1]
  {
    if s == [] then []
    else (if s[0] == '\n' then "\n\t" else [s[0]]) + TabLines(s[1..])
  }

  /** Undoes `TabLines`: drops the tab that follows each new line. */
  function Untab(s: string): string
    decreases |s|
  {
    if s == [] then []
    else if s[0] == '\n' && |s| >= 2 && s[1] == '\t' then "\n" + Untab(s[2..])
    else [s[0]] + Untab(s[1..])
  }

  /**
    The two substitutions of `add_tabs`: `^` without the multi-line flag
    matches only at the start, so one tab goes in front, and one after
    every new line.
  */
  function AddTabs(s: string): (r: string)
    ensures r != [] && r[0] == '\t'
  {
    "\t" + TabLines(s)
  }

  /** Each line of the tabbed text starts with a tab. */
  lemma {:induction false} TabLinesTabs(s: string)
    ensures forall i | 0 <= i < |TabLines(s)| && TabLines(s)[i] == '\n' ::
      i + 1 < |TabLines(s)| && TabLines(s)[i + 1] == '\t'
  {
    if s != [] {
      TabLinesTabs(s[1..]);
      var head := if s[0] == '\n' then "\n\t" else [s[0]];
      assert TabLines(s) == head + TabLines(s[1..]);
    }
  }

  /** The tabs that `TabLines` adds are the only ones `Untab` removes. */
  lemma {:induction false} UntabTabLines(s: string)
    ensures Untab(TabLines(s)) == s
  {
    if s != [] {
      UntabTabLines(s[1..]);
      var rest := TabLines(s[1..]);
      if s[0] == '\n' {
        assert ("\n\t" + rest)[2..] == rest;
      } else {
        assert ([s[0]] + rest)[1..] == rest;
      }
    }
  }

  /** `AddTabs` loses nothing: the text is its tabbed form without the added tabs. */
  lemma AddTabsRoundTrip(s: string)
    ensures Untab(AddTabs(s)[1..]) == s
  {
    assert AddTabs(s)[1..] == TabLines(s);
    UntabTabLines(s);
  }

  /**
    `format_tweet(text, add_tabs)` with `strip` false: mentions, then
    hashtags, then the trailing new lines, then the tabs.
  */
  function FormatTweet(text: string, addTabs: bool): (r: string)
    ensures r == [] || r[|r| - 1] != '\n'
    ensures addTabs ==> r != [] && r[0] == '\t'
    ensures !addTabs ==> r <= Rewrite('#', Rewrite('@', text))
  {
    var linked := Rewrite('#', Rewrite('@', text));
    var trimmed := TrimNewlines(linked);
    if addTabs then AddTabs(trimmed) else trimmed
  }

  /** A tweet without links only loses its trailing new lines. */
  lemma FormatTweetPlain(text: string)
    requires NoBracket(text)
    ensures FormatTweet(text, false) == TrimNewlines(text)
  {
    RewritePlain('@', text, []);
    assert text + [] == text;
    RewritePlain('#', text, []);
  }

  lemma NoBracketConcat(a: string, b: string)
    requires NoBracket(a) && NoBracket(b)
    ensures NoBracket(a + b)
  {
    forall i | 0 <= i < |a + b|
      ensures (a + b)[i] != '['
    {
      if i >= |a| {
        assert (a + b)[i] == b[i - |a|];
      }
    }
  }

  /** An absolute link whose name and path hold no `[` holds no other `[` than its first character. */
  lemma LinkTail(marker: char, name: string, path: string)
    requires marker != '[' && NoBracket(name) && NoBracket(path)
    ensures var l := Link(marker, name, path);
      l[0] == '[' && l[1] == marker && NoBracket(l[1..])
  {
    var l := Link(marker, name, path);
    var mid := "](" + TwitterRoot;
    assert NoBracket(mid);
    NoBracketConcat([marker], name);
    NoBracketConcat([marker] + name, mid);
    NoBracketConcat([marker] + name + mid, path);
    NoBracketConcat([marker] + name + mid + path, ")");
    assert l[1..] == [marker] + name + mid + path + ")";
  }

  /** Such a link is left alone by the other marker's rewrite. */
  lemma RewriteLinkAgain(marker: char, other: char, name: string, path: string)
    requires marker != '~' && marker != '['
    requires NoBracket(name) && NoBracket(path)
    ensures Rewrite(other, Link(marker, name, path)) == Link(marker, name, path)
  {
    var l := Link(marker, name, path);
    LinkTail(marker, name, path);
    RewriteCopies(other, l);
    var tail := l[1..];
    assert tail + [] == tail;
    RewritePlain(other, tail, []);
    assert l == [l[0]] + tail;
  }

  /**
    A tweet that is one mention, whose name and path hold no `[`, becomes
    the absolute link to that profile.
  */
  lemma FormatTweetMention(name: string, path: string)
    requires IsName(name) && IsPath(path)
    requires NoBracket(name) && NoBracket(path)
    ensures FormatTweet(Markup('@', name, path), false) == Link('@', name, path)
  {
    var m := Markup('@', name, path);
    var l := Link('@', name, path);
    RewriteLink('@', name, path, []);
    assert m + [] == m;
    assert l + [] == l;
    RewriteLinkAgain('@', '#', name, path);
  }
}
