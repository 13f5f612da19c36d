/**
  The reading of the users file in the command-line tool: one user name
  per line, `//` starts a comment, and empty lines are skipped.
*/
module CliUsers {
  import opened Wrappers
  import opened Scan
  import opened CliFormat

  /** The lines one after the other. */
  function Join(lines: seq<string>): string {
    if lines == [] then [] else lines[0] + Join(lines[1..])
  }

  /** How far the first line of `content` runs before its new line, if it has one. */
  function LineLength(content: string): (n: nat)
    ensures n <= |content| && NoNewline(content[..n])
    ensures n < |content| ==> content[n] == '\n'
  {
    var n := RunLength(content, c => c != '\n');
    assert forall i | 0 <= i < n :: content[..n][i] == content[i];
    n
  }

  /**
    The lines Python's iteration over a text file gives: each ends with its
    new line, except a last line the file does not end.
  */
  function Lines(content: string): seq<string>
    decreases |content|
  {
    if content == [] then []
    else
      var n := LineLength(content);
      if n == |content| then [content]
      else [content[..n + 1]] + Lines(content[n + 1..])
  }

  lemma PrefixNoNewline(s: string, n: nat)
    requires n <= |s|
    ensures NoNewline(s[..n]) <==> forall i | 0 <= i < n :: s[i] != '\n'
  {
    assert forall i | 0 <= i < n :: s[..n][i] == s[i];
  }

  /** One step of `Lines`: a first line up to and including the first new line, when there is one. */
  lemma LinesStep(content: string, n: nat)
    requires n < |content| && content[n] == '\n' && NoNewline(content[..n])
    ensures Lines(content) == [content[..n + 1]] + Lines(content[n + 1..])
  {
    var m := LineLength(content);
    PrefixNoNewline(content, m);
    PrefixNoNewline(content, n);
  }

  lemma JoinCons(line: string, lines: seq<string>)
    ensures Join([line] + lines) == line + Join(lines)
  {
    assert ([line] + lines)[1..] == lines;
  }

  /** The lines, one after the other, make up the file. */
  lemma {:induction false} LinesJoin(content: string)
    ensures Join(Lines(content)) == content
    decreases |content|
  {
    if content != [] {
      var n := LineLength(content);
      if n < |content| {
        var line, rest := content[..n + 1], content[n + 1..];
        calc {
          Join(Lines(content));
          == { LinesStep(content, n); }
          Join([line] + Lines(rest));
          == { JoinCons(line, Lines(rest)); }
          line + Join(Lines(rest));
          == { LinesJoin(rest); }
          line + rest;
          == { assert content == line + rest; }
          content;
        }
      } else {
        calc {
          Join(Lines(content));
          == { assert Lines(content) == [content]; }
          Join([content]);
          == { JoinCons(content, []); assert [content] + [] == [content]; }
          content + [];
        }
      }
    }
  }

  /** Every line is non-empty and only the last may lack its new line, which ends every other. */
  predicate WellSplit(r: seq<string>) {
    && (forall i | 0 <= i < |r| :: r[i] != [] && NoNewline(r[i][..|r[i]| - 1]))
    && (forall i | 0 <= i < |r| - 1 :: r[i][|r[i]| - 1] == '\n')
  }

  lemma WellSplitCons(line: string, t: seq<string>)
    requires line != [] && line[|line| - 1] == '\n' && NoNewline(line[..|line| - 1]) && WellSplit(t)
    ensures WellSplit([line] + t)
  {
    var r := [line] + t;
    forall i | 0 < i < |r|
      ensures r[i] == t[i - 1]
    {
    }
  }

  /** The lines of a file are well split. */
  lemma {:induction false} LinesShape(content: string)
    ensures WellSplit(Lines(content))
    decreases |content|
  {
    if content != [] {
      var n := LineLength(content);
      if n < |content| {
        var line, rest := content[..n + 1], content[n + 1..];
        LinesStep(content, n);
        LinesShape(rest);
        assert line[..|line| - 1] == content[..n];
        WellSplitCons(line, Lines(rest));
      } else {
        assert Lines(content) == [content];
        assert content[..n] == content;
        PrefixNoNewline(content, n);
        PrefixNoNewline(content, n - 1);
      }
    }
  }



  predicate NoNewline(s: string) {
    forall i | 0 <= i < |s| :: s[i] != '\n'
  }

  /** Where the first `//` of `s` starts, if anywhere. */
  function CommentAt(s: string): (r: Option<nat>)
    ensures r.Some? ==> r.value + 1 < |s| && s[r.value] == '/' && s[r.value + 1] == '/'
    ensures forall i | 0 <= i < |s| - 1 && (r.None? || i < r.value) :: !(s[i] == '/' && s[i + 1] == '/')
  {
    if |s| < 2 then None
    else if s[0] == '/' && s[1] == '/' then Some(0)
    else match CommentAt(s[1..])
      case None => None
      case Some(k) => Some(k + 1)
  }

  predicate IsBlank(c: char) {
    c == ' ' || c == '\t'
  }

  /** `s` without its trailing spaces and tabs. */
  function DropBlanks(s: string): (r: string)
    ensures r <= s && (r == [] || !IsBlank(r[|r| - 1]))
    ensures forall i | |r| <= i < |s| :: IsBlank(s[i])
  {
    if s != [] && IsBlank(s[|s| - 1]) then DropBlanks(s[..|s| - 1]) else s
  }

  /**
    The substitution that deletes blanks, `//` and the rest of the line, on
    a line without new lines.  The leftmost match starts at the blanks before the first `//` (no earlier
    start can reach a `//` over blanks alone), and `.*$` then takes the
    rest of the line.
  */
  function StripComment(line: string): (r: string)
    ensures r <= line
    ensures CommentAt(r).None?
    ensures CommentAt(line).None? ==> r == line
    ensures CommentAt(line).Some? ==>
              var q := CommentAt(line).value;
              && r <= line[..q]
              && (forall i | |r| <= i < q :: IsBlank(line[i]))
              && (r == [] || !IsBlank(r[|r| - 1]))
  {
    match CommentAt(line)
    case None => line
    case Some(q) =>
      var r := DropBlanks(line[..q]);
      CommentFreePrefix(line, q, r);
      r
  }

  lemma CommentFreePrefix(s: string, q: nat, p: string)
    requires p <= s && |p| <= q
    requires forall i | 0 <= i < |s| - 1 && i < q :: !(s[i] == '/' && s[i + 1] == '/')
    ensures CommentAt(p).None?
  {
  }

  /** The line as the loop keeps it: without its new line and its comment. */
  function CleanLine(line: string): string {
    StripComment(TrimNewlines(line))
  }

  /** The kept lines, in file order: those whose clean form is not empty. */
  function Keep(lines: seq<string>): (users: seq<string>)
    ensures forall i | 0 <= i < |users| :: users[i] != [] && CommentAt(users[i]).None?
    ensures |users| <= |lines|
  {
    if lines == [] then []
    else
      var rest := Keep(lines[..|lines| - 1]);
      var line := CleanLine(lines[|lines| - 1]);
      if line != [] then rest + [line] else rest
  }

  /** The user names the users file holds. */
  function ParseUsers(content: string): seq<string> {
    Keep(Lines(content))
  }

  /** The loop over the lines of the users file, appending each kept name to `users`. */
  method LoadUsers(content: string) returns (users: seq<string>)
    ensures users == ParseUsers(content)
    ensures forall i | 0 <= i < |users| :: users[i] != [] && CommentAt(users[i]).None?
  {
    var lines := Lines(content);
    users := [];
    var k := 0;
    while k < |lines|
      invariant 0 <= k <= |lines|
      invariant users == Keep(lines[..k])
    {
      assert lines[..k + 1][..k] == lines[..k];
      var line := TrimNewlines(lines[k]);
      line := StripComment(line);
      if line != [] {
        users := users + [line];
      }
      k := k + 1;
    }
    assert lines[..k] == lines;
  }

  /** A name that the users file can hold on its own line. */
  predicate IsName(s: string) {
    s != [] && NoNewline(s) && CommentAt(s).None?
  }

  /** The users file that lists `names`, one per line. */
  function UsersFile(names: seq<string>): string {
    if names == [] then [] else names[0] + "\n" + UsersFile(names[1..])
  }

  lemma LinesCons(name: string, rest: string)
    requires NoNewline(name)
    ensures Lines(name + "\n" + rest) == [name + "\n"] + Lines(rest)
  {
    var content := name + "\n" + rest;
    assert content[..|name|] == name;
    LinesStep(content, |name|);
    assert content[..|name| + 1] == name + "\n";
    assert content[|name| + 1..] == rest;
  }

  lemma CleanName(name: string)
    requires IsName(name)
    ensures CleanLine(name + "\n") == name
  {
    assert (name + "\n")[..|name + "\n"| - 1] == name;
    assert TrimNewlines(name + "\n") == TrimNewlines(name);
    assert TrimNewlines(name) == name;
  }

  /** What the loop appends for one line: its clean form, unless that is empty. */
  function Kept(line: string): seq<string> {
    if CleanLine(line) != [] then [CleanLine(line)] else []
  }

  lemma {:induction false} KeepAppend(lines: seq<string>, line: string)
    ensures Keep(lines + [line]) == Keep(lines) + Kept(line)
  {
    assert (lines + [line])[..|lines|] == lines;
  }

  lemma {:induction false} KeepPrepend(line: string, lines: seq<string>)
    ensures Keep([line] + lines) == Kept(line) + Keep(lines)
    decreases |lines|, 1
  {
    if lines == [] {
      assert [line] + lines == [] + [line];
      KeepAppend([], line);
    } else {
      KeepPrependStep(line, lines);
    }
  }

  lemma {:induction false} KeepPrependStep(line: string, lines: seq<string>)
    requires lines != []
    ensures Keep([line] + lines) == Kept(line) + Keep(lines)
    decreases |lines|, 0
  {
    var init, last := lines[..|lines| - 1], lines[|lines| - 1];
    calc {
      Keep([line] + lines);
      == { assert [line] + lines == ([line] + init) + [last]; }
      Keep(([line] + init) + [last]);
      == { KeepAppend([line] + init, last); }
      Keep([line] + init) + Kept(last);
      == { KeepPrepend(line, init); }
      (Kept(line) + Keep(init)) + Kept(last);
      == { KeepAppend(init, last); assert lines == init + [last]; }
      Kept(line) + Keep(lines);
    }
  }

  /** A file written one name per line reads back as those names, in order. */
  lemma {:induction false} ParseUsersFile(names: seq<string>)
    requires forall i | 0 <= i < |names| :: IsName(names[i])
    ensures ParseUsers(UsersFile(names)) == names
  {
    if names != [] {
      var rest := UsersFile(names[1..]);
      LinesCons(names[0], rest);
      KeepPrepend(names[0] + "\n", Lines(rest));
      CleanName(names[0]);
      ParseUsersFile(names[1..]);
    }
  }

  /** A comment after a name, with the blanks before it, is dropped. */
  lemma CommentedName(name: string, blanks: string, comment: string)
    requires IsName(name) && !IsBlank(name[|name| - 1]) && name[|name| - 1] != '/'
    requires forall i | 0 <= i < |blanks| :: IsBlank(blanks[i])
    requires NoNewline(comment)
    ensures CleanLine(name + blanks + "//" + comment + "\n") == name
  {
    var line := name + blanks + "//" + comment;
    assert (line + "\n")[..|line + "\n"| - 1] == line;
    assert TrimNewlines(line + "\n") == TrimNewlines(line);
    assert line[|line| - 1] != '\n' by {
      if comment == [] {
        assert line[|line| - 1] == '/';
      } else {
        assert line[|line| - 1] == comment[|comment| - 1];
      }
    }
    var q := |name| + |blanks|;
    forall i | 0 <= i < q
      ensures !(line[i] == '/' && line[i + 1] == '/')
    {
      if i < |name| - 1 {
        assert line[i] == name[i] && line[i + 1] == name[i + 1];
      } else if i == |name| - 1 {
        assert line[i] == name[i];
      } else {
        assert line[i] == blanks[i - |name|];
      }
    }
    CommentAtIs(line, q);
    assert line[..q] == name + blanks;
    DropBlanksOf(name, blanks);
  }

  lemma {:induction false} CommentAtIs(s: string, q: nat)
    requires q + 1 < |s| && s[q] == '/' && s[q + 1] == '/'
    requires forall i | 0 <= i < q :: !(s[i] == '/' && s[i + 1] == '/')
    ensures CommentAt(s) == Some(q)
    decreases q
  {
    if q > 0 {
      var t := s[1..];
      forall i | 0 <= i < q - 1
        ensures !(t[i] == '/' && t[i + 1] == '/')
      {
        assert t[i] == s[i + 1] && t[i + 1] == s[i + 2];
      }
      CommentAtIs(t, q - 1);
    }
  }

  lemma {:induction false} DropBlanksOf(name: string, blanks: string)
    requires name != [] && !IsBlank(name[|name| - 1])
    requires forall i | 0 <= i < |blanks| :: IsBlank(blanks[i])
    ensures DropBlanks(name + blanks) == name
    decreases |blanks|
  {
    if blanks == [] {
      assert name + blanks == name;
    } else {
      var n := |blanks| - 1;
      assert (name + blanks)[..|name + blanks| - 1] == name + blanks[..n];
      DropBlanksOf(name, blanks[..n]);
    }
  }
}
