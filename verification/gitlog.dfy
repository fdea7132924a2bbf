/**
  Line handling of the collector: the repository list file (`load_repos`) and
  the `git log --format=%aN\t%aE` output (`get_author_email_pairs`,
  `get_commits_with_order`). The subprocess and file reads are not modelled:
  their text output is the input here.
 */
module GitLog {
  import opened Maybe
  import opened Text

  /** `text.strip().splitlines()`, for text whose line breaks are `\n`. */
  function Lines(text: string): (r: seq<string>)
    ensures forall i :: 0 <= i < |r| ==> '\n' !in r[i]
    ensures Join('\n', r) == Strip(text)
    ensures r == [] <==> Strip(text) == []
  {
    var t := Strip(text);
    if t == [] then []
    else
      JoinSplit(t, '\n');
      SplitPartsLackSep(t, '\n');
      Split(t, '\n')
  }

  /** A line `load_repos` keeps: not blank, and not starting with `#`. */
  predicate IsRepoLine(line: string)
  {
    Strip(line) != [] && !StartsWith(line, "#")
  }

  /** The filter of `load_repos`: the stripped kept lines, in order. */
  function KeepRepoLines(lines: seq<string>): (r: seq<string>)
    ensures |r| <= |lines|
  {
    if lines == [] then [] else Kept(lines[0]) + KeepRepoLines(lines[1..])
  }

  /** What the filter makes of one line. */
  function Kept(line: string): seq<string>
  {
    if IsRepoLine(line) then [Strip(line)] else []
  }

  /** The filter keeps order and repeats: filtering two blocks of lines is
      filtering each, one after the other. */
  lemma {:induction false} KeepRepoLinesConcat(a: seq<string>, b: seq<string>)
    ensures KeepRepoLines(a + b) == KeepRepoLines(a) + KeepRepoLines(b)
  {
    if a == [] {
      assert a + b == b;
    } else {
      assert (a + b)[0] == a[0] && (a + b)[1..] == a[1..] + b;
      assert KeepRepoLines(a + b) == Kept(a[0]) + KeepRepoLines(a[1..] + b);
      KeepRepoLinesConcat(a[1..], b);
    }
  }

  /** One line is listed, stripped, when it is kept, and gives nothing
      otherwise; with `KeepRepoLinesConcat` this fixes the whole list. */
  lemma KeepRepoLine(line: string)
    ensures KeepRepoLines([line]) == if IsRepoLine(line) then [Strip(line)] else []
  {
    assert [line][1..] == [];
    assert KeepRepoLines([line]) == Kept(line) + [];
  }

  /** Every listed entry comes from a kept line. */
  lemma {:induction false} KeptLineSource(lines: seq<string>, x: string) returns (l: string)
    requires x in KeepRepoLines(lines)
    ensures l in lines && IsRepoLine(l) && Strip(l) == x
  {
    var rest := KeepRepoLines(lines[1..]);
    if IsRepoLine(lines[0]) && x == Strip(lines[0]) {
      l := lines[0];
    } else {
      assert x in rest;
      l := KeptLineSource(lines[1..], x);
      var k :| 0 <= k < |lines| - 1 && lines[1..][k] == l;
      assert lines[k + 1] == l;
    }
  }

  /** Every kept line is listed. */
  lemma {:induction false} RepoLineKept(lines: seq<string>, l: string)
    requires l in lines && IsRepoLine(l)
    ensures Strip(l) in KeepRepoLines(lines)
  {
    if l != lines[0] {
      var k :| 0 <= k < |lines| && lines[k] == l;
      assert lines[1..][k - 1] == l;
      RepoLineKept(lines[1..], l);
    }
  }

  /** A string is listed exactly when it is the stripped form of a kept line. */
  lemma KeepRepoLinesMembers(lines: seq<string>, x: string)
    ensures x in KeepRepoLines(lines) <==> exists l :: l in lines && IsRepoLine(l) && Strip(l) == x
  {
    if x in KeepRepoLines(lines) {
      var l := KeptLineSource(lines, x);
    }
    if exists l :: l in lines && IsRepoLine(l) && Strip(l) == x {
      var l :| l in lines && IsRepoLine(l) && Strip(l) == x;
      RepoLineKept(lines, l);
    }
  }

  /** `load_repos` after the file read. */
  function RepoList(text: string): seq<string>
  {
    KeepRepoLines(Lines(text))
  }

  /** Every listed repository is a non-blank, stripped line of the file. */
  lemma RepoListClean(text: string)
    ensures forall x :: x in RepoList(text) ==> x != [] && Strip(x) == x
  {
    forall x | x in RepoList(text)
      ensures x != [] && Strip(x) == x
    {
      var l := KeptLineSource(Lines(text), x);
      StripIdempotent(l);
    }
  }

  /** One `git log` line: the author name and email either side of the first
      tab, the name stripped, the email lower-cased and stripped; no tab, no
      pair. */
  function ParseLogLine(line: string): (r: Option<(string, string)>)
    ensures r.Some? <==> '\t' in line
  {
    if '\t' !in line then None
    else
      var i := IndexOf(line, '\t');
      Some((Strip(line[..i]), Canon(line[i + 1..])))
  }

  /** A line is cut at its first tab: a name with no tab of its own comes
      back stripped, and everything after that tab, tabs included, is the
      email, lower-cased and stripped. */
  lemma ParseLogLineSplit(name: string, email: string)
    requires '\t' !in name
    ensures ParseLogLine(LogLine(name, email)) == Some((Strip(name), Canon(email)))
  {
    var line := LogLine(name, email);
    assert line[|name|] == '\t' && line[..|name|] == name;
    IndexOfFirst(line, '\t', |name|);
    assert line[|name| + 1..] == email;
  }

  /** The line `git log --format=%aN\t%aE` prints for one commit. */
  function LogLine(name: string, email: string): string
  {
    name + "\t" + email
  }

  /** A name and an email as the parser hands them out, and as `git log` can
      print them back unambiguously. */
  predicate WellFormedAuthor(name: string, email: string)
  {
    && name != [] && email != []
    && '\t' !in name && '\n' !in name
    && '\t' !in email && '\n' !in email
    && !IsSpace(name[0]) && !IsSpace(name[|name| - 1])
    && !IsSpace(email[0]) && !IsSpace(email[|email| - 1])
    && IsLowered(email)
  }

  /** Parsing a printed line gives the pair back. */
  lemma ParseLogLineRoundTrip(name: string, email: string)
    requires WellFormedAuthor(name, email)
    ensures ParseLogLine(LogLine(name, email)) == Some((name, email))
  {
    StripKeeps(name);
    LoweredFixed(email);
    StripKeeps(email);
    ParseLogLineSplit(name, email);
  }

  /** The parsing loop of `get_commits_with_order`: every line with a tab. */
  function ParseCommits(lines: seq<string>): (r: seq<(string, string)>)
    ensures |r| <= |lines|
  {
    if lines == [] then []
    else
      var rest := ParseCommits(lines[1..]);
      match ParseLogLine(lines[0])
      case None => rest
      case Some(p) => [p] + rest
  }

  /** The loop skips a line without a tab and goes on: parsing two blocks of
      lines is parsing each, one after the other. */
  lemma {:induction false} ParseCommitsConcat(a: seq<string>, b: seq<string>)
    ensures ParseCommits(a + b) == ParseCommits(a) + ParseCommits(b)
  {
    if a == [] {
      assert a + b == b;
    } else {
      assert (a + b)[0] == a[0] && (a + b)[1..] == a[1..] + b;
      ParseCommitsConcat(a[1..], b);
      match ParseLogLine(a[0])
      case None =>
      case Some(p) =>
        assert [p] + (ParseCommits(a[1..]) + ParseCommits(b)) == ([p] + ParseCommits(a[1..])) + ParseCommits(b);
    }
  }

  /** One line gives its pair when it has a tab, and nothing otherwise; with
      `ParseCommitsConcat` this fixes the whole list. */
  lemma ParseCommitsLine(line: string)
    ensures ParseCommits([line]) == if '\t' in line then [ParseLogLine(line).value] else []
  {
    assert [line][1..] == [];
  }

  /** The parsing loop of `get_author_email_pairs`: as above, but a pair
      whose name or email is empty is dropped. */
  function ParseAuthorPairs(lines: seq<string>): (r: seq<(string, string)>)
    ensures forall p :: p in r ==> p.0 != [] && p.1 != []
  {
    if lines == [] then []
    else
      var rest := ParseAuthorPairs(lines[1..]);
      match ParseLogLine(lines[0])
      case Some((name, email)) =>
        if name != [] && email != [] then [(name, email)] + rest else rest
      case None => rest
  }

  /** `get_commits_with_order` after the subprocess call. */
  function CommitsWithOrder(stdout: string): seq<(string, string)>
  {
    ParseCommits(Lines(stdout))
  }

  /** `get_author_email_pairs` after the subprocess call. */
  function AuthorEmailPairs(stdout: string): seq<(string, string)>
  {
    ParseAuthorPairs(Lines(stdout))
  }

  /** Keeps the pairs whose name and email are both non-empty. */
  function KeepNamed(ps: seq<(string, string)>): (r: seq<(string, string)>)
    ensures |r| <= |ps|
  {
    if ps == [] then []
    else (if ps[0].0 != [] && ps[0].1 != [] then [ps[0]] else []) + KeepNamed(ps[1..])
  }

  /** The two parsers agree: the author pairs are exactly the ordered commits
      with a non-empty name and email. */
  lemma {:induction false} AuthorPairsAreNamedCommits(lines: seq<string>)
    ensures ParseAuthorPairs(lines) == KeepNamed(ParseCommits(lines))
  {
    if lines != [] {
      AuthorPairsAreNamedCommits(lines[1..]);
      match ParseLogLine(lines[0])
      case None =>
      case Some(p) =>
        assert ([p] + ParseCommits(lines[1..]))[1..] == ParseCommits(lines[1..]);
    }
  }

  /** What `git log --format=%aN\t%aE` prints for a list of commits. */
  function LogText(pairs: seq<(string, string)>): string
  {
    Join('\n', LogLines(pairs))
  }

  function LogLines(pairs: seq<(string, string)>): (r: seq<string>)
    ensures |r| == |pairs|
  {
    if pairs == [] then [] else [LogLine(pairs[0].0, pairs[0].1)] + LogLines(pairs[1..])
  }

  /** Every pair is well formed (stated recursively, element by element). */
  predicate AllWellFormed(pairs: seq<(string, string)>)
  {
    pairs == [] || (WellFormedAuthor(pairs[0].0, pairs[0].1) && AllWellFormed(pairs[1..]))
  }

  /** Lines that each parse to a pair parse, together, to those pairs. */
  lemma {:induction false} ParseCommitsAll(lines: seq<string>, pairs: seq<(string, string)>)
    requires |lines| == |pairs|
    requires forall i :: 0 <= i < |lines| ==> ParseLogLine(lines[i]) == Some(pairs[i])
    ensures ParseCommits(lines) == pairs
  {
    if lines != [] {
      ParseCommitsAll(lines[1..], pairs[1..]);
      assert ParseLogLine(lines[0]) == Some(pairs[0]);
      assert pairs == [pairs[0]] + pairs[1..];
    }
  }

  lemma ParseLogLines(pairs: seq<(string, string)>)
    requires AllWellFormed(pairs)
    ensures ParseCommits(LogLines(pairs)) == pairs
  {
    var lines := LogLines(pairs);
    forall i | 0 <= i < |lines|
      ensures ParseLogLine(lines[i]) == Some(pairs[i])
    {
      WellFormedAt(pairs, i);
      ParseLogLineRoundTrip(pairs[i].0, pairs[i].1);
    }
    ParseCommitsAll(lines, pairs);
  }

  lemma {:induction false} WellFormedAt(pairs: seq<(string, string)>, i: nat)
    requires AllWellFormed(pairs) && i < |pairs|
    ensures WellFormedAuthor(pairs[i].0, pairs[i].1)
    ensures LogLines(pairs)[i] == LogLine(pairs[i].0, pairs[i].1)
  {
    if i > 0 {
      WellFormedAt(pairs[1..], i - 1);
      assert LogLines(pairs)[1..] == LogLines(pairs[1..]);
    }
  }

  /** The first character of a join is that of its first part. */
  lemma JoinFirst(sep: char, parts: seq<string>)
    requires |parts| >= 1 && parts[0] != []
    ensures Join(sep, parts) != [] && Join(sep, parts)[0] == parts[0][0]
  {
  }

  /** The last character of a join is that of its last part. */
  lemma {:induction false} JoinLast(sep: char, parts: seq<string>)
    requires |parts| >= 1 && parts[|parts| - 1] != []
    ensures var s := Join(sep, parts);
      s != [] && s[|s| - 1] == parts[|parts| - 1][|parts[|parts| - 1]| - 1]
  {
    if |parts| > 1 {
      JoinFront(sep, parts);
      JoinLast(sep, parts[1..]);
    }
  }

  /** A printed line starts with the name and ends with the email. */
  lemma LogLineEnds(name: string, email: string)
    requires name != [] && email != []
    ensures var line := LogLine(name, email);
      line != [] && line[0] == name[0] && line[|line| - 1] == email[|email| - 1]
  {
  }

  /** A printed log has no whitespace at either end to strip. */
  lemma LogTextUnstripped(pairs: seq<(string, string)>)
    requires AllWellFormed(pairs) && pairs != []
    ensures Strip(LogText(pairs)) == LogText(pairs)
  {
    var lines := LogLines(pairs);
    var last := |pairs| - 1;
    WellFormedAt(pairs, 0);
    WellFormedAt(pairs, last);
    LogLineEnds(pairs[0].0, pairs[0].1);
    LogLineEnds(pairs[last].0, pairs[last].1);
    JoinFirst('\n', lines);
    JoinLast('\n', lines);
    StripKeeps(LogText(pairs));
  }

  /** The lines of a printed log are the printed lines. */
  lemma LinesOfLogText(pairs: seq<(string, string)>)
    requires AllWellFormed(pairs)
    ensures Lines(LogText(pairs)) == LogLines(pairs)
  {
    var lines := LogLines(pairs);
    if pairs != [] {
      assert lines[0] != [] by {
        assert lines[0] == LogLine(pairs[0].0, pairs[0].1);
      }
      assert forall i :: 0 <= i < |lines| ==> '\n' !in lines[i] by {
        forall i | 0 <= i < |lines|
          ensures '\n' !in lines[i]
        {
          WellFormedAt(pairs, i);
        }
      }
      assert Strip(Join('\n', lines)) == Join('\n', lines) by {
        LogTextUnstripped(pairs);
      }
      LinesOfJoin(lines);
    } else {
      LinesOfEmpty();
    }
  }

  lemma LinesOfEmpty()
    ensures Lines([]) == []
  {
    assert Strip([]) == [];
  }

  /** Lines without line breaks, the first of them not empty, come back
      from their joined text unchanged when stripping leaves it alone. */
  lemma LinesOfJoin(lines: seq<string>)
    requires |lines| >= 1 && lines[0] != []
    requires forall i :: 0 <= i < |lines| ==> '\n' !in lines[i]
    requires Strip(Join('\n', lines)) == Join('\n', lines)
    ensures Lines(Join('\n', lines)) == lines
  {
    SplitJoin(lines, '\n');
    assert |Join('\n', lines)| >= |lines[0]|;
  }

  /** Parsing what `git log` printed gives back the commits, in order. */
  lemma CommitsRoundTrip(pairs: seq<(string, string)>)
    requires AllWellFormed(pairs)
    ensures CommitsWithOrder(LogText(pairs)) == pairs
  {
    LinesOfLogText(pairs);
    ParseLogLines(pairs);
  }
}
