/** The commit scanner, `search_commits(repo_url, repo_path, pattern)`. It walks
    the commit history newest-first and reports every commit whose message the
    pattern finds something in. A report carries a checkout hint naming the
    commit just after it in that order, when there is one; on a linear history
    that is the parent, the state just before the change.

    The history is an input sequence and the compiled pattern an arbitrary
    predicate on messages; the printed blocks become Report values. */
module Scanner {

  import opened Wrappers
  import opened RepoName

  /** The fields of a commit that the scanner reads. */
  datatype Commit = Commit(hexsha: string, summary: string, message: string)

  /** The variable parts of the suggested shell command: the URL to clone from
      (single branch), the directory to clone into and enter, and the hash to
      check out there. */
  datatype Hint = Hint(url: string, dir: string, checkout: string)

  /** One printed block: the matching commit at `index` and the optional hint. */
  datatype Report = Report(index: nat, hexsha: string, summary: string, message: string, hint: Option<Hint>)

  /** The default pattern `#[0-9]+`, searched anywhere in the message: a '#'
      immediately followed by a decimal digit. */
  predicate IssueReference(message: string)
  {
    exists k :: 0 <= k < |message| - 1 && message[k] == '#' && '0' <= message[k + 1] <= '9'
  }

  /** The block printed for the matching commit at index `i`. */
  function ReportAt(url: string, dir: string, commits: seq<Commit>, i: nat): Report
    requires i < |commits|
  {
    var hint := if i + 1 < |commits| then Some(Hint(url, dir, commits[i + 1].hexsha)) else None;
    Report(i, commits[i].hexsha, commits[i].summary, commits[i].message, hint)
  }

  /** The reports for the first `n` commits, in the order they are printed. */
  function Reports(url: string, dir: string, commits: seq<Commit>, matches: string -> bool, n: nat): seq<Report>
    requires n <= |commits|
  {
    if n == 0 then []
    else
      Reports(url, dir, commits, matches, n - 1)
      + (if matches(commits[n - 1].message) then [ReportAt(url, dir, commits, n - 1)] else [])
  }

  /** The indices among the first `n` commits whose message matches. */
  function MatchingIndices(commits: seq<Commit>, matches: string -> bool, n: nat): set<nat>
    requires n <= |commits|
  {
    set i: nat | i < n && matches(commits[i].message)
  }

  /** The number of reports that carry a hint. */
  function HintCount(reports: seq<Report>): nat
  {
    if reports == [] then 0
    else HintCount(reports[..|reports| - 1]) + (if reports[|reports| - 1].hint.Some? then 1 else 0)
  }

  /** search_commits: the hint directory is `get_repo_name(url)`, and the
      scan below does the work. What the reports satisfy is proved about
      Reports below. */
  method SearchCommits(url: string, commits: seq<Commit>, matches: string -> bool)
    returns (reports: seq<Report>)
    ensures reports == Reports(url, GetRepoName(url), commits, matches, |commits|)
  {
    var name := GetRepoName(url);
    reports := Scan(url, name, commits, matches);
  }

  /** The loop of search_commits: one pass over the materialised history, in
      index order, appending a report for each matching commit, with a hint
      when a next commit exists. `dir` is the directory that get_repo_name
      derives from the URL; the script recomputes it for every hint, and as a
      pure function it is the same value each time. */
  method Scan(url: string, dir: string, commits: seq<Commit>, matches: string -> bool)
    returns (reports: seq<Report>)
    ensures reports == Reports(url, dir, commits, matches, |commits|)
  {
    reports := [];
    for i := 0 to |commits|
      invariant reports == Reports(url, dir, commits, matches, i)
    {
      var commit := commits[i];
      if matches(commit.message) {
        var hint := None;
        if i + 1 < |commits| {
          var previous := commits[i + 1];
          hint := Some(Hint(url, dir, previous.hexsha));
        }
        reports := reports + [Report(i, commit.hexsha, commit.summary, commit.message, hint)];
      } else {
        assert Reports(url, dir, commits, matches, i + 1) == reports + [];
      }
    }
  }

  /** Every report is the block for a matching commit among the first `n`:
      it copies that commit's fields, carries a hint exactly when a next commit
      exists, and the hint names the original URL, the derived directory and
      the next commit. */
  lemma {:induction false} ReportsSound(url: string, dir: string, commits: seq<Commit>, matches: string -> bool, n: nat)
    requires n <= |commits|
    ensures forall k :: 0 <= k < |Reports(url, dir, commits, matches, n)| ==>
              var r := Reports(url, dir, commits, matches, n)[k];
              r.index < n && matches(commits[r.index].message) && r == ReportAt(url, dir, commits, r.index)
  {
    if n > 0 {
      ReportsSound(url, dir, commits, matches, n - 1);
    }
  }

  /** Each report copies its commit's fields; it carries a hint exactly when a
      next commit exists, and the hint names the original URL, the directory
      derived from it and the next commit's hash. */
  lemma ReportsContents(url: string, dir: string, commits: seq<Commit>, matches: string -> bool)
    ensures forall r :: r in Reports(url, dir, commits, matches, |commits|) ==>
              && r.index < |commits|
              && r.hexsha == commits[r.index].hexsha
              && r.summary == commits[r.index].summary
              && r.message == commits[r.index].message
              && (r.hint.Some? <==> r.index + 1 < |commits|)
              && (r.hint.Some? ==> r.hint.value == Hint(url, dir, commits[r.index + 1].hexsha))
  {
    ReportsSound(url, dir, commits, matches, |commits|);
  }

  /** Reports come out in strictly increasing index order, so no index is
      reported twice. */
  lemma {:induction false} ReportsOrdered(url: string, dir: string, commits: seq<Commit>, matches: string -> bool, n: nat)
    requires n <= |commits|
    ensures forall j, k :: 0 <= j < k < |Reports(url, dir, commits, matches, n)| ==>
              Reports(url, dir, commits, matches, n)[j].index < Reports(url, dir, commits, matches, n)[k].index
  {
    if n > 0 {
      ReportsOrdered(url, dir, commits, matches, n - 1);
      ReportsSound(url, dir, commits, matches, n - 1);
    }
  }

  /** The indices that carry reports. */
  function ReportedIndices(reports: seq<Report>): set<nat>
  {
    set k | 0 <= k < |reports| :: reports[k].index
  }

  /** Exactly the matching indices among the first `n` are reported. */
  lemma {:induction false} ReportsComplete(url: string, dir: string, commits: seq<Commit>, matches: string -> bool, n: nat)
    requires n <= |commits|
    ensures ReportedIndices(Reports(url, dir, commits, matches, n)) == MatchingIndices(commits, matches, n)
  {
    if n > 0 {
      ReportsComplete(url, dir, commits, matches, n - 1);
      var prev := Reports(url, dir, commits, matches, n - 1);
      var rs := Reports(url, dir, commits, matches, n);
      if matches(commits[n - 1].message) {
        assert rs == prev + [ReportAt(url, dir, commits, n - 1)];
        assert ReportedIndices(rs) == ReportedIndices(prev) + {n - 1} by {
          forall x | x in ReportedIndices(rs) ensures x in ReportedIndices(prev) + {n - 1} {
            var k :| 0 <= k < |rs| && rs[k].index == x;
            if k < |prev| { assert rs[k] == prev[k]; }
          }
          forall x | x in ReportedIndices(prev) ensures x in ReportedIndices(rs) {
            var k :| 0 <= k < |prev| && prev[k].index == x;
            assert rs[k] == prev[k];
          }
          assert rs[|prev|].index == n - 1;
        }
        assert MatchingIndices(commits, matches, n) == MatchingIndices(commits, matches, n - 1) + {n - 1};
      } else {
        assert rs == prev;
        assert MatchingIndices(commits, matches, n) == MatchingIndices(commits, matches, n - 1);
      }
    }
  }

  /** There is one report per matching index. */
  lemma {:induction false} ReportsCount(url: string, dir: string, commits: seq<Commit>, matches: string -> bool, n: nat)
    requires n <= |commits|
    ensures |Reports(url, dir, commits, matches, n)| == |MatchingIndices(commits, matches, n)|
  {
    if n > 0 {
      ReportsCount(url, dir, commits, matches, n - 1);
      var before := MatchingIndices(commits, matches, n - 1);
      if matches(commits[n - 1].message) {
        assert n - 1 !in before;
        assert MatchingIndices(commits, matches, n) == before + {n - 1};
        assert |before + {n - 1}| == |before| + 1;
        assert Reports(url, dir, commits, matches, n) == Reports(url, dir, commits, matches, n - 1) + [ReportAt(url, dir, commits, n - 1)];
      } else {
        assert MatchingIndices(commits, matches, n) == before;
        assert Reports(url, dir, commits, matches, n) == Reports(url, dir, commits, matches, n - 1) + [];
      }
    }
  }

  /** With no matching message there is no report at all. */
  lemma {:induction false} NoMatchNoReports(url: string, dir: string, commits: seq<Commit>, matches: string -> bool)
    requires forall i :: 0 <= i < |commits| ==> !matches(commits[i].message)
    ensures Reports(url, dir, commits, matches, |commits|) == []
  {
    ReportsCount(url, dir, commits, matches, |commits|);
    assert MatchingIndices(commits, matches, |commits|) == {};
  }

  /** Counting hints over one more report. */
  lemma HintCountAppend(reports: seq<Report>, r: Report)
    ensures HintCount(reports + [r]) == HintCount(reports) + (if r.hint.Some? then 1 else 0)
  {
    assert (reports + [r])[..|reports|] == reports;
  }

  /** Before the last commit every report has a successor to name. */
  lemma {:induction false} HintsBeforeLast(url: string, dir: string, commits: seq<Commit>, matches: string -> bool, n: nat)
    requires n < |commits|
    ensures HintCount(Reports(url, dir, commits, matches, n)) == |Reports(url, dir, commits, matches, n)|
  {
    if n > 0 {
      HintsBeforeLast(url, dir, commits, matches, n - 1);
      var prev := Reports(url, dir, commits, matches, n - 1);
      if matches(commits[n - 1].message) {
        var r := ReportAt(url, dir, commits, n - 1);
        assert r.hint.Some?;
        assert Reports(url, dir, commits, matches, n) == prev + [r];
        HintCountAppend(prev, r);
      } else {
        assert Reports(url, dir, commits, matches, n) == prev + [];
        assert prev + [] == prev;
      }
    }
  }

  /** Hints are one fewer than reports when the last commit matches, and as
      many otherwise. */
  lemma HintCountTotal(url: string, dir: string, commits: seq<Commit>, matches: string -> bool)
    ensures var rs := Reports(url, dir, commits, matches, |commits|);
            var lastMatches := |commits| > 0 && matches(commits[|commits| - 1].message);
            HintCount(rs) + (if lastMatches then 1 else 0) == |rs|
  {
    var n := |commits|;
    if n > 0 {
      HintsBeforeLast(url, dir, commits, matches, n - 1);
      var prev := Reports(url, dir, commits, matches, n - 1);
      if matches(commits[n - 1].message) {
        var r := ReportAt(url, dir, commits, n - 1);
        assert r.hint == None;
        assert Reports(url, dir, commits, matches, n) == prev + [r];
        HintCountAppend(prev, r);
      } else {
        assert Reports(url, dir, commits, matches, n) == prev + [];
        assert prev + [] == prev;
      }
    }
  }

  /** A history whose first message holds an issue reference and whose two
      older messages hold no '#': under the default pattern only the newest
      commit is reported, and its hint names the hash of the next one. */
  lemma ScenarioOneMatch(url: string, dir: string, h1: string, h2: string, h3: string)
    ensures var commits := [Commit(h1, "fix #10", "fix #10"), Commit(h2, "refactor", "refactor"),
                            Commit(h3, "initial", "initial")];
            Reports(url, dir, commits, IssueReference, 3)
            == [Report(0, h1, "fix #10", "fix #10", Some(Hint(url, dir, h2)))]
  {
    var commits := [Commit(h1, "fix #10", "fix #10"), Commit(h2, "refactor", "refactor"),
                    Commit(h3, "initial", "initial")];
    FixMatches();
    NoHashNoMatch("refactor");
    NoHashNoMatch("initial");
    var first := Reports(url, dir, commits, IssueReference, 1);
    assert commits[0].message == "fix #10";
    assert IssueReference(commits[0].message);
    assert Reports(url, dir, commits, IssueReference, 0) == [];
    assert first == [] + [ReportAt(url, dir, commits, 0)];
    assert Reports(url, dir, commits, IssueReference, 2) == first + [];
    assert Reports(url, dir, commits, IssueReference, 3) == first + [] + [];
  }

  /** For example, when the oldest of two commits matches, its report has no
      hint. */
  lemma ScenarioLastMatches(url: string, dir: string, h1: string, h2: string)
    ensures var commits := [Commit(h1, "refactor", "refactor"), Commit(h2, "closes #7", "closes #7")];
            Reports(url, dir, commits, IssueReference, 2) == [Report(1, h2, "closes #7", "closes #7", None)]
  {
    var commits := [Commit(h1, "refactor", "refactor"), Commit(h2, "closes #7", "closes #7")];
    ClosesMatches();
    NoHashNoMatch("refactor");
    assert Reports(url, dir, commits, IssueReference, 1) == [];
    assert Reports(url, dir, commits, IssueReference, 2) == [] + [ReportAt(url, dir, commits, 1)];
  }

  /** In any history whose last message matches, the last report is for the
      last index and carries no hint. */
  lemma {:induction false} LastMatchHasNoHint(url: string, dir: string, commits: seq<Commit>, matches: string -> bool)
    requires |commits| > 0 && matches(commits[|commits| - 1].message)
    ensures var rs := Reports(url, dir, commits, matches, |commits|);
            rs != [] && rs[|rs| - 1].index == |commits| - 1 && rs[|rs| - 1].hint == None
  {
    var n := |commits|;
    var r := ReportAt(url, dir, commits, n - 1);
    assert Reports(url, dir, commits, matches, n) == Reports(url, dir, commits, matches, n - 1) + [r];
  }

  /** The default pattern is searched, not anchored: a '#' followed by a digit
      matches wherever it stands in the message. */
  lemma IssueReferenceAnywhere(before: string, digit: char, after: string)
    requires '0' <= digit <= '9'
    ensures IssueReference(before + ['#', digit] + after)
  {
    var m := before + ['#', digit] + after;
    assert m[|before|] == '#' && m[|before| + 1] == digit;
  }

  lemma FixMatches()
    ensures IssueReference("fix #10")
  {
    assert "fix #10"[4] == '#' && "fix #10"[5] == '1';
  }

  lemma ClosesMatches()
    ensures IssueReference("closes #7")
  {
    assert "closes #7"[7] == '#' && "closes #7"[8] == '7';
  }

  /** A message without '#' never matches the default pattern. */
  lemma NoHashNoMatch(message: string)
    requires '#' !in message
    ensures !IssueReference(message)
  {
  }
}
