# bug-finder, modelled in Dafny

bug-finder is a small command-line script. It clones a git repository into
`cloned_repos/<name>`, or reuses an existing non-empty directory there. It then
walks the commit history newest-first and reports every commit whose message
matches a regular expression. The default expression is `#[0-9]+`, an issue
reference. Each report can carry a suggested `git clone … && git checkout <hash>`
command. That hash belongs to the commit right after the match in history order.
On a linear history that commit is the parent, so it is the state just before
the change.

This project models the three pieces of logic in the script:

- `wrappers.dfy` (module `Wrappers`): the `Option` type.
- `repo_name.dfy` (module `RepoName`): `get_repo_name`. It takes the text after
  the last `/` and applies Python's `rstrip('.git')`.
- `fetcher.dfy` (module `Fetcher`): the clone-or-reuse decision of `clone_repo`
  and the path it returns. The filesystem query is an input of type `PathState`.
  The clone is a `CloneRequest` in the result.
- `scanner.dfy` (module `Scanner`): the loop of `search_commits`. It runs over a
  sequence of `Commit` records and a match predicate on messages. It returns
  the sequence of `Report` values that the script prints. `SearchCommits` is the
  loop, and `Reports` is the specification it is proved against. `ReportAt` is
  the block printed for one matching commit. `Reports` and the loop method
  `Scan` take the hint directory as a parameter. `SearchCommits` computes it
  once as `GetRepoName(url)` and passes it to `Scan`. The script recomputes it
  for every hint, but the function is pure, so every hint gets the same value.

The name is meant to lose a trailing `.git`, but the code uses
`str.rstrip`, which strips a trailing run of the characters `.`, `g`, `i` and
`t`. This model follows the code, so `"mygit"` gives `"my"` and `"digit.git"`
gives `"d"`. The lemmas `GetRepoNameStripsCharacters` and
`GetRepoNameStripsWholeRun` state this behaviour.

## Model

| member | source | states |
|---|---|---|
| RepoName.LastSegment | bug-finder.py:7 | `split('/')[-1]` is the longest suffix without `/`. If it is shorter than the input, a `/` precedes it |
| RepoName.RStrip | bug-finder.py:7 | `rstrip(chars)` returns a prefix of its input. That prefix does not end in a character of `chars`, and every removed character is in `chars` |
| RepoName.GetRepoName | bug-finder.py:6-7 | the name has no `/` and is a prefix of the last segment. It does not end in `.`, `g`, `i` or `t`, and only such characters were removed |
| RepoName.RStripUnique | bug-finder.py:7 | those three properties determine `rstrip`'s result uniquely |
| RepoName.GetRepoNameCharacterised | bug-finder.py:7 | any prefix of the last segment with those properties is the repository name |
| RepoName.LastSegmentOfSegment | bug-finder.py:7 | a string without `/` is its own last segment |
| RepoName.LastSegmentAfterSlash | bug-finder.py:7 | the last segment of `p + "/" + n` is `n` when `n` has no `/` |
| RepoName.GetRepoNameIdempotent | bug-finder.py:7 | applying `get_repo_name` to its own result changes nothing |
| RepoName.GetRepoNameStripsGitSuffix | bug-finder.py:7 | `.../bug-finder.git` gives `bug-finder` |
| RepoName.GetRepoNameStripsCharacters | bug-finder.py:7 | `mygit` gives `my`: stripping works by character set, not by exact suffix |
| RepoName.GetRepoNameStripsWholeRun | bug-finder.py:7 | `.../digit.git` gives `d`: the whole trailing run is removed |
| RepoName.GetRepoNameTrailingSlash | bug-finder.py:7 | for every prefix, a URL ending in `/` gives the empty name |
| Fetcher.CloneRepo | bug-finder.py:9-18 | it returns `cloned_repos/<name>` in every case. It clones, with the caller's URL, depth and bare flag into that path, exactly when the path is not a directory or is an empty directory |
| Fetcher.RepoPathLastComponent | bug-finder.py:10-11 | `RepoPath`, the `os.path.join('cloned_repos', name)` of line 11, starts with `cloned_repos/`, and its last component is the repository name |
| Fetcher.RepoPathSharedIffSameName | bug-finder.py:10-11 | `RepoPath` gives two URLs the same working copy if and only if they give the same name |
| Fetcher.ReuseNonEmptyDirectory | bug-finder.py:13-17 | given a non-empty directory at the path, a run clones nothing and returns the path any earlier run for that URL returned, whatever depth or mode it asks for. That a clone leaves the directory non-empty is assumed, not modelled |
| Fetcher.StaleCacheShared | bug-finder.py:10-17 | for any prefixes `a` and `b`, `a/tool.git` and `b/tool` share one directory, so once it is non-empty the second URL reuses the first one's clone |
| Scanner.SearchCommits | bug-finder.py:20-36 | the output is `Reports` over the whole history, with `get_repo_name(url)` as the hint directory. The lemmas below prove what those reports satisfy |
| Scanner.Scan | bug-finder.py:26-36 | the loop appends, in index order, exactly the blocks `Reports` describes for the given hint directory |
| Scanner.ReportsSound | bug-finder.py:26-35 | every element of `Reports` is for a matching commit among those scanned, and it is exactly `ReportAt` of that index, the block of lines 28-35 |
| Scanner.ReportsContents | bug-finder.py:28-35 | each report (`ReportAt`) copies its commit's hash, summary and message. It has a hint iff `index + 1 < len(commits)`, as on line 31, and that hint names the successor's hash, the original URL and the directory |
| Scanner.ReportsOrdered | bug-finder.py:25-27 | report indices strictly increase, so no commit is reported twice |
| Scanner.ReportsComplete | bug-finder.py:26-27 | the set of reported indices equals the set of indices whose message matches |
| Scanner.ReportsCount | bug-finder.py:26-28 | there are as many reports as matching commits |
| Scanner.NoMatchNoReports | bug-finder.py:26-27 | with no matching message, the report list is empty |
| Scanner.HintsBeforeLast | bug-finder.py:31-35 | every report before the last commit carries a hint |
| Scanner.HintCountTotal | bug-finder.py:26-35 | hints equal reports, minus one when the last commit matches |
| Scanner.ScenarioOneMatch | bug-finder.py:25-35 | for messages `fix #10`, `refactor`, `initial` under `#[0-9]+`, there is one report, for index 0. Its hint names the URL, the directory and the second commit's hash |
| Scanner.ScenarioLastMatches | bug-finder.py:31-35 | e.g. for messages `refactor`, `closes #7` under `#[0-9]+`, there is one report, for index 1, and it has no hint |
| Scanner.LastMatchHasNoHint | bug-finder.py:31-35 | in any history whose last message matches, the last report is for the last index and has no hint |
| Scanner.IssueReferenceAnywhere | bug-finder.py:27 | `search` with the default pattern `#[0-9]+` of line 41 (`IssueReference`) is unanchored: a `#` followed by a digit matches wherever it stands in the message |
| Scanner.NoHashNoMatch | bug-finder.py:41 | a message without `#` never matches the default pattern |

## Left out

- Cloning and opening repositories with GitPython (`Repo.clone_from`, `Repo(...)`, `iter_commits`): these are network and disk I/O. The history is an input sequence of commits. A clone is a returned `CloneRequest` and is assumed to succeed. The failures it can raise are not modelled.
- `os.path.isdir` and `os.listdir`: these are filesystem queries, modelled as the `PathState` input. `os.path.join` is modelled as concatenation with `/`. On POSIX this matches it, because the name never contains `/`. On Windows, `os.path.join` uses `\` as the separator, which the model does not capture.
- `re.compile` and `search`: this is the Python regex engine. The pattern is an arbitrary predicate on messages. The default `#[0-9]+` is written out as `IssueReference` for the example scenarios only. Compile errors for malformed patterns are not modelled.
- Console output: the printed text, the separator line, the "To checkout" line and the command string's exact formatting are not modelled. `Hint` keeps the command's three variable parts.
- Commit graph: the history is the sequence that `iter_commits` yields. The hint names the next element of that sequence, which is the parent of the match only on a linear history. After a merge it can be a commit from another branch. The model does not relate the sequence to the commit graph.
- `authored_datetime`: timestamps are not part of a `Commit`.
- The `repo_path` argument of `search_commits` is used only to open the repository, so the scan takes the commit sequence instead.
- `argparse` and the top-level calls (lines 38-45) are command-line plumbing.
