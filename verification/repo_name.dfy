/** The repository name that bug-finder derives from a repository URL: the
    last '/'-separated segment, with Python's `rstrip` applied to it.

    `str.rstrip` takes a SET of characters, not a suffix: it removes the longest
    trailing run of characters drawn from {'.', 'g', 'i', 't'}. The model keeps
    that behaviour, so "repo.git" gives "repo" but "mygit" gives "my". */
module RepoName {

  /** The characters that `rstrip('.git')` removes from the end of a string. */
  const GitChars: set<char> := {'.', 'g', 'i', 't'}

  predicate IsSuffix(r: string, s: string)
  {
    |r| <= |s| && s[|s| - |r|..] == r
  }

  /** `s.split('/')[-1]`: the text after the last '/', or all of `s` when it has
      no '/'. The contract characterises it as the longest suffix of `s` that
      holds no '/'. */
  function LastSegment(s: string): (r: string)
    ensures '/' !in r
    ensures IsSuffix(r, s)
    ensures |r| < |s| ==> s[|s| - |r| - 1] == '/'
  {
    if s == [] || s[|s| - 1] == '/' then []
    else LastSegment(s[..|s| - 1]) + [s[|s| - 1]]
  }

  /** `s.rstrip(chars)`: drop characters of `chars` from the end of `s` until
      the last character is not one of them. */
  function RStrip(s: string, chars: set<char>): (r: string)
    ensures r <= s
    ensures r == [] || r[|r| - 1] !in chars
    ensures forall k :: |r| <= k < |s| ==> s[k] in chars
  {
    if s != [] && s[|s| - 1] in chars then RStrip(s[..|s| - 1], chars) else s
  }

  /** get_repo_name: the last path segment of `url` with its trailing run of
      '.', 'g', 'i' and 't' characters removed. */
  function GetRepoName(url: string): (name: string)
    ensures '/' !in name
    ensures name <= LastSegment(url)
    ensures name == [] || name[|name| - 1] !in GitChars
    ensures forall k :: |name| <= k < |LastSegment(url)| ==> LastSegment(url)[k] in GitChars
  {
    RStrip(LastSegment(url), GitChars)
  }

  /** The three properties in the contract of RStrip determine its result:
      any prefix of `s` that does not end in `chars` and is followed only by
      characters of `chars` is RStrip(s, chars). */
  lemma RStripUnique(s: string, chars: set<char>, p: string)
    requires p <= s
    requires p == [] || p[|p| - 1] !in chars
    requires forall k :: |p| <= k < |s| ==> s[k] in chars
    ensures RStrip(s, chars) == p
  {
    var r := RStrip(s, chars);
    assert |r| == |p|;
    assert r == s[..|r|];
  }

  /** The last segment of `prefix + "/" + name` is `name` when `name` holds no
      '/': the segment cannot reach back over the separator. */
  lemma {:induction false} LastSegmentAfterSlash(prefix: string, name: string)
    requires '/' !in name
    ensures LastSegment(prefix + "/" + name) == name
  {
    var s := prefix + "/" + name;
    if name != [] {
      var init := name[..|name| - 1];
      assert s[..|s| - 1] == prefix + "/" + init;
      assert name == init + [name[|name| - 1]];
      LastSegmentAfterSlash(prefix, init);
    }
  }

  /** A string without '/' is its own last segment. */
  lemma LastSegmentOfSegment(s: string)
    requires '/' !in s
    ensures LastSegment(s) == s
  {
    var r := LastSegment(s);
    assert |r| == |s|;
  }

  /** Deriving the name twice changes nothing: get_repo_name is idempotent. */
  lemma {:induction false} GetRepoNameIdempotent(url: string)
    ensures GetRepoName(GetRepoName(url)) == GetRepoName(url)
  {
    var name := GetRepoName(url);
    LastSegmentOfSegment(name);
    RStripUnique(name, GitChars, name);
  }

  /** The name is fixed by two facts: it is a prefix of the last segment that
      does not end in '.', 'g', 'i' or 't', and only such characters follow it. */
  lemma GetRepoNameCharacterised(url: string, name: string)
    requires name <= LastSegment(url)
    requires name == [] || name[|name| - 1] !in GitChars
    requires forall k :: |name| <= k < |LastSegment(url)| ==> LastSegment(url)[k] in GitChars
    ensures GetRepoName(url) == name
  {
    RStripUnique(LastSegment(url), GitChars, name);
  }

  /** An exact ".git" suffix is removed from the last segment of a URL. */
  lemma GetRepoNameStripsGitSuffix()
    ensures GetRepoName("https://github.com/tx99/bug-finder.git") == "bug-finder"
  {
    var url := "https://github.com/tx99/bug-finder.git";
    assert url == "https://github.com/tx99" + "/" + "bug-finder.git";
    LastSegmentAfterSlash("https://github.com/tx99", "bug-finder.git");
    GetRepoNameCharacterised(url, "bug-finder");
  }

  /** Stripping is by character set: "git" goes from "mygit" although no "."
      precedes it. */
  lemma GetRepoNameStripsCharacters()
    ensures GetRepoName("mygit") == "my"
  {
    LastSegmentOfSegment("mygit");
    GetRepoNameCharacterised("mygit", "my");
  }

  /** The whole trailing run goes, not one ".git": "digit.git" becomes "d". */
  lemma GetRepoNameStripsWholeRun()
    ensures GetRepoName("https://example.org/digit.git") == "d"
  {
    var url := "https://example.org/digit.git";
    assert url == "https://example.org" + "/" + "digit.git";
    LastSegmentAfterSlash("https://example.org", "digit.git");
    GetRepoNameCharacterised(url, "d");
  }

  /** A URL that ends in '/' has an empty last segment, hence an empty name. */
  lemma GetRepoNameTrailingSlash(prefix: string)
    ensures GetRepoName(prefix + "/") == ""
  {
    assert prefix + "/" == prefix + "/" + "";
    LastSegmentAfterSlash(prefix, "");
  }
}
