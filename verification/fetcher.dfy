/** The repository fetcher, `clone_repo(repo_url, depth, bare)`: it places the
    working copy at `cloned_repos/<name>` and clones into that path unless a
    non-empty directory is already there. The filesystem query is an input and
    the clone a request in the result; the same path is returned either way. */
module Fetcher {

  import opened Wrappers
  import opened RepoName

  /** The fixed working root, relative to the current directory. */
  const WorkingRoot: string := "cloned_repos"

  /** What the filesystem holds at the target path. `os.listdir` is only
      consulted for a directory, so a listing exists only in that case. */
  datatype PathState = NotADirectory | Directory(entries: set<string>)

  /** The shallow clone that `Repo.clone_from` is asked to perform. */
  datatype CloneRequest = CloneRequest(url: string, into: string, depth: int, bare: bool)

  /** The outcome of `clone_repo`: the path it returns, and the clone it
      performs first, if any. */
  datatype Fetch = Fetch(path: string, clone: Option<CloneRequest>)

  /** `os.path.join('cloned_repos', name)` on POSIX. The name holds no '/', so
      joining is plain concatenation with one '/' separator. */
  function RepoPath(url: string): string
  {
    WorkingRoot + "/" + GetRepoName(url)
  }

  /** clone_repo: clone exactly when the path is not a directory or is an
      empty one; otherwise reuse it without checking what it holds. */
  function CloneRepo(url: string, depth: int, bare: bool, state: PathState): (f: Fetch)
    ensures f.path == RepoPath(url)
    ensures f.clone.Some? <==> (state.NotADirectory? || state.entries == {})
    ensures f.clone.Some? ==> f.clone.value == CloneRequest(url, f.path, depth, bare)
  {
    var path := RepoPath(url);
    if state.NotADirectory? || state.entries == {} then
      Fetch(path, Some(CloneRequest(url, path, depth, bare)))
    else
      Fetch(path, None)
  }

  /** The returned path is one level below the working root, and its last
      component is the repository name. */
  lemma RepoPathLastComponent(url: string)
    ensures RepoPath(url)[..|WorkingRoot| + 1] == WorkingRoot + "/"
    ensures LastSegment(RepoPath(url)) == GetRepoName(url)
  {
    LastSegmentAfterSlash(WorkingRoot, GetRepoName(url));
  }

  /** Two URLs share a working copy exactly when they give the same name. */
  lemma RepoPathSharedIffSameName(u: string, v: string)
    ensures RepoPath(u) == RepoPath(v) <==> GetRepoName(u) == GetRepoName(v)
  {
    if RepoPath(u) == RepoPath(v) {
      RepoPathLastComponent(u);
      RepoPathLastComponent(v);
    }
  }

  /** A non-empty directory at the path is reused: whatever depth or mode a
      run asks for, it clones nothing and returns the path that any earlier run
      for the same URL returned. That a successful clone leaves the directory
      non-empty is assumed; the clone's effect on the filesystem is not
      modelled. */
  lemma ReuseNonEmptyDirectory(url: string, depth: int, bare: bool, entries: set<string>,
                               earlierDepth: int, earlierBare: bool, earlierState: PathState)
    requires entries != {}
    ensures CloneRepo(url, depth, bare, Directory(entries))
         == Fetch(CloneRepo(url, earlierDepth, earlierBare, earlierState).path, None)
  {
  }

  /** The cached copy is keyed by name only: `<a>/tool.git` and `<b>/tool`,
      whatever hosts and owners `a` and `b` name, map to one directory, so once
      it is non-empty the second URL reuses the first one's clone. */
  lemma StaleCacheShared(a: string, b: string, entries: set<string>)
    requires entries != {}
    ensures var first := CloneRepo(a + "/" + "tool.git", 100, false, NotADirectory);
            var second := CloneRepo(b + "/" + "tool", 100, false, Directory(entries));
            first.clone.Some? && second.clone == None && second.path == first.path
  {
    LastSegmentAfterSlash(a, "tool.git");
    LastSegmentAfterSlash(b, "tool");
    GetRepoNameCharacterised(a + "/" + "tool.git", "tool");
    GetRepoNameCharacterised(b + "/" + "tool", "tool");
  }
}
