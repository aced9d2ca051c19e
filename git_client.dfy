/**
 * The computational parts of the Git back end: the default branch, the
 * credential embedding into the remote URL, the choice of revision range,
 * and the conversion of the (at most 1000) iterated commits.
 * Cloning, pulling and listing remote refs are the oracle `history`.
 */
module GitClient {
  import opened Outcomes
  import opened Text
  import opened VcsBase
  import opened Seqs

  /** `iter_commits(..., max_count=1000)`. */
  const MaxCommits: nat := 1000

  /** One commit as the Git library yields it. */
  datatype GitLogEntry = GitLogEntry(
    hexsha: string,
    authorName: string,
    authorEmail: string,
    committedDate: Timestamp,
    message: string,
    paths: seq<string>)

  /** `branch or 'main'`. */
  function DefaultBranch(branch: string): (r: string)
    ensures r != ""
    ensures branch != "" ==> r == branch
    ensures branch == "" ==> r == "main"
  {
    if branch != "" then branch else "main"
  }

  /**
   * `_get_auth_url`: a token is embedded for github.com (as `https://TOKEN@`)
   * and gitlab.com (as `https://oauth2:TOKEN@`); otherwise a username and
   * password, both non-empty, are embedded as `https://USER:PASSWORD@`;
   * otherwise the URL is returned as it is.
   */
  function AuthUrl(url: string, token: string, username: string, password: string): string {
    if token != "" && Contains(url, "github.com") then ReplaceAll(url, "https://", "https://" + token + "@")
    else if token != "" && Contains(url, "gitlab.com") then ReplaceAll(url, "https://", "https://oauth2:" + token + "@")
    else if username != "" && password != "" then ReplaceAll(url, "https://", "https://" + username + ":" + password + "@")
    else url
  }

  /** A URL without `https://` (an SSH or file URL) never gets credentials. */
  lemma AuthUrlWithoutHttps(url: string, token: string, username: string, password: string)
    requires !Contains(url, "https://")
    ensures AuthUrl(url, token, username, password) == url
  {
    ReplaceAbsent(url, "https://", "https://" + token + "@");
    ReplaceAbsent(url, "https://", "https://oauth2:" + token + "@");
    ReplaceAbsent(url, "https://", "https://" + username + ":" + password + "@");
  }

  /** A GitHub token goes in front of the host. */
  lemma AuthUrlGithubToken(rest: string, token: string, username: string, password: string)
    requires token != "" && Contains("https://" + rest, "github.com") && !Contains(rest, "https://")
    ensures AuthUrl("https://" + rest, token, username, password) == "https://" + token + "@" + rest
  {
    ReplaceLeading("https://", rest, "https://" + token + "@");
  }

  /** A GitLab token goes in front of the host as the password of the user `oauth2`. */
  lemma AuthUrlGitlabToken(rest: string, token: string, username: string, password: string)
    requires token != "" && !Contains("https://" + rest, "github.com") && Contains("https://" + rest, "gitlab.com")
    requires !Contains(rest, "https://")
    ensures AuthUrl("https://" + rest, token, username, password) == "https://oauth2:" + token + "@" + rest
  {
    ReplaceLeading("https://", rest, "https://oauth2:" + token + "@");
  }

  /** For any other host the token is ignored: the URL is the one built without it. */
  lemma AuthUrlTokenIgnoredElsewhere(url: string, token: string, username: string, password: string)
    requires !Contains(url, "github.com") && !Contains(url, "gitlab.com")
    ensures AuthUrl(url, token, username, password) == AuthUrl(url, "", username, password)
  {
  }

  /** Username and password, both non-empty, are embedded when no token applies. */
  lemma AuthUrlUserPassword(rest: string, token: string, username: string, password: string)
    requires token == "" || (!Contains("https://" + rest, "github.com") && !Contains("https://" + rest, "gitlab.com"))
    requires username != "" && password != "" && !Contains(rest, "https://")
    ensures AuthUrl("https://" + rest, token, username, password) == "https://" + username + ":" + password + "@" + rest
  {
    ReplaceLeading("https://", rest, "https://" + username + ":" + password + "@");
  }

  /** With no applicable token and a missing username or password the URL is unchanged. */
  lemma AuthUrlNoCredentials(url: string, token: string, username: string, password: string)
    requires token == "" || (!Contains(url, "github.com") && !Contains(url, "gitlab.com"))
    requires username == "" || password == ""
    ensures AuthUrl(url, token, username, password) == url
  {
  }

  /**
   * The revision range handed to `iter_commits`: `start..end` when both are
   * given, `end` alone, the branch limited by `--since` (the day is the
   * already formatted `%Y-%m-%d` text), or the branch.
   */
  function SelectRange(branch: string, start: Option<string>, end: Option<string>, sinceDay: Option<string>): string {
    if Truthy(start) && Truthy(end) then start.value + ".." + end.value
    else if Truthy(end) then end.value
    else if sinceDay.Some? then branch + " --since='" + sinceDay.value + "'"
    else branch
  }

  /** One iterated commit as a VCS-neutral record, its author normalised and its message stripped. */
  function FromGitCommit(c: GitLogEntry): (r: VcsCommit)
    ensures r.revision == c.hexsha && r.authorEmail == c.authorEmail && r.timestamp == c.committedDate
    ensures r.author != "" && r.filesChanged == c.paths
  {
    NewVcsCommit(c.hexsha, NormalizeAuthor(c.authorName, c.authorEmail), c.authorEmail, Some(c.committedDate),
                 Strip(c.message), Some(c.paths), c.committedDate)
  }

  function Min(a: nat, b: nat): nat {
    if a <= b then a else b
  }

  /** The records `get_commits` builds from what the library yields for a range, capped at MaxCommits. */
  function Converted(log: seq<GitLogEntry>): seq<VcsCommit> {
    MapPrefix(FromGitCommit, log, Min(|log|, MaxCommits))
  }

  /** Fetching one range: a GitCommandError gives no commits, any other exception propagates. */
  function FetchRange(range: string, history: string -> Result<seq<GitLogEntry>>): Result<seq<VcsCommit>> {
    match history(range)
    case Ok(log) => Ok(Converted(log))
    case Err(e) => if e == GitCommandError then Ok([]) else Err(e)
  }

  /** `get_commits` as a function of its arguments and the repository history. */
  function Fetch(branch: string, start: Option<string>, end: Option<string>, sinceDay: Option<string>,
                 history: string -> Result<seq<GitLogEntry>>): Result<seq<VcsCommit>> {
    FetchRange(SelectRange(branch, start, end, sinceDay), history)
  }

  /**
   * `get_commits`: select the range, then append one record per iterated
   * commit, in iteration order; the library stops after MaxCommits.
   */
  method GetCommits(branch: string, start: Option<string>, end: Option<string>, sinceDay: Option<string>,
                    history: string -> Result<seq<GitLogEntry>>) returns (r: Result<seq<VcsCommit>>)
    ensures r == Fetch(branch, start, end, sinceDay, history)
  {
    var range := SelectRange(branch, start, end, sinceDay);
    match history(range)
    case Err(e) =>
      if e == GitCommandError {
        r := Ok([]);
      } else {
        r := Err(e);
      }
    case Ok(log) =>
      // the library stops yielding after MaxCommits commits
      var yielded := Min(|log|, MaxCommits);
      var commits: seq<VcsCommit> := [];
      var i := 0;
      while i < yielded
        invariant 0 <= i <= yielded
        invariant commits == MapPrefix(FromGitCommit, log, i)
      {
        commits := commits + [FromGitCommit(log[i])];
        i := i + 1;
      }
      r := Ok(commits);
  }

  /**
   * What one fetch returns: nothing after a GitCommandError, the exception
   * itself for any other failure, and otherwise one record per iterated
   * commit, in iteration order, at most MaxCommits of them.
   */
  lemma FetchRangeResult(range: string, history: string -> Result<seq<GitLogEntry>>)
    ensures var h, r := history(range), FetchRange(range, history);
            && (h.Err? && h.error == GitCommandError ==> r == Ok([]))
            && (h.Err? && h.error != GitCommandError ==> r == Err(h.error))
            && (h.Ok? ==> r.Ok? && |r.value| == Min(|h.value|, MaxCommits) <= MaxCommits
                          && forall k :: 0 <= k < |r.value| ==> r.value[k] == FromGitCommit(h.value[k]))
  {
    match history(range)
    case Ok(log) =>
      var n := Min(|log|, MaxCommits);
      forall k | 0 <= k < n ensures Converted(log)[k] == FromGitCommit(log[k]) {
        MapPrefixAt(FromGitCommit, log, n, k);
      }
    case Err(_) =>
  }

  /** The back end's `get_commits` as `get_new_commits` calls it (never with a date). */
  function Fetcher(branch: string, history: string -> Result<seq<GitLogEntry>>): (Option<string>, Option<string>) -> Result<seq<VcsCommit>> {
    (s: Option<string>, e: Option<string>) => Fetch(branch, s, e, None, history)
  }

  /** Without a watermark, the first sync reads the history ending at the latest commit. */
  lemma FirstSyncReadsUpToLatest(branch: string, latest: string, history: string -> Result<seq<GitLogEntry>>)
    requires latest != ""
    ensures GetNewCommits(None, Ok(latest), Fetcher(branch, history)) == OrEmpty(FetchRange(latest, history))
  {
  }

  /** With a watermark behind the latest commit, the graph range `watermark..latest` is read. */
  lemma LaterSyncReadsGraphRange(branch: string, watermark: string, latest: string,
                                 history: string -> Result<seq<GitLogEntry>>)
    requires watermark != "" && latest != "" && watermark != latest
    ensures GetNewCommits(Some(watermark), Ok(latest), Fetcher(branch, history))
            == OrEmpty(FetchRange(watermark + ".." + latest, history))
  {
  }

  /** A watermark equal to the latest commit means nothing new, whatever the history holds. */
  lemma UpToDateReadsNothing(branch: string, latest: string, history: string -> Result<seq<GitLogEntry>>)
    requires latest != ""
    ensures GetNewCommits(Some(latest), Ok(latest), Fetcher(branch, history)) == []
  {
  }

  /** However many commits the branch has, one Git sync returns at most MaxCommits of them. */
  lemma NewCommitsCapped(branch: string, last: Option<string>, latest: Result<string>,
                         history: string -> Result<seq<GitLogEntry>>)
    ensures |GetNewCommits(last, latest, Fetcher(branch, history))| <= MaxCommits
  {
    var f := Fetcher(branch, history);
    forall s: Option<string>, e: Option<string> ensures |OrEmpty(f(s, e))| <= MaxCommits {
      FetchRangeResult(SelectRange(branch, s, e, None), history);
    }
  }
}
