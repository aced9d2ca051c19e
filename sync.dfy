/**
 * The synchronisation driver: the Repository and its `update`, which asks
 * the repository's VCS back end for new commits and stores them, and
 * `UpdateRepositories`, which updates every repository in turn. The
 * database is one object holding the author and commit-log tables.
 */
module Sync {
  import opened Outcomes
  import opened Text
  import opened Orm
  import opened VcsBase
  import opened Authors
  import opened CommitLogs
  import GitClient
  import SvnClient

  /**
   * What the outside world answers during one repository's update: whether
   * the client library is installed, the outcome of `git ls-remote` on a
   * URL, the Subversion head and log, and the Git head after clone and pull
   * and the history for a revision range.
   */
  datatype Remote = Remote(
    libraryAvailable: bool,
    lsRemote: string -> bool,
    svnHead: Result<int>,
    svnLog: (int, int) -> Result<seq<SvnClient.SvnLogEntry>>,
    gitHead: Result<string>,
    gitHistory: string -> Result<seq<GitClient.GitLogEntry>>)

  /** A repository's configuration columns, which synchronisation only reads. */
  datatype RepoConfig = RepoConfig(
    id: nat, name: string, url: string, kind: VcsKind, branch: string,
    username: string, password: string, sshKeyPath: string, accessToken: string,
    sourceview: Option<string>)

  /** `client.test_connection()`: Subversion asks for the head, Git runs `ls-remote` on the credentialed URL. */
  predicate ConnectionOk(cfg: RepoConfig, remote: Remote) {
    if cfg.kind.Svn? then remote.svnHead.Ok?
    else remote.lsRemote(GitClient.AuthUrl(cfg.url, cfg.accessToken, cfg.username, cfg.password))
  }

  /**
   * The first revision `update` asks a Subversion server for: one after the
   * watermark (`int(last or '0') + 1`), and never below 1. Raises ValueError
   * for a watermark that is not a number.
   */
  function SvnStart(last: Option<string>): (r: Result<int>)
    ensures r.Ok? ==> r.value >= 1
  {
    match ParseInt(if Truthy(last) then last.value else "0")
    case Ok(l) => Ok(if l + 1 >= 1 then l + 1 else 1)
    case Err(e) => Err(e)
  }

  /**
   * The commits `update` fetches, or None when it returns False before
   * storing anything: an unknown VCS type or a missing library, a failed
   * connection test, a failing Subversion head or a watermark that is not a
   * number. Subversion reads from one after the watermark to the head;
   * Git goes through `get_new_commits`.
   */
  function Fetched(cfg: RepoConfig, last: Option<string>, remote: Remote, now: Timestamp): Option<seq<VcsCommit>> {
    if cfg.kind.Other? || !remote.libraryAvailable || !ConnectionOk(cfg, remote) then None
    else if cfg.kind.Svn? then
      match remote.svnHead
      case Err(_) => None
      case Ok(h) =>
        match SvnStart(last)
        case Err(_) => None
        case Ok(start) =>
          if start <= h then
            Some(SvnClient.Fetch(Some(IntToString(start)), Some(IntToString(h)), remote.svnHead, remote.svnLog, now))
          else Some([])
    else
      Some(GetNewCommits(last, remote.gitHead,
                         GitClient.Fetcher(GitClient.DefaultBranch(cfg.branch), remote.gitHistory)))
  }

  /** The result of one repository's `update`: its return value, the count it logs, and the tables. */
  datatype UpdateResult = UpdateResult(ok: bool, newCommits: nat, tables: Tables)

  /** `Repository.update` as a function of the configuration, the tables and the outside world. */
  function UpdateSpec(cfg: RepoConfig, t: Tables, remote: Remote, now: Timestamp): (u: UpdateResult)
    ensures !u.ok ==> u.tables == t && u.newCommits == 0
  {
    match Fetched(cfg, LastStoredRev(t.commits, cfg.id), remote, now)
    case None => UpdateResult(false, 0, t)
    case Some(cs) =>
      var b := StoreAll(cfg.id, t, cs);
      UpdateResult(true, b.count, b.tables)
  }

  /** How many entries of `bs` are true. */
  function CountTrue(bs: seq<bool>): (n: nat)
    ensures n <= |bs|
  {
    if bs == [] then 0 else CountTrue(bs[..|bs| - 1]) + (if bs[|bs| - 1] then 1 else 0)
  }

  /** The database: the author table and the commit-log table, rows in id order. */
  class Database {
    var authors: seq<Author>
    var commits: seq<CommitLog>

    constructor ()
      ensures authors == [] && commits == []
    {
      authors := [];
      commits := [];
    }

    function Tables(): Tables
      reads this
    {
      CommitLogs.Tables(authors, commits)
    }
  }

  /** A configured repository; synchronisation writes only its `last_sync` column. */
  class Repository {
    const id: nat
    const name: string
    const url: string
    const kind: VcsKind
    const branch: string
    const username: string
    const password: string
    const sshKeyPath: string
    const accessToken: string
    const sourceview: Option<string>
    var lastSync: Option<Timestamp>

    constructor (id: nat, name: string, url: string, kind: VcsKind, branch: string, username: string,
                 password: string, sshKeyPath: string, accessToken: string, sourceview: Option<string>)
      ensures Config() == RepoConfig(id, name, url, kind, branch, username, password, sshKeyPath, accessToken, sourceview)
      ensures lastSync == None
    {
      this.id := id;
      this.name := name;
      this.url := url;
      this.kind := kind;
      this.branch := branch;
      this.username := username;
      this.password := password;
      this.sshKeyPath := sshKeyPath;
      this.accessToken := accessToken;
      this.sourceview := sourceview;
      lastSync := None;
    }

    function Config(): RepoConfig {
      RepoConfig(id, name, url, kind, branch, username, password, sshKeyPath, accessToken, sourceview)
    }

    /**
     * `get_or_create_author` (with `author` bound to None before the email
     * lookup): find by account, else by email renaming the account, else
     * create; an ambiguous lookup raises. Only the author table changes.
     */
    method GetOrCreateAuthor(db: Database, account: string, email: string) returns (r: Result<nat>)
      modifies db
      ensures var spec := ResolveAuthor(old(db.authors), account, email);
              && (spec.Err? ==> r == Err(spec.error) && db.authors == old(db.authors))
              && (spec.Ok? ==> r == Ok(spec.value.authorId) && db.authors == spec.value.authors)
      ensures db.commits == old(db.commits)
    {
      var byAccount := Get(db.authors, AccountOf, account);
      if byAccount.Multiple? {
        return Err(MultipleObjectsReturned);
      }
      if byAccount.Found? {
        return Ok(db.authors[byAccount.index].id);
      }
      var found: Option<nat> := None;
      if email != "" {
        var byEmail := Get(db.authors, EmailOf, email);
        if byEmail.Multiple? {
          return Err(MultipleObjectsReturned);
        }
        if byEmail.Found? {
          found := Some(byEmail.index);
        }
      }
      match found
      case Some(i) =>
        var a := db.authors[i];
        if a.account != account {
          db.authors := db.authors[i := Saved(a.(account := account))];
        }
        r := Ok(a.id);
      case None =>
        var id := NextRowId(db.authors, IdOf);
        db.authors := db.authors + [Saved(Author(id, account, account, email))];
        r := Ok(id);
    }

    /**
     * `store_commit`: resolve the author (the intended resolution, as in
     * GetOrCreateAuthor), skip a revision this repository already has, else
     * insert the commit. Returns whether it was inserted.
     */
    method StoreCommit(db: Database, c: VcsCommit) returns (stored: bool)
      modifies db
      ensures var s := StoreOne(id, old(db.Tables()), c);
              stored == s.outcome.Stored? && db.Tables() == s.tables
    {
      var author := GetOrCreateAuthor(db, c.author, c.authorEmail);
      if author.Err? {
        return false;
      }
      if HasRevision(db.commits, id, c.revision) {
        return false;
      }
      db.commits := db.commits + [CommitLog(NextRowId(db.commits, CommitIdOf), id, c.revision, c.timestamp, author.value, c.message)];
      stored := true;
    }

    /**
     * The fetching half of `update`: the checks that make it return False,
     * then the Subversion range from one after the watermark to the head, or
     * Git's `get_new_commits`. Changes nothing.
     */
    method FetchNew(db: Database, remote: Remote, now: Timestamp) returns (r: Option<seq<VcsCommit>>)
      ensures r == Fetched(Config(), LastStoredRev(db.commits, id), remote, now)
    {
      var last := LastStoredRev(db.commits, id);
      if kind.Other? || !remote.libraryAvailable || !ConnectionOk(Config(), remote) {
        return None;
      }
      if kind.Svn? {
        // the connection test has just read the head
        var latest := remote.svnHead.value;
        var start := SvnStart(last);
        if start.Err? {
          return None;
        }
        if start.value <= latest {
          var commits := SvnClient.GetCommits(Some(IntToString(start.value)), Some(IntToString(latest)),
                                              remote.svnHead, remote.svnLog, now);
          r := Some(commits);
        } else {
          r := Some([]);
        }
      } else {
        r := Some(GetNewCommits(last, remote.gitHead,
                                GitClient.Fetcher(GitClient.DefaultBranch(branch), remote.gitHistory)));
      }
    }

    /** The storing loop of `update`: store each commit in order and count the inserted ones. */
    method StoreCommits(db: Database, commits: seq<VcsCommit>) returns (newCommits: nat)
      modifies db
      ensures var b := StoreAll(id, old(db.Tables()), commits);
              newCommits == b.count && db.Tables() == b.tables
    {
      ghost var t0 := db.Tables();
      newCommits := 0;
      var i := 0;
      while i < |commits|
        invariant 0 <= i <= |commits|
        invariant db.Tables() == StoreAll(id, t0, commits[..i]).tables
        invariant newCommits == StoreAll(id, t0, commits[..i]).count
      {
        assert commits[..i + 1][..i] == commits[..i];
        var stored := StoreCommit(db, commits[i]);
        if stored {
          newCommits := newCommits + 1;
        }
        i := i + 1;
      }
      assert commits[..|commits|] == commits;
    }

    /**
     * `update`: fetch the new commits from the back end, store them one by
     * one counting the inserted ones, then record the sync time. Returns
     * False, changing nothing, when it stops before storing.
     */
    method Update(db: Database, remote: Remote, now: Timestamp) returns (ok: bool, newCommits: nat)
      modifies this, db
      ensures var u := UpdateSpec(Config(), old(db.Tables()), remote, now);
              ok == u.ok && newCommits == u.newCommits && db.Tables() == u.tables
      ensures lastSync == if ok then Some(now) else old(lastSync)
      ensures old(db.commits) <= db.commits
      ensures CommitLogs.Valid(old(db.Tables())) ==> CommitLogs.Valid(db.Tables())
    {
      UpdateGrows(Config(), db.Tables(), remote, now);
      var fetched := FetchNew(db, remote, now);
      if fetched.None? {
        return false, 0;
      }
      newCommits := StoreCommits(db, fetched.value);
      lastSync := Some(now);
      ok := true;
    }
  }

  /**
   * `UpdateRepositories`: update every repository in turn and count the
   * successful and the failed updates; `remotes[i]` is what the outside
   * world answers to repository `i` and `oks[i]` what its `update`
   * returned. The commit log only grows, and a well-formed database stays
   * well formed.
   */
  method UpdateRepositories(repos: seq<Repository>, db: Database, remotes: seq<Remote>, now: Timestamp)
    returns (updated: nat, failed: nat, ghost oks: seq<bool>)
    requires |remotes| == |repos|
    requires forall i, j :: 0 <= i < j < |repos| ==> repos[i] != repos[j]
    modifies db, repos
    ensures |oks| == |repos| && updated == CountTrue(oks) && failed == |repos| - updated
    ensures forall k :: 0 <= k < |repos| ==> repos[k].lastSync == if oks[k] then Some(now) else old(repos[k].lastSync)
    ensures old(db.commits) <= db.commits
    ensures CommitLogs.Valid(old(db.Tables())) ==> CommitLogs.Valid(db.Tables())
  {
    updated, failed, oks := 0, 0, [];
    var i := 0;
    while i < |repos|
      invariant 0 <= i <= |repos| && |oks| == i
      invariant updated == CountTrue(oks) && failed == i - updated
      invariant forall k :: 0 <= k < i ==> repos[k].lastSync == if oks[k] then Some(now) else old(repos[k].lastSync)
      invariant forall k :: i <= k < |repos| ==> repos[k].lastSync == old(repos[k].lastSync)
      invariant old(db.commits) <= db.commits
      invariant CommitLogs.Valid(old(db.Tables())) ==> CommitLogs.Valid(db.Tables())
    {
      var ok, _ := repos[i].Update(db, remotes[i], now);
      assert (oks + [ok])[..i] == oks;
      oks := oks + [ok];
      if ok {
        updated := updated + 1;
      } else {
        failed := failed + 1;
      }
      i := i + 1;
    }
  }

  /** One update only appends to the commit log and keeps the tables well formed. */
  lemma UpdateGrows(cfg: RepoConfig, t: Tables, remote: Remote, now: Timestamp)
    ensures var u := UpdateSpec(cfg, t, remote, now);
            && t.commits <= u.tables.commits
            && |u.tables.commits| == |t.commits| + u.newCommits
            && (CommitLogs.Valid(t) ==> CommitLogs.Valid(u.tables))
  {
    var f := Fetched(cfg, LastStoredRev(t.commits, cfg.id), remote, now);
    if f.Some? {
      StoreAllAppends(cfg.id, t, f.value);
      if CommitLogs.Valid(t) {
        StoreAllKeepsValid(cfg.id, t, f.value);
      }
    }
  }

  /**
   * `update` returns True exactly when the VCS type is supported, its
   * library is installed, the connection test passes and, for Subversion,
   * the watermark is a number.
   */
  lemma UpdateSucceedsWhen(cfg: RepoConfig, t: Tables, remote: Remote, now: Timestamp)
    ensures UpdateSpec(cfg, t, remote, now).ok <==>
            && !cfg.kind.Other? && remote.libraryAvailable && ConnectionOk(cfg, remote)
            && (cfg.kind.Svn? ==> SvnStart(LastStoredRev(t.commits, cfg.id)).Ok?)
  {
  }

  /**
   * A Subversion update whose watermark is revision `w` reads the log from
   * one after `w` (never below 1) to the head, and reads nothing when the
   * watermark has reached the head.
   */
  lemma SvnUpdateReadsAfterWatermark(cfg: RepoConfig, t: Tables, remote: Remote, now: Timestamp, w: int, h: int)
    requires cfg.kind.Svn? && remote.libraryAvailable && remote.svnHead == Ok(h)
    requires LastStoredRev(t.commits, cfg.id) == Some(IntToString(w))
    ensures var start := if w + 1 >= 1 then w + 1 else 1;
            Fetched(cfg, LastStoredRev(t.commits, cfg.id), remote, now)
              == Some(if start <= h then SvnClient.LogCommits(remote.svnLog(start, h), now) else [])
  {
    ParseIntToString(w);
    var start := if w + 1 >= 1 then w + 1 else 1;
    assert SvnStart(Some(IntToString(w))) == Ok(start);
    if start <= h {
      SvnClient.ExplicitRange(start, h, remote.svnHead);
    }
  }

  /** The first Subversion update of a repository reads the log from revision 1 to the head. */
  lemma SvnFirstUpdateReadsFromOne(cfg: RepoConfig, t: Tables, remote: Remote, now: Timestamp, h: int)
    requires cfg.kind.Svn? && remote.libraryAvailable && remote.svnHead == Ok(h)
    requires LastStoredRev(t.commits, cfg.id) == None
    ensures Fetched(cfg, LastStoredRev(t.commits, cfg.id), remote, now)
            == Some(if 1 <= h then SvnClient.LogCommits(remote.svnLog(1, h), now) else [])
  {
    assert ParseInt("0") == Ok(0) by {
      assert IsDigits("0");
    }
    assert SvnStart(None) == Ok(1);
    if 1 <= h {
      SvnClient.ExplicitRange(1, h, remote.svnHead);
    }
  }

  /** A Git update whose watermark differs from the head reads the commits after the watermark up to the head. */
  lemma GitUpdateReadsSinceWatermark(cfg: RepoConfig, t: Tables, remote: Remote, now: Timestamp, w: string, latest: string)
    requires cfg.kind.Git? && remote.libraryAvailable && ConnectionOk(cfg, remote) && remote.gitHead == Ok(latest)
    requires LastStoredRev(t.commits, cfg.id) == Some(w) && w != "" && latest != "" && w != latest
    ensures Fetched(cfg, LastStoredRev(t.commits, cfg.id), remote, now)
            == Some(OrEmpty(GitClient.FetchRange(w + ".." + latest, remote.gitHistory)))
  {
    GitClient.LaterSyncReadsGraphRange(GitClient.DefaultBranch(cfg.branch), w, latest, remote.gitHistory);
  }

  /**
   * An update whose watermark is already the head succeeds, stores nothing
   * and leaves the tables as they were.
   */
  lemma UpToDateUpdateChangesNothing(cfg: RepoConfig, t: Tables, remote: Remote, now: Timestamp)
    requires !cfg.kind.Other? && remote.libraryAvailable && ConnectionOk(cfg, remote)
    requires cfg.kind.Svn? ==> LastStoredRev(t.commits, cfg.id) == Some(IntToString(remote.svnHead.value))
    requires cfg.kind.Git? ==> remote.gitHead.Ok? && remote.gitHead.value != ""
                               && LastStoredRev(t.commits, cfg.id) == Some(remote.gitHead.value)
    ensures UpdateSpec(cfg, t, remote, now) == UpdateResult(true, 0, t)
  {
    if cfg.kind.Svn? {
      SvnUpdateReadsAfterWatermark(cfg, t, remote, now, remote.svnHead.value, remote.svnHead.value);
    }
    assert StoreAll(cfg.id, t, []) == Batch(0, 0, t);
  }

  /** A Git update stores at most MaxCommits commits, the cap on one history read. */
  lemma GitUpdateStoresAtMostCap(cfg: RepoConfig, t: Tables, remote: Remote, now: Timestamp)
    requires cfg.kind.Git?
    ensures UpdateSpec(cfg, t, remote, now).newCommits <= GitClient.MaxCommits
  {
    var f := Fetched(cfg, LastStoredRev(t.commits, cfg.id), remote, now);
    if f.Some? {
      GitClient.NewCommitsCapped(GitClient.DefaultBranch(cfg.branch), LastStoredRev(t.commits, cfg.id),
                                 remote.gitHead, remote.gitHistory);
      StoreAllAppends(cfg.id, t, f.value);
    }
  }
}
