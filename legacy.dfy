/**
 * The older, Subversion-only synchronisation (`commits/models.py`). Its
 * `update` reads the revisions after the highest stored revision number,
 * `convert` stores every valid revision with its author, and `addAuthor`
 * finds the author by account name or creates one. Unlike the newer code
 * there is no duplicate check and the watermark is a maximum, not the
 * revision of the newest row.
 */
module Legacy {
  import opened Outcomes
  import opened Text
  import opened Orm
  import opened VcsBase
  import CommitLogs

  /** An author row; `addAuthor` sets only the account, so the display name stays empty. */
  datatype Author = Author(id: nat, account: string, display: string)

  function AccountOf(a: Author): string {
    a.account
  }

  /** A commit-log row; the revision is a Subversion revision number. */
  datatype CommitLog = CommitLog(id: nat, repository: nat, revision: int, time: Timestamp, author: nat, comment: string)

  datatype Tables = Db(authors: seq<Author>, commits: seq<CommitLog>)

  /** One item of the revision-log iterator. */
  datatype Revision = Revision(valid: bool, revno: int, author: string, date: Timestamp, message: string)

  /**
   * Iterating the revision log between two revisions: the items yielded,
   * then the exception that stopped the iteration, if one did.
   */
  datatype LogRun = LogRun(revisions: seq<Revision>, raised: Option<Exception>)

  /** Every revision a run yields lies in the range it was asked for. */
  predicate RunWithin(run: LogRun, first: int, last: int) {
    forall j :: 0 <= j < |run.revisions| ==> first <= run.revisions[j].revno <= last
  }

  function IdOf(a: Author): nat { a.id }

  function CommitIdOf(c: CommitLog): nat { c.id }

  predicate HasAccount(authors: seq<Author>, account: string) {
    exists k :: 0 <= k < |authors| && authors[k].account == account
  }

  /** No two authors share an account, the state in which `addAuthor` never raises. */
  predicate UniqueAccounts(authors: seq<Author>) {
    forall i, j :: 0 <= i < j < |authors| ==> authors[i].account != authors[j].account
  }

  /**
   * `addAuthor`: the id of the author with this account, or of a new
   * author with only the account set; an ambiguous account raises.
   */
  function AddAuthorSpec(authors: seq<Author>, account: string): (r: Result<(nat, seq<Author>)>)
    ensures r.Err? <==> exists i, j :: 0 <= i < j < |authors| && authors[i].account == account && authors[j].account == account
    ensures r.Err? ==> r.error == MultipleObjectsReturned
    ensures r.Ok? && HasAccount(authors, account) ==>
              r.value.1 == authors && exists k :: 0 <= k < |authors| && authors[k].id == r.value.0 && authors[k].account == account
    ensures r.Ok? && !HasAccount(authors, account) ==> r.value.1 == authors + [Author(r.value.0, account, "")]
  {
    match Get(authors, AccountOf, account)
    case Found(k) => Ok((authors[k].id, authors))
    case NotFound =>
      var id := NextRowId(authors, IdOf);
      Ok((id, authors + [Author(id, account, "")]))
    case Multiple => Err(MultipleObjectsReturned)
  }

  /** With unique accounts `addAuthor` always returns an author, and the accounts stay unique. */
  lemma AddAuthorKeepsUnique(authors: seq<Author>, account: string)
    requires UniqueAccounts(authors)
    ensures var r := AddAuthorSpec(authors, account);
            r.Ok? && UniqueAccounts(r.value.1)
  {
    var r := AddAuthorSpec(authors, account);
    if !HasAccount(authors, account) {
      var after := r.value.1;
      forall i, j | 0 <= i < j < |after| ensures after[i].account != after[j].account {
        if j == |authors| {
          assert after[i] == authors[i];
        }
      }
    }
  }

  /** One step of `convert`: a valid revision becomes a commit row unless its author lookup raises. */
  function ConvertOne(repo: nat, t: Tables, rev: Revision): Tables {
    if !rev.valid then t
    else
      match AddAuthorSpec(t.authors, rev.author)
      case Err(_) => t
      case Ok((author, authors)) =>
        Db(authors, t.commits + [CommitLog(NextRowId(t.commits, CommitIdOf), repo, rev.revno, rev.date, author, rev.message)])
  }

  /** `convert` over the revisions the iterator yielded, in order. */
  function ConvertAll(repo: nat, t: Tables, revs: seq<Revision>): Tables
    decreases |revs|
  {
    if revs == [] then t else ConvertOne(repo, ConvertAll(repo, t, revs[..|revs| - 1]), revs[|revs| - 1])
  }

  /** The revision numbers of some rows, in row order. */
  function RevisionsOf(rows: seq<CommitLog>): (r: seq<int>)
    ensures |r| == |rows|
    decreases |rows|
  {
    if rows == [] then [] else RevisionsOf(rows[..|rows| - 1]) + [rows[|rows| - 1].revision]
  }

  /** The revision numbers of the valid revisions, in log order. */
  function ValidRevnos(revs: seq<Revision>): (r: seq<int>)
    ensures |r| <= |revs|
    decreases |revs|
  {
    if revs == [] then []
    else ValidRevnos(revs[..|revs| - 1]) + (if revs[|revs| - 1].valid then [revs[|revs| - 1].revno] else [])
  }

  /**
   * `convert` only appends, and every row it appends belongs to the
   * repository and carries the number of a valid revision it read.
   */
  lemma {:induction false} ConvertAllAppends(repo: nat, t: Tables, revs: seq<Revision>)
    ensures var c := ConvertAll(repo, t, revs).commits;
            && |t.commits| <= |c| <= |t.commits| + |revs|
            && c[..|t.commits|] == t.commits
            && forall k :: |t.commits| <= k < |c| ==>
                 c[k].repository == repo
                 && exists j :: 0 <= j < |revs| && revs[j].valid && revs[j].revno == c[k].revision
    decreases |revs|
  {
    if revs != [] {
      var init := revs[..|revs| - 1];
      ConvertAllAppends(repo, t, init);
      var c := ConvertAll(repo, t, revs).commits;
      forall k | |t.commits| <= k < |c|
        ensures exists j :: 0 <= j < |revs| && revs[j].valid && revs[j].revno == c[k].revision
      {
        var j := ConvertedRowSource(repo, t, revs, k);
      }
    }
  }

  /** The index of the valid revision that the `k`-th row added by `convert` was made from. */
  lemma {:induction false} ConvertedRowSource(repo: nat, t: Tables, revs: seq<Revision>, k: nat) returns (j: nat)
    requires |t.commits| <= k < |ConvertAll(repo, t, revs).commits|
    ensures j < |revs| && revs[j].valid && revs[j].revno == ConvertAll(repo, t, revs).commits[k].revision
    decreases |revs|
  {
    var init := revs[..|revs| - 1];
    var prev := ConvertAll(repo, t, init).commits;
    var c := ConvertAll(repo, t, revs).commits;
    if k < |prev| {
      assert c[k] == prev[k];
      j := ConvertedRowSource(repo, t, init, k);
      assert revs[j] == init[j];
    } else {
      j := |revs| - 1;
    }
  }

  /**
   * When no two authors share an account, `convert` stores exactly the
   * valid revisions, in log order, and the accounts stay unique.
   */
  lemma {:induction false} ConvertAllStoresEveryValid(repo: nat, t: Tables, revs: seq<Revision>)
    requires UniqueAccounts(t.authors)
    ensures var c := ConvertAll(repo, t, revs);
            && UniqueAccounts(c.authors)
            && RevisionsOf(c.commits) == RevisionsOf(t.commits) + ValidRevnos(revs)
    decreases |revs|
  {
    if revs != [] {
      var init := revs[..|revs| - 1];
      var rev := revs[|revs| - 1];
      ConvertAllStoresEveryValid(repo, t, init);
      var prev := ConvertAll(repo, t, init);
      if rev.valid {
        AddAuthorKeepsUnique(prev.authors, rev.author);
        var c := ConvertAll(repo, t, revs).commits;
        assert c[..|prev.commits|] == prev.commits;
        assert RevisionsOf(c) == RevisionsOf(prev.commits) + [rev.revno];
      }
    }
  }

  /** The highest stored revision number of a repository, or None when it has no rows. */
  function MaxRevision(commits: seq<CommitLog>, repo: nat): (r: Option<int>)
    ensures r.None? <==> forall k :: 0 <= k < |commits| ==> commits[k].repository != repo
    ensures r.Some? ==> exists k :: 0 <= k < |commits| && commits[k].repository == repo && commits[k].revision == r.value
    ensures r.Some? ==> forall k :: 0 <= k < |commits| && commits[k].repository == repo ==> commits[k].revision <= r.value
    decreases |commits|
  {
    if commits == [] then None
    else
      var c := commits[|commits| - 1];
      var prev := MaxRevision(commits[..|commits| - 1], repo);
      if c.repository != repo then prev
      else match prev
        case None => Some(c.revision)
        case Some(m) => Some(if c.revision > m then c.revision else m)
  }

  /** `getLastStoredRev`: the highest stored revision number of the repository, 0 when it has none. */
  function LastStoredRev(commits: seq<CommitLog>, repo: nat): int {
    match MaxRevision(commits, repo)
    case None => 0
    case Some(m) => m
  }

  /** The result of the legacy `update`: whether it reached `self.save()`, and the tables. */
  datatype UpdateResult = UpdateResult(saved: bool, tables: Tables)

  /** The first revision `update` converts: the client's start, raised to one after the watermark. */
  function StartRevision(clientStart: int, last: int): (r: int)
    ensures r >= clientStart && r > last
    ensures r == clientStart || r == last + 1
  {
    if clientStart >= last + 1 then clientStart else last + 1
  }

  /**
   * The legacy `update` as a function of the tables and the server: the
   * root URL and the client's revision range (either may raise), and the
   * revision log the iterator reads between two revisions.
   */
  function UpdateSpec(repo: nat, t: Tables, rootUrl: Result<string>, clientRange: Result<(int, int)>,
                      log: (int, int) -> LogRun): UpdateResult {
    if rootUrl.Err? || clientRange.Err? then UpdateResult(false, t)
    else
      var start := StartRevision(clientRange.value.0, LastStoredRev(t.commits, repo));
      var end := clientRange.value.1;
      if start <= end then
        var run := log(start, end);
        UpdateResult(run.raised.None?, ConvertAll(repo, t, run.revisions))
      else UpdateResult(true, t)
  }

  /**
   * `update` swallows every exception: it reaches `self.save()` exactly when
   * neither the server calls nor the iteration raised. Rows converted before
   * an exception stay stored, and the commit log only grows.
   */
  lemma UpdateOutcome(repo: nat, t: Tables, rootUrl: Result<string>, clientRange: Result<(int, int)>,
                      log: (int, int) -> LogRun)
    ensures var u := UpdateSpec(repo, t, rootUrl, clientRange, log);
            && (u.saved <==>
                  && rootUrl.Ok? && clientRange.Ok?
                  && (var start := StartRevision(clientRange.value.0, LastStoredRev(t.commits, repo));
                      start <= clientRange.value.1 ==> log(start, clientRange.value.1).raised.None?))
            && |t.commits| <= |u.tables.commits| && u.tables.commits[..|t.commits|] == t.commits
            && (rootUrl.Err? || clientRange.Err? ==> u.tables == t)
  {
    if rootUrl.Ok? && clientRange.Ok? {
      var start := StartRevision(clientRange.value.0, LastStoredRev(t.commits, repo));
      if start <= clientRange.value.1 {
        ConvertAllAppends(repo, t, log(start, clientRange.value.1).revisions);
      }
    }
  }

  /** An update whose client range ends at or below the watermark converts nothing and saves. */
  lemma UpToDateUpdateChangesNothing(repo: nat, t: Tables, rootUrl: Result<string>, first: int, end: int,
                                     log: (int, int) -> LogRun)
    requires rootUrl.Ok? && end <= LastStoredRev(t.commits, repo)
    ensures UpdateSpec(repo, t, rootUrl, Ok((first, end)), log) == UpdateResult(true, t)
  {
  }

  /**
   * When the iterator keeps to its range, every row an update adds carries
   * a revision above the old watermark and inside the client's range, and
   * the watermark never goes down.
   */
  lemma UpdateStoresOnlyNewerRevisions(repo: nat, t: Tables, rootUrl: Result<string>, clientRange: Result<(int, int)>,
                                       log: (int, int) -> LogRun)
    requires forall s, e :: RunWithin(log(s, e), s, e)
    ensures var c := UpdateSpec(repo, t, rootUrl, clientRange, log).tables.commits;
            && |t.commits| <= |c|
            && (forall k :: |t.commits| <= k < |c| ==>
                  LastStoredRev(t.commits, repo) < c[k].revision
                  && clientRange.Ok? && clientRange.value.0 <= c[k].revision <= clientRange.value.1)
            && LastStoredRev(c, repo) >= LastStoredRev(t.commits, repo)
  {
    var u := UpdateSpec(repo, t, rootUrl, clientRange, log);
    var c := u.tables.commits;
    var last := LastStoredRev(t.commits, repo);
    if rootUrl.Ok? && clientRange.Ok? {
      var start := StartRevision(clientRange.value.0, last);
      var end := clientRange.value.1;
      if start <= end {
        var revs := log(start, end).revisions;
        assert RunWithin(log(start, end), start, end);
        ConvertAllAppends(repo, t, revs);
        forall k | |t.commits| <= k < |c|
          ensures last < c[k].revision && clientRange.value.0 <= c[k].revision <= end
        {
          var j := ConvertedRowSource(repo, t, revs, k);
        }
        WatermarkGrows(t.commits, c, repo);
      }
    }
  }

  /** Appending rows of this repository above the watermark cannot lower the maximum. */
  lemma WatermarkGrows(before: seq<CommitLog>, c: seq<CommitLog>, repo: nat)
    requires |before| <= |c| && c[..|before|] == before
    requires forall k :: |before| <= k < |c| ==> LastStoredRev(before, repo) < c[k].revision
    ensures LastStoredRev(c, repo) >= LastStoredRev(before, repo)
  {
    var m := MaxRevision(c, repo);
    if MaxRevision(before, repo).Some? {
      var k :| 0 <= k < |before| && before[k].repository == repo && before[k].revision == MaxRevision(before, repo).value;
      assert c[k] == before[k];
    } else if m.Some? {
      var k :| 0 <= k < |c| && c[k].repository == repo && c[k].revision == m.value;
    }
  }

  /** `CommitLog.__unicode__`: "r" and the revision number. */
  function Render(c: CommitLog): string {
    "r" + IntToString(c.revision)
  }

  /** A rendered commit gives its revision number back. */
  lemma RenderRoundTrip(c: CommitLog)
    ensures var s := Render(c);
            |s| >= 2 && s[0] == 'r' && ParseInt(s[1..]) == Ok(c.revision)
  {
    var s := Render(c);
    assert s[1..] == IntToString(c.revision);
    ParseIntToString(c.revision);
  }

  /** The legacy rendering is the newer short revision of a Subversion commit. */
  lemma RenderIsShortRevision(c: CommitLog)
    ensures Render(c) == CommitLogs.ShortRevision(Svn, IntToString(c.revision))
  {
  }

  /** The database: the author table and the commit-log table, rows in id order. */
  class Database {
    var authors: seq<Author>
    var commits: seq<CommitLog>

    constructor ()
      ensures authors == [] && commits == []
    {
      authors := [];
      commits := [];
    }

    function Tables(): Tables
      reads this
    {
      Db(authors, commits)
    }
  }

  /** A configured Subversion repository; synchronisation writes none of its columns. */
  class Repository {
    const id: nat
    const name: string
    const url: string
    const username: string
    const password: string

    constructor (id: nat, name: string, url: string, username: string, password: string)
      ensures this.id == id && this.name == name && this.url == url
      ensures this.username == username && this.password == password
    {
      this.id := id;
      this.name := name;
      this.url := url;
      this.username := username;
      this.password := password;
    }

    /** `addAuthor`: find the author by account, or create one; only the author table changes. */
    method AddAuthor(db: Database, account: string) returns (r: Result<nat>)
      modifies db
      ensures var spec := AddAuthorSpec(old(db.authors), account);
              && (spec.Err? ==> r == Err(spec.error) && db.authors == old(db.authors))
              && (spec.Ok? ==> r == Ok(spec.value.0) && db.authors == spec.value.1)
      ensures db.commits == old(db.commits)
    {
      match Get(db.authors, AccountOf, account)
      case Found(k) =>
        r := Ok(db.authors[k].id);
      case NotFound =>
        var author := Author(NextRowId(db.authors, IdOf), account, "");
        db.authors := db.authors + [author];
        r := Ok(author.id);
      case Multiple =>
        r := Err(MultipleObjectsReturned);
    }

    /**
     * `convert`: iterate the log from `start` to `end` and store each valid
     * revision; an exception on one revision skips it, an exception of the
     * iteration itself ends the conversion and is passed on.
     */
    method Convert(db: Database, log: (int, int) -> LogRun, start: int, end: int) returns (raised: Option<Exception>)
      modifies db
      ensures db.Tables() == ConvertAll(id, old(db.Tables()), log(start, end).revisions)
      ensures raised == log(start, end).raised
    {
      ghost var t0 := db.Tables();
      var run := log(start, end);
      var i := 0;
      while i < |run.revisions|
        invariant 0 <= i <= |run.revisions|
        invariant db.Tables() == ConvertAll(id, t0, run.revisions[..i])
      {
        var rev := run.revisions[i];
        assert run.revisions[..i + 1][..i] == run.revisions[..i];
        if rev.valid {
          var author := AddAuthor(db, rev.author);
          if author.Ok? {
            db.commits := db.commits + [CommitLog(NextRowId(db.commits, CommitIdOf), id, rev.revno, rev.date, author.value, rev.message)];
          }
        }
        i := i + 1;
      }
      assert run.revisions[..|run.revisions|] == run.revisions;
      raised := run.raised;
    }

    /**
     * `update`: ask the server for its root URL and revision range, raise
     * the start to one after the watermark and convert when the range is
     * not empty. Returns whether `self.save()` was reached.
     */
    method Update(db: Database, rootUrl: Result<string>, clientRange: Result<(int, int)>,
                  log: (int, int) -> LogRun) returns (saved: bool)
      modifies db
      ensures var u := UpdateSpec(id, old(db.Tables()), rootUrl, clientRange, log);
              saved == u.saved && db.Tables() == u.tables
    {
      var last := LastStoredRev(db.commits, id);
      if rootUrl.Err? || clientRange.Err? {
        return false;
      }
      var (first, end) := clientRange.value;
      var start := StartRevision(first, last);
      if start <= end {
        var raised := Convert(db, log, start, end);
        if raised.Some? {
          return false;
        }
      }
      saved := true;
    }
  }
}
