/**
 * The commit-log table and what `store_commit` and `getLastStoredRev` do to
 * and read from it, as functions of the tables; the Repository class in
 * Sync performs them in place.
 */
module CommitLogs {
  import opened Outcomes
  import opened Text
  import opened VcsBase
  import opened Orm
  import opened Authors

  /** A row of the commit-log table; `repository` and `author` are row ids. */
  datatype CommitLog = CommitLog(id: nat, repository: nat, revision: string, time: Timestamp, author: nat, comment: string)

  /** The two tables synchronisation writes. */
  datatype Tables = Tables(authors: seq<Author>, commits: seq<CommitLog>)

  /** Ids grow with insertion order and start at 1; no repository has a revision twice. */
  predicate ValidCommits(commits: seq<CommitLog>) {
    && (forall i, j :: 0 <= i < j < |commits| ==> commits[i].id < commits[j].id)
    && (forall i :: 0 <= i < |commits| ==> commits[i].id > 0)
    && (forall i, j :: 0 <= i < j < |commits| ==>
          commits[i].repository != commits[j].repository || commits[i].revision != commits[j].revision)
  }

  predicate HasAuthorId(authors: seq<Author>, id: nat) {
    exists k :: 0 <= k < |authors| && authors[k].id == id
  }

  /** Both tables valid, and every commit points at an existing author. */
  predicate Valid(t: Tables) {
    && Authors.Valid(t.authors)
    && ValidCommits(t.commits)
    && forall i :: 0 <= i < |t.commits| ==> HasAuthorId(t.authors, t.commits[i].author)
  }

  /** `CommitLog.objects.filter(repository=repo, revision=rev).exists()`. */
  predicate HasRevision(commits: seq<CommitLog>, repo: nat, rev: string) {
    exists k :: 0 <= k < |commits| && commits[k].repository == repo && commits[k].revision == rev
  }

  function CommitIdOf(c: CommitLog): nat { c.id }

  /** What `store_commit` reports for one commit. */
  datatype Outcome = Stored | Duplicate | Failed(error: Exception)

  datatype Step = Step(outcome: Outcome, tables: Tables)

  /**
   * `store_commit` once the author lookup has returned: an exception from it
   * ends the store with nothing written; otherwise the author table is the
   * lookup's (it may have renamed or created an author even when the commit
   * turns out to be stored already), a revision the repository already has
   * is skipped, and any other is inserted.
   */
  function StoreResolved(repo: nat, t: Tables, c: VcsCommit, resolved: Result<Resolution>): Step {
    match resolved
    case Err(e) => Step(Failed(e), t)
    case Ok(res) =>
      var withAuthor := t.(authors := res.authors);
      if HasRevision(t.commits, repo, c.revision) then Step(Duplicate, withAuthor)
      else
        var row := CommitLog(NextRowId(t.commits, CommitIdOf), repo, c.revision, c.timestamp, res.authorId, c.message);
        Step(Stored, withAuthor.(commits := t.commits + [row]))
  }

  /** `store_commit`, over the intended author resolution. */
  function StoreOne(repo: nat, t: Tables, c: VcsCommit): Step {
    StoreResolved(repo, t, c, ResolveAuthor(t.authors, c.author, c.authorEmail))
  }

  /** `store_commit` as written, over the author resolution as written. */
  function StoreOneAsWritten(repo: nat, t: Tables, c: VcsCommit): (s: Step)
    ensures s.outcome.Failed? ==> s.tables == t
    ensures s.outcome.Failed? ==> s.outcome.error == UnboundLocalError || s.outcome.error == MultipleObjectsReturned
  {
    StoreResolved(repo, t, c, ResolveAuthorAsWritten(t.authors, c.author, c.authorEmail))
  }

  /** The count of stored commits and the tables after storing a batch, one commit after the other. */
  datatype Batch = Batch(count: nat, failures: nat, tables: Tables)

  /** The storing loop of `update`, over a batch in order. */
  function StoreAll(repo: nat, t: Tables, cs: seq<VcsCommit>): Batch
    decreases |cs|
  {
    if cs == [] then Batch(0, 0, t)
    else
      var prev := StoreAll(repo, t, cs[..|cs| - 1]);
      var step := StoreOne(repo, prev.tables, cs[|cs| - 1]);
      Batch(prev.count + (if step.outcome.Stored? then 1 else 0),
            prev.failures + (if step.outcome.Failed? then 1 else 0),
            step.tables)
  }

  /** The index of the repository's row with the highest id: `order_by('-id').first()`. */
  function HighestIdIndex(commits: seq<CommitLog>, repo: nat): (r: Option<nat>)
    ensures r.None? <==> forall k :: 0 <= k < |commits| ==> commits[k].repository != repo
    ensures r.Some? ==> r.value < |commits| && commits[r.value].repository == repo
    ensures r.Some? ==> forall k :: 0 <= k < |commits| && commits[k].repository == repo ==>
                          commits[k].id <= commits[r.value].id
    decreases |commits|
  {
    if commits == [] then None
    else
      var n := |commits| - 1;
      var prev := HighestIdIndex(commits[..n], repo);
      assert forall k :: 0 <= k < n ==> commits[..n][k] == commits[k];
      if commits[n].repository != repo then prev
      else if prev.Some? && commits[prev.value].id > commits[n].id then prev
      else Some(n)
  }

  /** `getLastStoredRev`: the revision of the repository's most recently inserted commit, if any. */
  function LastStoredRev(commits: seq<CommitLog>, repo: nat): Option<string> {
    match HighestIdIndex(commits, repo)
    case Some(i) => Some(commits[i].revision)
    case None => None
  }

  // ---- storing one commit ----

  /**
   * One store: it fails exactly when the author lookup raises, and then
   * changes nothing; otherwise the author table is the one the lookup left,
   * the revision is present afterwards, and it was inserted (as the one new
   * row, carrying the commit's revision, time and message and the resolved
   * author) exactly when it was not present before.
   */
  lemma StoreOneEffect(repo: nat, t: Tables, c: VcsCommit)
    ensures var s := StoreOne(repo, t, c);
            var r := ResolveAuthor(t.authors, c.author, c.authorEmail);
            && (s.outcome.Failed? <==> r.Err?)
            && (s.outcome.Failed? ==> s.outcome.error == r.error && s.tables == t)
            && (!s.outcome.Failed? ==> s.tables.authors == r.value.authors)
            && (!s.outcome.Failed? ==> HasRevision(s.tables.commits, repo, c.revision))
            && (s.outcome.Duplicate? <==> ResolveAuthor(t.authors, c.author, c.authorEmail).Ok?
                                          && HasRevision(t.commits, repo, c.revision))
            && (s.outcome.Duplicate? ==> s.tables.commits == t.commits)
            && (s.outcome.Stored? ==>
                  && |s.tables.commits| == |t.commits| + 1
                  && s.tables.commits[..|t.commits|] == t.commits
                  && var row := s.tables.commits[|t.commits|];
                     row.repository == repo && row.revision == c.revision && row.time == c.timestamp
                     && row.comment == c.message && row.author == r.value.authorId
                     && SoleAccount(s.tables.authors, c.author, row.author))
  {
    var s := StoreOne(repo, t, c);
    ResolveAuthorSole(t.authors, c.author, c.authorEmail);
    if s.outcome.Stored? {
      assert s.tables.commits[|t.commits|].revision == c.revision;
    }
  }

  /**
   * `store_commit` as written differs from the intended store exactly for a
   * commit with no email whose account no author has: it reports a failure
   * (UnboundLocalError, swallowed by its `except`) and writes nothing, where
   * the intended store goes on with a new author.
   */
  lemma StoreOneAsWrittenDiffers(repo: nat, t: Tables, c: VcsCommit)
    ensures c.authorEmail == "" && !HasAccount(t.authors, c.author) ==>
              && StoreOneAsWritten(repo, t, c) == Step(Failed(UnboundLocalError), t)
              && !StoreOne(repo, t, c).outcome.Failed?
    ensures c.authorEmail != "" || HasAccount(t.authors, c.author) ==>
              StoreOneAsWritten(repo, t, c) == StoreOne(repo, t, c)
  {
    AsWrittenFailsForNewAccountWithoutEmail(t.authors, c.author, c.authorEmail);
  }

  /**
   * On an empty database, the first Subversion commit (which never has an
   * email) is lost by the code as written and stored by the intended code.
   */
  lemma FirstSvnCommitIsLost(repo: nat, c: VcsCommit)
    requires c.authorEmail == ""
    ensures StoreOneAsWritten(repo, Tables([], []), c) == Step(Failed(UnboundLocalError), Tables([], []))
    ensures StoreOne(repo, Tables([], []), c).outcome == Stored
  {
    var none: seq<Author> := [];
    assert !HasAccount(none, c.author);
    StoreOneAsWrittenDiffers(repo, Tables([], []), c);
  }

  /** Storing one commit keeps both tables valid and every commit's author in place. */
  lemma StoreOneKeepsValid(repo: nat, t: Tables, c: VcsCommit)
    requires Valid(t)
    ensures Valid(StoreOne(repo, t, c).tables)
  {
    var r := ResolveAuthor(t.authors, c.author, c.authorEmail);
    if r.Ok? {
      ResolveAuthorKeepsValid(t.authors, c.author, c.authorEmail);
      AuthorIdsKept(t.authors, r.value.authors, t.commits);
      if !HasRevision(t.commits, repo, c.revision) {
        ResolveAuthorSole(t.authors, c.author, c.authorEmail);
        var row := CommitLog(NextRowId(t.commits, CommitIdOf), repo, c.revision, c.timestamp, r.value.authorId, c.message);
        AppendCommitKeepsValid(t.commits, row);
        var k :| 0 <= k < |r.value.authors| && r.value.authors[k].id == r.value.authorId;
        assert StoreOne(repo, t, c).tables == Tables(r.value.authors, t.commits + [row]);
      }
    }
  }

  /** An author table that keeps every old row's id still has every author the commits point at. */
  lemma AuthorIdsKept(before: seq<Author>, after: seq<Author>, commits: seq<CommitLog>)
    requires forall i :: 0 <= i < |commits| ==> HasAuthorId(before, commits[i].author)
    requires |before| <= |after| && forall k :: 0 <= k < |before| ==> after[k].id == before[k].id
    ensures forall i :: 0 <= i < |commits| ==> HasAuthorId(after, commits[i].author)
  {
    forall i | 0 <= i < |commits| ensures HasAuthorId(after, commits[i].author) {
      var k :| 0 <= k < |before| && before[k].id == commits[i].author;
      assert after[k].id == commits[i].author;
    }
  }

  /** Appending a row with a fresh id and a revision its repository lacks keeps the commit log valid. */
  lemma AppendCommitKeepsValid(commits: seq<CommitLog>, row: CommitLog)
    requires ValidCommits(commits) && row.id == NextRowId(commits, CommitIdOf)
    requires !HasRevision(commits, row.repository, row.revision)
    ensures ValidCommits(commits + [row])
  {
    NextRowIdIsFresh(commits, CommitIdOf);
    var all := commits + [row];
    forall i | 0 <= i < |commits|
      ensures all[i].repository != row.repository || all[i].revision != row.revision
    {
      assert all[i] == commits[i];
    }
  }

  /** A valid table's watermark is the revision of its last row for the repository. */
  lemma {:induction false} LastStoredRevIsLastRow(commits: seq<CommitLog>, repo: nat, row: CommitLog)
    requires ValidCommits(commits + [row]) && row.repository == repo
    ensures LastStoredRev(commits + [row], repo) == Some(row.revision)
  {
    var all := commits + [row];
    assert all[..|commits|] == commits;
  }

  // ---- storing a batch ----

  /**
   * A batch only appends: the old commit rows stay as they were, one row is
   * added per stored commit, and stored and failed commits are at most the
   * batch.
   */
  lemma {:induction false} StoreAllAppends(repo: nat, t: Tables, cs: seq<VcsCommit>)
    ensures var b := StoreAll(repo, t, cs);
            && b.count + b.failures <= |cs|
            && |b.tables.commits| == |t.commits| + b.count
            && b.tables.commits[..|t.commits|] == t.commits
    decreases |cs|
  {
    if cs != [] {
      var prev := StoreAll(repo, t, cs[..|cs| - 1]);
      StoreAllAppends(repo, t, cs[..|cs| - 1]);
      StoreOneEffect(repo, prev.tables, cs[|cs| - 1]);
      var b := StoreAll(repo, t, cs);
      if b.count > prev.count {
        assert b.tables.commits[..|prev.tables.commits|] == prev.tables.commits;
        assert b.tables.commits[..|t.commits|] == prev.tables.commits[..|t.commits|];
      }
    }
  }

  /** A batch keeps both tables valid. */
  lemma {:induction false} StoreAllKeepsValid(repo: nat, t: Tables, cs: seq<VcsCommit>)
    requires Valid(t)
    ensures Valid(StoreAll(repo, t, cs).tables)
    decreases |cs|
  {
    if cs != [] {
      StoreAllKeepsValid(repo, t, cs[..|cs| - 1]);
      StoreOneKeepsValid(repo, StoreAll(repo, t, cs[..|cs| - 1]).tables, cs[|cs| - 1]);
    }
  }

  /** Storing only commits whose revisions are all present stores nothing and leaves the commit log as it was. */
  lemma {:induction false} StoreAllPresentStoresNothing(repo: nat, t: Tables, cs: seq<VcsCommit>)
    requires forall c <- cs :: HasRevision(t.commits, repo, c.revision)
    ensures StoreAll(repo, t, cs).count == 0
    ensures StoreAll(repo, t, cs).tables.commits == t.commits
    decreases |cs|
  {
    if cs != [] {
      var init := cs[..|cs| - 1];
      assert forall c <- init :: c in cs;
      StoreAllPresentStoresNothing(repo, t, init);
      var prev := StoreAll(repo, t, init);
      assert cs[|cs| - 1] in cs;
      StoreOneEffect(repo, prev.tables, cs[|cs| - 1]);
    }
  }

  /** After a batch with no failures, every revision of the batch is in the commit log. */
  lemma {:induction false} StoreAllRecordsBatch(repo: nat, t: Tables, cs: seq<VcsCommit>)
    requires StoreAll(repo, t, cs).failures == 0
    ensures forall c <- cs :: HasRevision(StoreAll(repo, t, cs).tables.commits, repo, c.revision)
    decreases |cs|
  {
    if cs != [] {
      var init := cs[..|cs| - 1];
      var last := cs[|cs| - 1];
      StoreAllRecordsBatch(repo, t, init);
      var prev := StoreAll(repo, t, init);
      StoreOneEffect(repo, prev.tables, last);
      var after := StoreAll(repo, t, cs).tables.commits;
      assert after[..|prev.tables.commits|] == prev.tables.commits;
      forall c <- cs ensures HasRevision(after, repo, c.revision) {
        if c != last {
          assert c in init;
          var k :| 0 <= k < |prev.tables.commits| && prev.tables.commits[k].repository == repo
                   && prev.tables.commits[k].revision == c.revision;
          assert after[k] == prev.tables.commits[k];
        }
      }
    }
  }

  /**
   * Storing the same batch twice: when the first pass had no failures, the
   * second stores nothing and leaves the commit log as it was.
   */
  lemma StoreAllTwiceStoresNothing(repo: nat, t: Tables, cs: seq<VcsCommit>)
    requires StoreAll(repo, t, cs).failures == 0
    ensures var once := StoreAll(repo, t, cs).tables;
            StoreAll(repo, once, cs).count == 0 && StoreAll(repo, once, cs).tables.commits == once.commits
  {
    StoreAllRecordsBatch(repo, t, cs);
    StoreAllPresentStoresNothing(repo, StoreAll(repo, t, cs).tables, cs);
  }

  // ---- a batch whose second pass stores more ----

  /** Two authors sharing the account "bob", and a batch of a "bob" commit and a commit by the first one's email. */
  const SharedAccount: seq<Author> := [Author(1, "bob", "bob", "x@e"), Author(2, "bob", "bob", "y@e")]
  const ByBob: VcsCommit := VcsCommit("1", "bob", "", 0, "", [])
  const ByCarol: VcsCommit := VcsCommit("2", "carol", "x@e", 0, "", [])

  /** The tables after the first pass: the first author renamed to "carol", and her commit stored. */
  const AfterFirstPass: Tables :=
    Tables([Author(1, "carol", "bob", "x@e"), Author(2, "bob", "bob", "y@e")], [CommitLog(1, 1, "2", 0, 1, "")])

  lemma FirstPassSteps()
    ensures StoreOne(1, Tables(SharedAccount, []), ByBob) == Step(Failed(MultipleObjectsReturned), Tables(SharedAccount, []))
    ensures StoreOne(1, Tables(SharedAccount, []), ByCarol) == Step(Stored, AfterFirstPass)
  {
    assert Get(SharedAccount, AccountOf, "bob") == Multiple;
    assert Get(SharedAccount, AccountOf, "carol") == NotFound;
    assert Get(SharedAccount, EmailOf, "x@e") == Found(0);
    assert SharedAccount[0 := Saved(SharedAccount[0].(account := "carol"))] == AfterFirstPass.authors;
  }

  lemma SecondPassSteps()
    ensures StoreOne(1, AfterFirstPass, ByBob).outcome == Stored
    ensures StoreOne(1, StoreOne(1, AfterFirstPass, ByBob).tables, ByCarol).outcome == Duplicate
  {
    var authors := AfterFirstPass.authors;
    assert Get(authors, AccountOf, "bob") == Found(1);
    assert !HasRevision(AfterFirstPass.commits, 1, "1");
    var t := StoreOne(1, AfterFirstPass, ByBob).tables;
    assert t.authors == authors;
    assert Get(authors, AccountOf, "carol") == Found(0);
    assert t.commits[0] == CommitLog(1, 1, "2", 0, 1, "");
    assert HasRevision(t.commits, 1, "2");
  }

  /**
   * Without the no-failure condition a second pass can store more: the
   * first commit fails because two authors share its account, the second
   * renames one of them by email, and on the second pass the account is
   * no longer ambiguous, so the first commit is stored.
   */
  lemma StoreAllTwiceCanStoreMore()
    ensures Valid(Tables(SharedAccount, []))
    ensures var once := StoreAll(1, Tables(SharedAccount, []), [ByBob, ByCarol]);
            once.failures == 1 && StoreAll(1, once.tables, [ByBob, ByCarol]).count == 1
  {
    assert SharedAccount[0].email != SharedAccount[1].email;
    FirstPassSteps();
    StoreAllPair(1, Tables(SharedAccount, []), ByBob, ByCarol);
    SecondPassSteps();
    StoreAllPair(1, AfterFirstPass, ByBob, ByCarol);
  }

  /** A batch of two commits is the first store followed by the second. */
  lemma StoreAllPair(repo: nat, t: Tables, a: VcsCommit, b: VcsCommit)
    ensures var s1 := StoreOne(repo, t, a);
            var s2 := StoreOne(repo, s1.tables, b);
            StoreAll(repo, t, [a, b])
              == Batch((if s1.outcome.Stored? then 1 else 0) + (if s2.outcome.Stored? then 1 else 0),
                       (if s1.outcome.Failed? then 1 else 0) + (if s2.outcome.Failed? then 1 else 0),
                       s2.tables)
  {
    var s1 := StoreOne(repo, t, a);
    assert [a, b][..1] == [a] && [a][..0] == [];
    assert StoreAll(repo, t, []) == Batch(0, 0, t);
    assert StoreAll(repo, t, [a]) == Batch(if s1.outcome.Stored? then 1 else 0, if s1.outcome.Failed? then 1 else 0, s1.tables);
  }

  /**
   * The watermark after a batch: unchanged when nothing was stored, and
   * otherwise the revision of one of the batch's commits (the last one
   * stored, by WatermarkAfterStep).
   */
  lemma {:induction false} WatermarkAfterBatch(repo: nat, t: Tables, cs: seq<VcsCommit>)
    requires Valid(t)
    ensures var b := StoreAll(repo, t, cs);
            && (b.count == 0 ==> LastStoredRev(b.tables.commits, repo) == LastStoredRev(t.commits, repo))
            && (b.count > 0 ==> exists j :: 0 <= j < |cs| && LastStoredRev(b.tables.commits, repo) == Some(cs[j].revision))
    decreases |cs|
  {
    if cs != [] {
      var init := cs[..|cs| - 1];
      var last := cs[|cs| - 1];
      WatermarkAfterBatch(repo, t, init);
      StoreAllKeepsValid(repo, t, init);
      var prev := StoreAll(repo, t, init);
      WatermarkAfterStep(repo, prev.tables, last);
      if !StoreOne(repo, prev.tables, last).outcome.Stored? && prev.count > 0 {
        var j :| 0 <= j < |init| && LastStoredRev(prev.tables.commits, repo) == Some(init[j].revision);
        assert init[j] == cs[j];
      }
    }
  }

  /** A stored commit becomes the repository's watermark; any other outcome leaves the commit log alone. */
  lemma WatermarkAfterStep(repo: nat, t: Tables, c: VcsCommit)
    requires Valid(t)
    ensures var s := StoreOne(repo, t, c);
            && (s.outcome.Stored? ==> LastStoredRev(s.tables.commits, repo) == Some(c.revision))
            && (!s.outcome.Stored? ==> s.tables.commits == t.commits)
  {
    StoreOneEffect(repo, t, c);
    if StoreOne(repo, t, c).outcome.Stored? {
      StoreOneKeepsValid(repo, t, c);
      var after := StoreOne(repo, t, c).tables.commits;
      var n := |t.commits|;
      assert after == t.commits + [after[n]];
      LastStoredRevIsLastRow(t.commits, repo, after[n]);
    }
  }

  /**
   * When every commit of a batch is stored, the watermark is the revision of
   * the batch's last commit. Git yields the newest commit first, so after a
   * Git sync the watermark is the oldest of the new commits.
   */
  lemma WatermarkIsLastOfBatch(repo: nat, t: Tables, cs: seq<VcsCommit>)
    requires Valid(t) && cs != [] && StoreAll(repo, t, cs).count == |cs|
    ensures LastStoredRev(StoreAll(repo, t, cs).tables.commits, repo) == Some(cs[|cs| - 1].revision)
  {
    var init := cs[..|cs| - 1];
    var last := cs[|cs| - 1];
    StoreAllAppends(repo, t, init);
    StoreAllKeepsValid(repo, t, init);
    var prev := StoreAll(repo, t, init);
    assert StoreOne(repo, prev.tables, last).outcome.Stored?;
    WatermarkAfterStep(repo, prev.tables, last);
  }

  // ---- display ----

  /** `get_short_revision`: "r" and the number for Subversion, the first eight characters of a hash otherwise. */
  function ShortRevision(kind: VcsKind, revision: string): (r: string)
    ensures kind.Svn? ==> |r| == |revision| + 1 && r[0] == 'r' && r[1..] == revision
    ensures !kind.Svn? ==> IsPrefix(r, revision) && |r| == (if |revision| < 8 then |revision| else 8)
  {
    if kind.Svn? then "r" + revision else Take(revision, 8)
  }

  /** `CommitLog.__str__`: like the short revision, with "..." after a shortened hash. */
  function Label(kind: VcsKind, revision: string): (r: string)
    ensures kind.Svn? ==> r == ShortRevision(kind, revision)
    ensures !kind.Svn? ==> r == ShortRevision(kind, revision) + "..."
  {
    if kind.Svn? then "r" + revision else Take(revision, 8) + "..."
  }

  /**
   * `get_commit_url`: nothing without a source-view URL; otherwise the
   * Subversion revision view, or the GitHub/GitLab-style commit page.
   */
  function CommitUrl(kind: VcsKind, sourceview: Option<string>, revision: string): (r: Option<string>)
    ensures r.None? <==> !Truthy(sourceview)
  {
    if !Truthy(sourceview) then None
    else if kind.Svn? then Some(sourceview.value + "?view=revision&revision=" + revision)
    else Some(sourceview.value + "/commit/" + revision)
  }

  /** A commit URL starts with the source-view URL and ends with the full revision. */
  lemma CommitUrlShape(kind: VcsKind, sourceview: Option<string>, revision: string)
    requires Truthy(sourceview)
    ensures var u := CommitUrl(kind, sourceview, revision).value;
            && |u| >= |sourceview.value| + |revision|
            && u[..|sourceview.value|] == sourceview.value
            && u[|u| - |revision|..] == revision
  {
  }

  /** Different revisions of one repository get different commit URLs. */
  lemma CommitUrlInjective(kind: VcsKind, sourceview: Option<string>, r1: string, r2: string)
    requires Truthy(sourceview) && CommitUrl(kind, sourceview, r1) == CommitUrl(kind, sourceview, r2)
    ensures r1 == r2
  {
    var sep := if kind.Svn? then "?view=revision&revision=" else "/commit/";
    var p := sourceview.value + sep;
    assert (p + r1)[|p|..] == r1;
    assert (p + r2)[|p|..] == r2;
  }
}
