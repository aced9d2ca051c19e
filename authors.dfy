/**
 * The author table and `get_or_create_author`: find the author of a commit
 * by account name, else by email (renaming the account), else create one.
 * Rows are kept in id order; `Author.save` fills an empty display name.
 */
module Authors {
  import opened Outcomes
  import opened Orm

  /** A row of the author table. */
  datatype Author = Author(id: nat, account: string, display: string, email: string)

  function AccountOf(a: Author): string { a.account }

  function EmailOf(a: Author): string { a.email }

  /** `Author.save`: an empty display name becomes the account name; nothing else changes. */
  function Saved(a: Author): (r: Author)
    ensures r.id == a.id && r.account == a.account && r.email == a.email
    ensures a.display == "" ==> r.display == a.account
    ensures r.display == "" <==> a.display == "" && a.account == ""
    ensures a.display != "" ==> r.display == a.display
  {
    if a.display == "" then a.(display := a.account) else a
  }

  /** Ids grow with insertion order, start at 1, and no two rows share both account and email. */
  predicate Valid(authors: seq<Author>) {
    && (forall i, j :: 0 <= i < j < |authors| ==> authors[i].id < authors[j].id)
    && (forall i :: 0 <= i < |authors| ==> authors[i].id > 0)
    && (forall i, j :: 0 <= i < j < |authors| ==>
          authors[i].account != authors[j].account || authors[i].email != authors[j].email)
  }

  function IdOf(a: Author): nat { a.id }

  /** Some row has this account name. */
  predicate HasAccount(authors: seq<Author>, account: string) {
    exists k :: 0 <= k < |authors| && authors[k].account == account
  }

  /** Exactly one row has this account name, and it has id `id`. */
  predicate SoleAccount(authors: seq<Author>, account: string, id: nat) {
    exists k :: 0 <= k < |authors| && authors[k].id == id && authors[k].account == account
      && forall m :: 0 <= m < |authors| && m != k ==> authors[m].account != account
  }

  /** At least two rows carry `v` in the field `key` reads. */
  predicate Ambiguous(authors: seq<Author>, key: Author -> string, v: string) {
    exists i, j :: 0 <= i < j < |authors| && key(authors[i]) == v && key(authors[j]) == v
  }

  /** The author a commit is attributed to, and the author table afterwards. */
  datatype Resolution = Resolution(authorId: nat, authors: seq<Author>)

  /** Insert a new author named after its account. */
  function Create(authors: seq<Author>, account: string, email: string): Result<Resolution> {
    var id := NextRowId(authors, IdOf);
    Ok(Resolution(id, authors + [Saved(Author(id, account, account, email))]))
  }

  /** Give the author found by email the commit's account name, and save it. */
  function Rename(authors: seq<Author>, i: nat, account: string): Result<Resolution>
    requires i < |authors|
  {
    var a := authors[i];
    if a.account != account then Ok(Resolution(a.id, authors[i := Saved(a.(account := account))]))
    else Ok(Resolution(a.id, authors))
  }

  /**
   * `get_or_create_author` as written: when no row has the account and the
   * email is empty, nothing ever binds `author`, so the test that follows
   * raises UnboundLocalError.
   */
  function ResolveAuthorAsWritten(authors: seq<Author>, account: string, email: string): (r: Result<Resolution>)
    ensures r.Err? ==> r.error == MultipleObjectsReturned || r.error == UnboundLocalError
  {
    match Get(authors, AccountOf, account)
    case Found(i) => Ok(Resolution(authors[i].id, authors))
    case Multiple => Err(MultipleObjectsReturned)
    case NotFound =>
      if email == "" then Err(UnboundLocalError)
      else
        match Get(authors, EmailOf, email)
        case Found(i) => Rename(authors, i, account)
        case Multiple => Err(MultipleObjectsReturned)
        case NotFound => Create(authors, account, email)
  }

  /**
   * `get_or_create_author` as evidently intended, and as the rest of the
   * model uses it: by account; else, with an email, by email (renaming the
   * account); else create. A `get` that matches several rows raises.
   */
  function ResolveAuthor(authors: seq<Author>, account: string, email: string): (r: Result<Resolution>)
    ensures r.Err? ==> r.error == MultipleObjectsReturned
  {
    match Get(authors, AccountOf, account)
    case Found(i) => Ok(Resolution(authors[i].id, authors))
    case Multiple => Err(MultipleObjectsReturned)
    case NotFound =>
      if email == "" then Create(authors, account, email)
      else
        match Get(authors, EmailOf, email)
        case Found(i) => Rename(authors, i, account)
        case Multiple => Err(MultipleObjectsReturned)
        case NotFound => Create(authors, account, email)
  }

  // ---- the finding ----

  /**
   * The code as written differs from the intended resolution exactly for a
   * new account with no email (every Subversion author, who never has one):
   * it raises where a new author should be created.
   */
  lemma AsWrittenFailsForNewAccountWithoutEmail(authors: seq<Author>, account: string, email: string)
    ensures email == "" && !HasAccount(authors, account) ==>
              ResolveAuthorAsWritten(authors, account, email) == Err(UnboundLocalError)
              && ResolveAuthor(authors, account, email).Ok?
    ensures email != "" || HasAccount(authors, account) ==>
              ResolveAuthorAsWritten(authors, account, email) == ResolveAuthor(authors, account, email)
  {
    var g := Get(authors, AccountOf, account);
    if g.NotFound? {
      assert !HasAccount(authors, account);
    } else {
      assert HasAccount(authors, account) by {
        if g.Found? {
          assert authors[g.index].account == account;
        } else {
          var i, j :| 0 <= i < j < |authors| && AccountOf(authors[i]) == account && AccountOf(authors[j]) == account;
          assert authors[i].account == account;
        }
      }
    }
  }

  /** The smallest input that shows it: the first commit of a new Subversion author. */
  lemma FirstSvnAuthorIsLost()
    ensures ResolveAuthorAsWritten([], "alice", "") == Err(UnboundLocalError)
    ensures ResolveAuthor([], "alice", "") == Ok(Resolution(1, [Author(1, "alice", "alice", "")]))
  {
    var none: seq<Author> := [];
    assert Get(none, AccountOf, "alice") == NotFound;
    assert Saved(Author(1, "alice", "alice", "")) == Author(1, "alice", "alice", "");
    assert none + [Author(1, "alice", "alice", "")] == [Author(1, "alice", "alice", "")];
  }

  // ---- properties of the intended resolution ----

  /** Resolution fails exactly when a lookup is ambiguous: by account, or (no account match and an email) by email. */
  lemma ResolveAuthorFails(authors: seq<Author>, account: string, email: string)
    ensures ResolveAuthor(authors, account, email).Err? <==>
              Ambiguous(authors, AccountOf, account)
              || (!HasAccount(authors, account) && email != "" && Ambiguous(authors, EmailOf, email))
  {
    var g := Get(authors, AccountOf, account);
    if g.Found? {
      assert HasAccount(authors, account) by { assert authors[g.index].account == account; }
      assert !Ambiguous(authors, AccountOf, account);
    } else if g.NotFound? {
      assert !HasAccount(authors, account);
      if email != "" {
        var h := Get(authors, EmailOf, email);
        if h.Found? {
          assert !Ambiguous(authors, EmailOf, email);
        }
      }
    } else {
      var i, j :| 0 <= i < j < |authors| && AccountOf(authors[i]) == account && AccountOf(authors[j]) == account;
      assert Ambiguous(authors, AccountOf, account);
    }
  }

  /** After a successful resolution exactly one row has the commit's account, and it is the resolved author. */
  lemma ResolveAuthorSole(authors: seq<Author>, account: string, email: string)
    ensures var r := ResolveAuthor(authors, account, email);
            r.Ok? ==> SoleAccount(r.value.authors, account, r.value.authorId)
  {
    match Get(authors, AccountOf, account)
    case Found(i) =>
      assert authors[i].account == account;
    case Multiple =>
    case NotFound =>
      if email != "" && Get(authors, EmailOf, email).Found? {
        var i := Get(authors, EmailOf, email).index;
        var r := Rename(authors, i, account).value;
        assert r.authors[i].account == account && r.authors[i].id == r.authorId;
      } else if email == "" || Get(authors, EmailOf, email).NotFound? {
        var r := Create(authors, account, email).value;
        assert r.authors[|authors|].account == account && r.authors[|authors|].id == r.authorId;
      }
  }

  /**
   * What resolution does to the table, case by case: an author found by
   * account leaves it unchanged; with no account match, an author found by
   * email gets the commit's account name and is saved; with no account
   * match and no email, or no email match, one new row named after the
   * account and carrying the email is appended with a fresh id.
   */
  lemma ResolveAuthorChanges(authors: seq<Author>, account: string, email: string)
    ensures var r := ResolveAuthor(authors, account, email);
            && (HasAccount(authors, account) && r.Ok? ==>
                  r.value.authors == authors)
            && (!HasAccount(authors, account) && email != "" && Get(authors, EmailOf, email).Found? ==>
                  var i := Get(authors, EmailOf, email).index;
                  r == Ok(Resolution(authors[i].id, authors[i := Saved(authors[i].(account := account))])))
            && (!HasAccount(authors, account) && (email == "" || Get(authors, EmailOf, email).NotFound?) ==>
                  var id := NextRowId(authors, IdOf);
                  r == Ok(Resolution(id, authors + [Author(id, account, account, email)])))
  {
    match Get(authors, AccountOf, account)
    case Found(i) =>
    case Multiple =>
    case NotFound =>
      assert !HasAccount(authors, account);
      if email != "" && Get(authors, EmailOf, email).Found? {
        var i := Get(authors, EmailOf, email).index;
        assert authors[i].account != account;
      }
  }

  /** Resolution keeps the table valid and every existing row's id, and adds at most one row. */
  lemma ResolveAuthorKeepsValid(authors: seq<Author>, account: string, email: string)
    requires Valid(authors)
    ensures var r := ResolveAuthor(authors, account, email);
            r.Ok? ==>
              && Valid(r.value.authors)
              && |authors| <= |r.value.authors| <= |authors| + 1
              && (forall k :: 0 <= k < |authors| ==> r.value.authors[k].id == authors[k].id)
  {
    ResolveAuthorChanges(authors, account, email);
    if !HasAccount(authors, account) {
      if email != "" && Get(authors, EmailOf, email).Found? {
        RenameKeepsValid(authors, Get(authors, EmailOf, email).index, account);
      } else if email == "" || Get(authors, EmailOf, email).NotFound? {
        AppendKeepsValid(authors, Author(NextRowId(authors, IdOf), account, account, email));
      }
    }
  }

  /** Appending a row with a fresh id and an account no row has keeps the table valid. */
  lemma AppendKeepsValid(authors: seq<Author>, a: Author)
    requires Valid(authors) && a.id == NextRowId(authors, IdOf) && !HasAccount(authors, a.account)
    ensures Valid(authors + [a])
  {
    NextRowIdIsFresh(authors, IdOf);
    var t := authors + [a];
    forall i | 0 <= i < |authors| ensures t[i].account != t[|authors|].account {
      assert authors[i].account != a.account;
    }
  }

  /** Giving one row an account no row has, and saving it, keeps the table valid. */
  lemma RenameKeepsValid(authors: seq<Author>, i: nat, account: string)
    requires Valid(authors) && i < |authors| && !HasAccount(authors, account)
    ensures Valid(authors[i := Saved(authors[i].(account := account))])
  {
    var t := authors[i := Saved(authors[i].(account := account))];
    forall m | 0 <= m < |authors| && m != i ensures t[m].account != t[i].account {
      assert authors[m].account != account;
    }
  }

  /** Resolving the same account and email again finds the same author and changes nothing. */
  lemma ResolveAuthorIdempotent(authors: seq<Author>, account: string, email: string)
    requires ResolveAuthor(authors, account, email).Ok?
    ensures var r := ResolveAuthor(authors, account, email).value;
            ResolveAuthor(r.authors, account, email) == Ok(r)
  {
    var r := ResolveAuthor(authors, account, email).value;
    ResolveAuthorSole(authors, account, email);
    var k :| 0 <= k < |r.authors| && r.authors[k].id == r.authorId && r.authors[k].account == account
             && forall m :: 0 <= m < |r.authors| && m != k ==> r.authors[m].account != account;
    var g := Get(r.authors, AccountOf, account);
    assert !g.NotFound? by { assert AccountOf(r.authors[k]) == account; }
    assert g == Found(k);
  }
}
