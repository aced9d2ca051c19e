/**
 * What every VCS back end shares: the commit record handed to the ingestor,
 * the author-name normalisation rule, and the "what is new since the
 * watermark" dispatch over a back end's `get_latest_revision` / `get_commits`.
 */
module VcsBase {
  import opened Outcomes
  import opened Text

  /** Commit and sync times are uninterpreted instants; only equality and copying matter here. */
  type Timestamp = int

  /** The `vcs_type` column: 'svn', 'git', or any other value the table may hold. */
  datatype VcsKind = Svn | Git | Other(name: string)

  /** The VCS-neutral commit record a back end returns. */
  datatype VcsCommit = VcsCommit(
    revision: string,
    author: string,
    authorEmail: string,
    timestamp: Timestamp,
    message: string,
    filesChanged: seq<string>)

  /** Python truthiness of an optional string: `None` and `''` are both false. */
  predicate Truthy(s: Option<string>) {
    s.Some? && s.value != ""
  }

  /**
   * The record's constructor: a missing timestamp becomes the current time
   * and a missing file list the empty list; every other field is kept.
   */
  function NewVcsCommit(revision: string, author: string, authorEmail: string, timestamp: Option<Timestamp>,
                        message: string, filesChanged: Option<seq<string>>, now: Timestamp): (c: VcsCommit)
    ensures c.revision == revision && c.author == author && c.authorEmail == authorEmail && c.message == message
    ensures timestamp.Some? ==> c.timestamp == timestamp.value
    ensures timestamp.None? ==> c.timestamp == now
    ensures filesChanged.None? ==> c.filesChanged == []
    ensures filesChanged.Some? ==> c.filesChanged == filesChanged.value
  {
    VcsCommit(revision, author, authorEmail,
              match timestamp case Some(t) => t case None => now,
              message,
              match filesChanged case Some(f) => f case None => [])
  }

  // ---- author normalisation ----

  /** The name to clean: the local part of the email when the author field is empty or is the email itself. */
  function RawName(author: string, email: string): string {
    if email != "" && '@' in email && (author == "" || author == email) then BeforeFirst(email, '@')
    else author
  }

  /** Remove one surrounding `<`...`>` pair (a one-character string cannot both start with `<` and end with `>`). */
  function Unbracket(a: string): string {
    if |a| >= 2 && a[0] == '<' && a[|a| - 1] == '>' then a[1..|a| - 1] else a
  }

  /**
   * `normalize_author`: pick the raw name, strip whitespace, drop one pair of
   * angle brackets (with no second strip), and fall back to "unknown".
   */
  function NormalizeAuthor(author: string, email: string): (r: string)
    ensures r != ""
  {
    var cleaned := Unbracket(Strip(RawName(author, email)));
    if cleaned == "" then "unknown" else cleaned
  }

  /** The normalised name is either "unknown" or a piece of the author field or of the email. */
  lemma NormalizeAuthorFromInput(author: string, email: string)
    ensures var r := NormalizeAuthor(author, email);
            r == "unknown" || Contains(author, r) || Contains(email, r)
  {
    var raw := RawName(author, email);
    var cleaned := Unbracket(Strip(raw));
    if cleaned != "" {
      assert NormalizeAuthor(author, email) == cleaned;
      var k := CleanedOffset(raw);
      if raw == author {
        ContainsAt(author, cleaned, k);
      } else {
        BeforeFirstIsPrefix(email, '@');
        assert IsPrefix(raw, email);
        assert email[k..k + |cleaned|] == raw[k..k + |cleaned|];
        ContainsAt(email, cleaned, k);
      }
    }
  }

  /** Stripping and unbracketing keep a contiguous piece of the raw name. */
  lemma CleanedOffset(raw: string) returns (k: nat)
    ensures var c := Unbracket(Strip(raw));
            k + |c| <= |raw| && raw[k..k + |c|] == c
  {
    var stripped := Strip(raw);
    var cleaned := Unbracket(stripped);
    var i := StripStart(raw);
    StripSlice(raw);
    var j := UnbracketOffset(stripped);
    assert stripped == raw[i..i + |stripped|];
    SliceOfSlice(raw, i, |stripped|, j, |cleaned|);
    k := i + j;
  }

  /** Where the result of `Unbracket` starts inside its argument. */
  lemma UnbracketOffset(a: string) returns (j: nat)
    ensures j + |Unbracket(a)| <= |a| && Unbracket(a) == a[j..j + |Unbracket(a)|]
  {
    if Unbracket(a) == a {
      j := 0;
    } else if Unbracket(a) == "" {
      j := 0;
    } else {
      j := 1;
    }
  }

  /**
   * An author field that is empty or is the email `local@domain` itself is
   * named by the local part, when that part is clean (no whitespace at
   * either end, no leading `<`).
   */
  lemma NormalizeAuthorUsesLocalPart(author: string, local: string, domain: string)
    requires author == "" || author == local + "@" + domain
    requires '@' !in local && local != ""
    requires !IsSpace(local[0]) && !IsSpace(local[|local| - 1]) && local[0] != '<'
    ensures NormalizeAuthor(author, local + "@" + domain) == local
  {
    var email := local + "@" + domain;
    assert RawName(author, email) == RawName("", email);
    var raw := BeforeFirst(email, '@');
    BeforeFirstIsPrefix(email, '@');
    assert email[|local|] == '@';
    assert raw == email[..|local|] == local;
    StripCleanIsIdentity(local);
  }

  /** A string with no whitespace at either end is its own `strip()`. */
  lemma StripCleanIsIdentity(s: string)
    requires s != [] && !IsSpace(s[0]) && !IsSpace(s[|s| - 1])
    ensures Strip(s) == s
  {
    assert LeadingSpaces(s) == 0;
    assert StripLeft(s) == s;
    assert TrailingSpaces(s) == 0;
  }

  /**
   * Brackets are removed after the strip and nothing strips again: a
   * bracketed name with no email comes out exactly as written between the
   * brackets, inner whitespace included ("< x >" becomes " x "), and
   * empty brackets give "unknown".
   */
  lemma NormalizeAuthorNoSecondStrip(x: string)
    ensures NormalizeAuthor("<" + x + ">", "") == if x == "" then "unknown" else x
  {
    var a := "<" + x + ">";
    assert a[0] == '<' && a[|a| - 1] == '>';
    StripCleanIsIdentity(a);
    assert a[1..|a| - 1] == x;
  }

  // ---- the new-commit dispatch ----

  /**
   * `get_new_commits(last)`: ask for the latest revision; with no watermark
   * fetch up to it, with the watermark equal to it fetch nothing, otherwise
   * fetch from the watermark to it. Any exception yields no commits.
   * `getCommits(start, end)` is the back end's `get_commits`.
   */
  function GetNewCommits(last: Option<string>, latest: Result<string>,
                         getCommits: (Option<string>, Option<string>) -> Result<seq<VcsCommit>>): (r: seq<VcsCommit>)
    ensures latest.Err? ==> r == []
    ensures latest.Ok? && !Truthy(last) ==> r == OrEmpty(getCommits(None, Some(latest.value)))
    ensures latest.Ok? && Truthy(last) && last.value == latest.value ==> r == []
    ensures latest.Ok? && Truthy(last) && last.value != latest.value ==> r == OrEmpty(getCommits(last, Some(latest.value)))
  {
    match latest
    case Err(_) => []
    case Ok(head) =>
      if !Truthy(last) then OrEmpty(getCommits(None, Some(head)))
      else if last.value == head then []
      else OrEmpty(getCommits(last, Some(head)))
  }
}
