/**
 * The computational parts of the Subversion back end: turning the optional
 * textual revision bounds into a numeric range, and turning the log entries
 * the Subversion library yields for that range into VCS-neutral records.
 * The server is the pair of oracles `head` (`getHeadRevNo`) and `log`
 * (iterating the revision log over a range).
 */
module SvnClient {
  import opened Outcomes
  import opened Text
  import opened VcsBase
  import opened Seqs

  /** One revision log entry as the Subversion library yields it. */
  datatype SvnLogEntry = SvnLogEntry(
    valid: bool,                    // `isvalid()`
    revno: int,
    author: Option<string>,         // the library may leave author or message unset
    date: Option<Timestamp>,
    message: Option<string>,
    changes: Result<seq<string>>)   // iterating the change entries may raise

  /** Python's `str()` of an attribute that may be None. */
  function PyStr(s: Option<string>): string {
    match s
    case Some(v) => v
    case None => "None"
  }

  /** `int(s) if s else None`. */
  function ParseOptional(s: Option<string>): Result<Option<int>> {
    if !Truthy(s) then Ok(None)
    else match ParseInt(s.value)
         case Ok(n) => Ok(Some(n))
         case Err(e) => Err(e)
  }

  /** Python's `not x` for an optional revision number: None and 0 are both false. */
  predicate Missing(n: Option<int>) {
    n.None? || n.value == 0
  }

  /**
   * The numeric range `get_commits` iterates: both bounds missing means the
   * last 100 revisions up to the head, a missing start means revision 1, a
   * missing end means the head. A bound that is not a number raises
   * ValueError, and asking for the head may raise too.
   */
  function ResolveRange(start: Option<string>, end: Option<string>, head: Result<int>): (r: Result<(int, int)>)
    ensures Truthy(start) && ParseInt(start.value).Err? ==> r == Err(ValueError)
    ensures Truthy(end) && ParseInt(end.value).Err? ==> r == Err(ValueError)
  {
    match ParseOptional(start)
    case Err(e) => Err(e)
    case Ok(s) =>
      match ParseOptional(end)
      case Err(e) => Err(e)
      case Ok(e) =>
        if Missing(s) && Missing(e) then
          match head
          case Ok(h) => Ok((if h - 100 >= 1 then h - 100 else 1, h))
          case Err(x) => Err(x)
        else if Missing(s) then Ok((1, e.value))
        else if Missing(e) then
          match head
          case Ok(h) => Ok((s.value, h))
          case Err(x) => Err(x)
        else Ok((s.value, e.value))
  }

  /**
   * One valid log entry as a VCS-neutral record: the revision number as
   * text, the normalised author, no email, the listed changed paths (none
   * when listing them raised).
   */
  function FromLogEntry(e: SvnLogEntry, now: Timestamp): (c: VcsCommit)
    ensures ParseInt(c.revision) == Ok(e.revno)
    ensures c.authorEmail == "" && c.author != ""
    ensures e.changes.Err? ==> c.filesChanged == []
  {
    ParseIntToString(e.revno);
    NewVcsCommit(IntToString(e.revno), NormalizeAuthor(PyStr(e.author), ""), "", e.date,
                 PyStr(e.message), Some(OrEmpty(e.changes)), now)
  }

  predicate IsValidEntry(e: SvnLogEntry) {
    e.valid
  }

  function Converter(now: Timestamp): SvnLogEntry -> VcsCommit {
    e => FromLogEntry(e, now)
  }

  /** The records built from the entries of a log, skipping invalid entries, in log order. */
  function Collected(entries: seq<SvnLogEntry>, now: Timestamp): seq<VcsCommit> {
    FilterMapPrefix(IsValidEntry, Converter(now), entries, |entries|)
  }

  /** What iterating a log gives: its records, or none when the iteration raised. */
  function LogCommits(log: Result<seq<SvnLogEntry>>, now: Timestamp): seq<VcsCommit> {
    match log
    case Ok(entries) => Collected(entries, now)
    case Err(_) => []
  }

  /** `get_commits` as a function of its arguments and the server: any exception gives no commits. */
  function Fetch(start: Option<string>, end: Option<string>, head: Result<int>,
                 log: (int, int) -> Result<seq<SvnLogEntry>>, now: Timestamp): seq<VcsCommit> {
    match ResolveRange(start, end, head)
    case Ok(range) => LogCommits(log(range.0, range.1), now)
    case Err(_) => []
  }

  /**
   * `get_commits`: resolve the range, then append one record per valid log
   * entry, in log order; any exception on the way gives the empty list.
   */
  method GetCommits(start: Option<string>, end: Option<string>, head: Result<int>,
                    log: (int, int) -> Result<seq<SvnLogEntry>>, now: Timestamp) returns (commits: seq<VcsCommit>)
    ensures commits == Fetch(start, end, head, log, now)
  {
    commits := [];
    var range := ResolveRange(start, end, head);
    if range.Err? {
      return;
    }
    var (first, last) := range.value;
    var entries := log(first, last);
    if entries.Err? {
      return;
    }
    var all := entries.value;
    var i := 0;
    while i < |all|
      invariant 0 <= i <= |all|
      invariant commits == FilterMapPrefix(IsValidEntry, Converter(now), all, i)
    {
      if all[i].valid {
        commits := commits + [FromLogEntry(all[i], now)];
      }
      i := i + 1;
    }
  }

  /** `get_latest_revision`: the head revision number as text. */
  function LatestRevision(head: Result<int>): (r: Result<string>)
    ensures head.Ok? ==> r.Ok? && ParseInt(r.value) == Ok(head.value)
    ensures head.Err? ==> r == Err(head.error)
  {
    match head
    case Ok(h) => ParseIntToString(h); Ok(IntToString(h))
    case Err(e) => Err(e)
  }

  /** The back end's `get_commits` as `get_new_commits` calls it; it never raises. */
  function Fetcher(head: Result<int>, log: (int, int) -> Result<seq<SvnLogEntry>>, now: Timestamp)
    : (Option<string>, Option<string>) -> Result<seq<VcsCommit>> {
    (s: Option<string>, e: Option<string>) => Ok(Fetch(s, e, head, log, now))
  }

  // ---- properties ----

  /** Two non-zero bounds written by `str()` are read back as exactly that range, whatever the head. */
  lemma ExplicitRange(first: int, last: int, head: Result<int>)
    requires first != 0 && last != 0
    ensures ResolveRange(Some(IntToString(first)), Some(IntToString(last)), head) == Ok((first, last))
  {
    ParseIntToString(first);
    ParseIntToString(last);
  }

  /** With neither bound, the range is the last 100 revisions before the head, never starting below 1. */
  lemma RecentRange(h: int)
    ensures ResolveRange(None, None, Ok(h)) == Ok((if h > 101 then h - 100 else 1, h))
  {
  }

  /** With only an end bound, the range starts at revision 1 and the head is not asked for. */
  lemma RangeFromFirst(last: int, head: Result<int>)
    requires last != 0
    ensures ResolveRange(None, Some(IntToString(last)), head) == Ok((1, last))
  {
    ParseIntToString(last);
  }

  /** With only a start bound, the range ends at the head; a failing head makes the fetch fail. */
  lemma RangeToHead(first: int, head: Result<int>)
    requires first != 0
    ensures head.Ok? ==> ResolveRange(Some(IntToString(first)), None, head) == Ok((first, head.value))
    ensures head.Err? ==> ResolveRange(Some(IntToString(first)), None, head) == Err(head.error)
  {
    ParseIntToString(first);
  }

  /** A start bound of "0" counts as missing, like no start at all. */
  lemma ZeroStartIsMissing(end: Option<string>, head: Result<int>)
    ensures ResolveRange(Some("0"), end, head) == ResolveRange(None, end, head)
  {
    assert ParseInt("0") == Ok(0) by {
      assert IsDigits("0");
      assert DigitsValue("0") == 0;
    }
  }

  /** `c` is the record of some valid entry of the log. */
  predicate FromValidEntry(c: VcsCommit, entries: seq<SvnLogEntry>, now: Timestamp) {
    exists j :: 0 <= j < |entries| && entries[j].valid && c == FromLogEntry(entries[j], now)
  }

  /**
   * The records of a log are exactly its valid entries: each record comes
   * from a valid entry, each valid entry gives a record, and no record
   * carries an email.
   */
  lemma CollectedFromValidEntries(entries: seq<SvnLogEntry>, now: Timestamp)
    ensures |Collected(entries, now)| <= |entries|
    ensures forall c <- Collected(entries, now) :: FromValidEntry(c, entries, now)
    ensures forall j :: 0 <= j < |entries| && entries[j].valid ==> FromLogEntry(entries[j], now) in Collected(entries, now)
    ensures forall c <- Collected(entries, now) :: c.authorEmail == "" && c.author != ""
  {
    var r := Collected(entries, now);
    var f := Converter(now);
    forall c <- r
      ensures FromValidEntry(c, entries, now) && c.authorEmail == "" && c.author != ""
    {
      var k :| 0 <= k < |r| && r[k] == c;
      var j := FilterMapPrefixFrom(IsValidEntry, f, entries, |entries|, k);
      assert entries[j].valid && c == FromLogEntry(entries[j], now);
    }
    forall j | 0 <= j < |entries| && entries[j].valid
      ensures FromLogEntry(entries[j], now) in r
    {
      var k := FilterMapPrefixKeeps(IsValidEntry, f, entries, |entries|, j);
    }
  }

  /**
   * The records keep the log's order, also when invalid entries are
   * skipped: of two records, the earlier comes from the earlier valid entry.
   */
  lemma CollectedInLogOrder(entries: seq<SvnLogEntry>, now: Timestamp, k1: nat, k2: nat) returns (j1: nat, j2: nat)
    requires k1 < k2 < |Collected(entries, now)|
    ensures j1 < j2 < |entries| && entries[j1].valid && entries[j2].valid
    ensures Collected(entries, now)[k1] == FromLogEntry(entries[j1], now)
    ensures Collected(entries, now)[k2] == FromLogEntry(entries[j2], now)
  {
    j1, j2 := FilterMapPrefixOrder(IsValidEntry, Converter(now), entries, |entries|, k1, k2);
  }

  /** A log of valid entries gives one record per entry, position by position. */
  lemma AllValidKeepsOrder(entries: seq<SvnLogEntry>, now: Timestamp)
    requires forall j :: 0 <= j < |entries| ==> entries[j].valid
    ensures |Collected(entries, now)| == |entries|
    ensures forall k :: 0 <= k < |entries| ==> Collected(entries, now)[k] == FromLogEntry(entries[k], now)
  {
    FilterMapPrefixAllPass(IsValidEntry, Converter(now), entries, |entries|);
    forall k | 0 <= k < |entries| ensures Collected(entries, now)[k] == FromLogEntry(entries[k], now) {
      MapPrefixAt(Converter(now), entries, |entries|, k);
    }
  }

  /**
   * With a numeric watermark behind the head, `get_new_commits` reads the
   * log from the watermark itself (inclusive) to the head.
   */
  lemma NewCommitsFromWatermark(watermark: int, h: int, log: (int, int) -> Result<seq<SvnLogEntry>>, now: Timestamp)
    requires watermark != 0 && h != 0 && watermark != h
    ensures GetNewCommits(Some(IntToString(watermark)), LatestRevision(Ok(h)), Fetcher(Ok(h), log, now))
            == LogCommits(log(watermark, h), now)
  {
    ParseIntToString(watermark);
    ParseIntToString(h);
    ExplicitRange(watermark, h, Ok(h));
  }

  /** A watermark equal to the head means nothing new, whatever the log holds. */
  lemma UpToDateReadsNothing(h: int, log: (int, int) -> Result<seq<SvnLogEntry>>, now: Timestamp)
    ensures GetNewCommits(Some(IntToString(h)), LatestRevision(Ok(h)), Fetcher(Ok(h), log, now)) == []
  {
  }
}
