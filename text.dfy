/**
 * The string operations of Python that the synchronisation code relies on:
 * `in`, `startswith`, `replace`, `strip`, `split(c)[0]`, slicing `s[:n]`,
 * and the `int(s)` / `str(n)` conversions of revision numbers.
 */
module Text {
  import opened Outcomes

  predicate IsPrefix(p: string, s: string) {
    |p| <= |s| && s[..|p|] == p
  }

  /** Python's `sub in s`: some slice of `s` equals `sub` (the empty string is in every string). */
  predicate Contains(s: string, sub: string)
    decreases |s|
  {
    IsPrefix(sub, s) || (|s| > 0 && Contains(s[1..], sub))
  }

  lemma {:induction false} ContainsAt(s: string, sub: string, i: nat)
    requires i + |sub| <= |s| && s[i..i + |sub|] == sub
    ensures Contains(s, sub)
    decreases i
  {
    if i > 0 {
      assert s[1..][i - 1..i - 1 + |sub|] == s[i..i + |sub|];
      ContainsAt(s[1..], sub, i - 1);
    }
  }

  lemma {:induction false} ContainsWitness(s: string, sub: string) returns (i: nat)
    requires Contains(s, sub)
    ensures i + |sub| <= |s| && s[i..i + |sub|] == sub
    decreases |s|
  {
    if IsPrefix(sub, s) {
      i := 0;
    } else {
      var j := ContainsWitness(s[1..], sub);
      assert s[1..][j..j + |sub|] == s[j + 1..j + 1 + |sub|];
      i := j + 1;
    }
  }

  /** Python's `s.replace(pat, rep)`: every non-overlapping occurrence, scanned left to right. */
  function ReplaceAll(s: string, pat: string, rep: string): string
    requires pat != ""
    decreases |s|
  {
    if |s| < |pat| then s
    else if s[..|pat|] == pat then rep + ReplaceAll(s[|pat|..], pat, rep)
    else [s[0]] + ReplaceAll(s[1..], pat, rep)
  }

  /** A string in which the pattern does not occur is returned unchanged by `replace`. */
  lemma {:induction false} ReplaceAbsent(s: string, pat: string, rep: string)
    requires pat != "" && !Contains(s, pat)
    ensures ReplaceAll(s, pat, rep) == s
    decreases |s|
  {
    if |s| >= |pat| {
      assert s[..|pat|] != pat;
      ReplaceAbsent(s[1..], pat, rep);
    }
  }

  /** A single leading occurrence is the only one rewritten: `(pat + rest).replace(pat, rep) == rep + rest`. */
  lemma ReplaceLeading(pat: string, rest: string, rep: string)
    requires pat != "" && !Contains(rest, pat)
    ensures ReplaceAll(pat + rest, pat, rep) == rep + rest
  {
    var s := pat + rest;
    assert s[..|pat|] == pat && s[|pat|..] == rest;
    ReplaceAbsent(rest, pat, rep);
  }

  /** Python's `str.isspace` on one character (ASCII whitespace and the ASCII separators). */
  predicate IsSpace(c: char) {
    c == ' ' || '\t' <= c <= '\r' || '\U{1C}' <= c <= '\U{1F}'
  }

  predicate AllSpace(s: string) {
    forall k :: 0 <= k < |s| ==> IsSpace(s[k])
  }

  /** How many whitespace characters `s` starts with. */
  function LeadingSpaces(s: string): (n: nat)
    ensures n <= |s|
    decreases |s|
  {
    if s != [] && IsSpace(s[0]) then 1 + LeadingSpaces(s[1..]) else 0
  }

  /** How many whitespace characters `s` ends with. */
  function TrailingSpaces(s: string): (n: nat)
    ensures n <= |s|
    decreases |s|
  {
    if s != [] && IsSpace(s[|s| - 1]) then 1 + TrailingSpaces(s[..|s| - 1]) else 0
  }

  lemma {:induction false} LeadingSpacesAreSpaces(s: string)
    ensures AllSpace(s[..LeadingSpaces(s)])
    ensures LeadingSpaces(s) < |s| ==> !IsSpace(s[LeadingSpaces(s)])
    decreases |s|
  {
    if s != [] && IsSpace(s[0]) {
      LeadingSpacesAreSpaces(s[1..]);
      assert s[..LeadingSpaces(s)] == [s[0]] + s[1..][..LeadingSpaces(s[1..])];
    }
  }

  lemma {:induction false} TrailingSpacesAreSpaces(s: string)
    ensures AllSpace(s[|s| - TrailingSpaces(s)..])
    ensures TrailingSpaces(s) < |s| ==> !IsSpace(s[|s| - TrailingSpaces(s) - 1])
    decreases |s|
  {
    if s != [] && IsSpace(s[|s| - 1]) {
      var p := s[..|s| - 1];
      TrailingSpacesAreSpaces(p);
      var t := TrailingSpaces(p);
      assert TrailingSpaces(s) == t + 1;
      var tail := s[|s| - (t + 1)..];
      assert tail == p[|p| - t..] + [s[|s| - 1]];
      forall k | 0 <= k < |tail| ensures IsSpace(tail[k]) {
        if k < t {
          assert tail[k] == p[|p| - t..][k];
        }
      }
    }
  }

  /** `s.lstrip()`. */
  function StripLeft(s: string): string {
    s[LeadingSpaces(s)..]
  }

  /** `s.rstrip()`. */
  function StripRight(s: string): string {
    s[..|s| - TrailingSpaces(s)]
  }

  /** `s.strip()`. */
  function Strip(s: string): string {
    StripRight(StripLeft(s))
  }

  /** Where `s.strip()` starts in `s`: the number of leading whitespace characters. */
  function StripStart(s: string): nat {
    LeadingSpaces(s)
  }

  /** `s.strip()` is a slice of `s` with only whitespace outside it and none at either end of it. */
  lemma StripSlice(s: string)
    ensures var r, i := Strip(s), StripStart(s);
            && i + |r| <= |s| && r == s[i..i + |r|]
            && AllSpace(s[..i]) && AllSpace(s[i + |r|..])
            && (r != [] ==> !IsSpace(r[0]) && !IsSpace(r[|r| - 1]))
  {
    var i := LeadingSpaces(s);
    var l := s[i..];
    var t := TrailingSpaces(l);
    LeadingSpacesAreSpaces(s);
    TrailingSpacesAreSpaces(l);
    var r := l[..|l| - t];
    assert Strip(s) == r && StripStart(s) == i;
    SuffixSlices(s, i, |r|);
    if r != [] {
      assert r[0] == l[0] == s[i];
      assert r[|r| - 1] == l[|l| - t - 1];
    }
  }

  /** Cutting a suffix of `s` at `m` gives the slices of `s` at `i + m`. */
  lemma SuffixSlices(s: string, i: nat, m: nat)
    requires i + m <= |s|
    ensures s[i..][..m] == s[i..i + m] && s[i..][m..] == s[i + m..]
  {
  }

  /** `s.split(c)[0]`: everything before the first `c`, or all of `s` when there is none. */
  function BeforeFirst(s: string, c: char): (r: string)
    ensures |r| <= |s|
    decreases |s|
  {
    if s == [] || s[0] == c then "" else [s[0]] + BeforeFirst(s[1..], c)
  }

  /** `s.split(c)[0]` is the longest prefix of `s` without `c`. */
  lemma {:induction false} BeforeFirstIsPrefix(s: string, c: char)
    ensures var r := BeforeFirst(s, c);
            IsPrefix(r, s) && c !in r && (|r| < |s| ==> s[|r|] == c)
    decreases |s|
  {
    if s != [] && s[0] != c {
      BeforeFirstIsPrefix(s[1..], c);
    }
  }

  /** Python's slice `s[:n]`. */
  function Take(s: string, n: nat): (r: string)
    ensures |r| <= n && IsPrefix(r, s)
    ensures |s| >= n ==> |r| == n
    ensures |s| < n ==> r == s
  {
    if |s| <= n then s else s[..n]
  }

  // ---- decimal numbers: `str(n)` and `int(s)` ----

  predicate IsDigit(c: char) { '0' <= c <= '9' }

  predicate IsDigits(s: string) {
    s != [] && forall k :: 0 <= k < |s| ==> IsDigit(s[k])
  }

  function DigitChar(d: nat): char
    requires d < 10
  {
    "0123456789"[d]
  }

  function DigitValue(c: char): nat
    requires IsDigit(c)
  {
    (c as int - '0' as int) as nat
  }

  /** `str(n)` for a non-negative integer: its shortest decimal spelling. */
  function NatToString(n: nat): (r: string)
    ensures IsDigits(r)
    decreases n
  {
    if n < 10 then [DigitChar(n)] else NatToString(n / 10) + [DigitChar(n % 10)]
  }

  /** `str(n)` for any integer. */
  function IntToString(n: int): string {
    if n < 0 then "-" + NatToString(-n) else NatToString(n)
  }

  /** The value of a non-empty string of decimal digits. */
  function DigitsValue(s: string): nat
    requires IsDigits(s)
    decreases |s|
  {
    if |s| == 1 then DigitValue(s[0])
    else DigitsValue(s[..|s| - 1]) * 10 + DigitValue(s[|s| - 1])
  }

  /**
   * `int(s)`: an optional minus sign followed by decimal digits; anything else
   * raises ValueError.
   */
  function ParseInt(s: string): (r: Result<int>)
    ensures r.Ok? <==> IsDigits(s) || (|s| > 1 && s[0] == '-' && IsDigits(s[1..]))
    ensures r.Err? ==> r.error == ValueError
    ensures r.Ok? && IsDigits(s) ==> r.value >= 0
  {
    if IsDigits(s) then Ok(DigitsValue(s))
    else if |s| > 1 && s[0] == '-' && IsDigits(s[1..]) then Ok(-(DigitsValue(s[1..]) as int))
    else Err(ValueError)
  }

  lemma {:induction false} DigitsOfNat(n: nat)
    ensures DigitsValue(NatToString(n)) == n
    decreases n
  {
    if n >= 10 {
      var s := NatToString(n);
      assert s[..|s| - 1] == NatToString(n / 10);
      DigitsOfNat(n / 10);
      assert DigitValue(DigitChar(n % 10)) == n % 10;
    } else {
      assert DigitValue(DigitChar(n)) == n;
    }
  }

  /** Round trip of revision numbers: `int(str(n)) == n`. */
  lemma ParseIntToString(n: int)
    ensures ParseInt(IntToString(n)) == Ok(n)
  {
    if n < 0 {
      assert IntToString(n) == "-" + NatToString(-n);
      ParseNegative(-n);
    } else {
      assert IntToString(n) == NatToString(n);
      ParseNatural(n);
    }
  }

  lemma ParseNatural(n: nat)
    ensures ParseInt(NatToString(n)) == Ok(n)
  {
    assert IsDigits(NatToString(n));
    DigitsOfNat(n);
  }

  lemma ParseNegative(m: nat)
    requires m > 0
    ensures ParseInt("-" + NatToString(m)) == Ok(-(m as int))
  {
    var digits := NatToString(m);
    var s := "-" + digits;
    assert s[0] == '-';
    assert !IsDigits(s) by {
      assert !IsDigit(s[0]);
    }
    assert s[1..] == digits;
    DigitsOfNat(m);
  }

  /** A slice of a slice is a slice of the original. */
  lemma SliceOfSlice(s: string, i: nat, m: nat, j: nat, c: nat)
    requires i + m <= |s| && j + c <= m
    ensures s[i..i + m][j..j + c] == s[i + j..i + j + c]
  {
    var a := s[i..i + m][j..j + c];
    var b := s[i + j..i + j + c];
    assert |a| == c == |b|;
    forall t | 0 <= t < c ensures a[t] == b[t] {
      assert a[t] == s[i..i + m][j + t] == s[i + j + t];
    }
  }
}
