/**
 * Lists built by a loop that appends one element per input, or one element
 * per input that passes a test: the shape of the `for ...: list.append(...)`
 * loops of the VCS back ends.
 */
module Seqs {

  /** `[f(x) for x in xs[:n]]`, built from the front. */
  function MapPrefix<A, B>(f: A -> B, xs: seq<A>, n: nat): (r: seq<B>)
    requires n <= |xs|
    ensures |r| == n
  {
    if n == 0 then [] else MapPrefix(f, xs, n - 1) + [f(xs[n - 1])]
  }

  /** The k-th element of the mapped prefix comes from the k-th input. */
  lemma {:induction false} MapPrefixAt<A, B>(f: A -> B, xs: seq<A>, n: nat, k: nat)
    requires k < n <= |xs|
    ensures MapPrefix(f, xs, n)[k] == f(xs[k])
    decreases n
  {
    if k < n - 1 {
      MapPrefixAt(f, xs, n - 1, k);
    }
  }

  /** `[f(x) for x in xs[:n] if p(x)]`, built from the front. */
  function FilterMapPrefix<A, B>(p: A -> bool, f: A -> B, xs: seq<A>, n: nat): (r: seq<B>)
    requires n <= |xs|
    ensures |r| <= n
  {
    if n == 0 then []
    else FilterMapPrefix(p, f, xs, n - 1) + (if p(xs[n - 1]) then [f(xs[n - 1])] else [])
  }

  /**
   * Every element of the filtered list comes from an input that passed the
   * test, and element `k` comes from the input with exactly `k` passing
   * inputs before it.
   */
  lemma {:induction false} FilterMapPrefixFrom<A, B>(p: A -> bool, f: A -> B, xs: seq<A>, n: nat, k: nat)
    returns (j: nat)
    requires n <= |xs| && k < |FilterMapPrefix(p, f, xs, n)|
    ensures j < n && p(xs[j]) && FilterMapPrefix(p, f, xs, n)[k] == f(xs[j])
    ensures |FilterMapPrefix(p, f, xs, j)| == k
    decreases n
  {
    var before := FilterMapPrefix(p, f, xs, n - 1);
    if k < |before| {
      j := FilterMapPrefixFrom(p, f, xs, n - 1, k);
    } else {
      j := n - 1;
    }
  }

  /** A longer prefix keeps at least as many inputs. */
  lemma {:induction false} FilterMapPrefixGrows<A, B>(p: A -> bool, f: A -> B, xs: seq<A>, m: nat, n: nat)
    requires m <= n <= |xs|
    ensures |FilterMapPrefix(p, f, xs, m)| <= |FilterMapPrefix(p, f, xs, n)|
    decreases n
  {
    if m < n {
      FilterMapPrefixGrows(p, f, xs, m, n - 1);
    }
  }

  /** The filtered list keeps the order of the inputs: earlier elements come from earlier inputs. */
  lemma FilterMapPrefixOrder<A, B>(p: A -> bool, f: A -> B, xs: seq<A>, n: nat, k1: nat, k2: nat)
    returns (j1: nat, j2: nat)
    requires n <= |xs| && k1 < k2 < |FilterMapPrefix(p, f, xs, n)|
    ensures j1 < j2 < n && p(xs[j1]) && p(xs[j2])
    ensures FilterMapPrefix(p, f, xs, n)[k1] == f(xs[j1]) && FilterMapPrefix(p, f, xs, n)[k2] == f(xs[j2])
  {
    j1 := FilterMapPrefixFrom(p, f, xs, n, k1);
    j2 := FilterMapPrefixFrom(p, f, xs, n, k2);
    if j2 < j1 {
      FilterMapPrefixGrows(p, f, xs, j2, j1);
    }
  }

  /** Every input that passes the test contributes its image to the filtered list. */
  lemma {:induction false} FilterMapPrefixKeeps<A, B>(p: A -> bool, f: A -> B, xs: seq<A>, n: nat, j: nat)
    returns (k: nat)
    requires j < n <= |xs| && p(xs[j])
    ensures k < |FilterMapPrefix(p, f, xs, n)| && FilterMapPrefix(p, f, xs, n)[k] == f(xs[j])
    decreases n
  {
    if j < n - 1 {
      k := FilterMapPrefixKeeps(p, f, xs, n - 1, j);
    } else {
      k := |FilterMapPrefix(p, f, xs, n - 1)|;
    }
  }

  /** When every input passes the test nothing is dropped. */
  lemma {:induction false} FilterMapPrefixAllPass<A, B>(p: A -> bool, f: A -> B, xs: seq<A>, n: nat)
    requires n <= |xs| && forall j :: 0 <= j < n ==> p(xs[j])
    ensures FilterMapPrefix(p, f, xs, n) == MapPrefix(f, xs, n)
    decreases n
  {
    if n > 0 {
      FilterMapPrefixAllPass(p, f, xs, n - 1);
    }
  }
}
