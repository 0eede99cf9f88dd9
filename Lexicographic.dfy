/**
 * Byte-lexicographic order on strings, as `std::string_view::compare` and
 * therefore `std::upper_bound` and `std::binary_search` use it, and the
 * prefix test `starts_with`.
 */
module Lexicographic {

  /** `p` is a prefix of `s` (`s.starts_with(p)`). */
  predicate StartsWith(s: string, p: string) {
    p <= s
  }

  /** Strict lexicographic order: a proper prefix is smaller, otherwise the first differing character decides. */
  predicate Less(a: string, b: string) {
    if |a| == 0 then |b| > 0
    else if |b| == 0 then false
    else a[0] < b[0] || (a[0] == b[0] && Less(a[1..], b[1..]))
  }

  /** Each element is smaller than the next one. */
  predicate StrictlySorted(table: seq<string>) {
    forall i :: 0 < i < |table| ==> Less(table[i - 1], table[i])
  }

  /** Each element is smaller than every later one. */
  ghost predicate PairwiseSorted(table: seq<string>) {
    forall i, j {:trigger Less(table[i], table[j])} :: 0 <= i < j < |table| ==> Less(table[i], table[j])
  }

  /** No element is a prefix of the next one. */
  predicate AdjacentPrefixFree(table: seq<string>) {
    forall i :: 0 < i < |table| ==> !StartsWith(table[i], table[i - 1])
  }

  /** No element is a prefix of another one. */
  ghost predicate PrefixFree(table: seq<string>) {
    forall i, j :: 0 <= i < |table| && 0 <= j < |table| && i != j ==> !StartsWith(table[j], table[i])
  }

  lemma {:induction false} LessIrreflexive(a: string)
    ensures !Less(a, a)
  {
    if |a| > 0 {
      LessIrreflexive(a[1..]);
    }
  }

  lemma {:induction false} LessAsymmetric(a: string, b: string)
    requires Less(a, b)
    ensures !Less(b, a)
  {
    if |a| > 0 && |b| > 0 && a[0] == b[0] {
      LessAsymmetric(a[1..], b[1..]);
    }
  }

  lemma {:induction false} LessTransitive(a: string, b: string, c: string)
    requires Less(a, b) && Less(b, c)
    ensures Less(a, c)
  {
    if |a| > 0 && a[0] == b[0] && b[0] == c[0] {
      LessTransitive(a[1..], b[1..], c[1..]);
    }
  }

  /** Two strings neither of which is smaller than the other are equal. */
  lemma {:induction false} LessTrichotomy(a: string, b: string)
    ensures Less(a, b) || Less(b, a) || a == b
  {
    if |a| > 0 && |b| > 0 && a[0] == b[0] {
      LessTrichotomy(a[1..], b[1..]);
      if a[1..] == b[1..] {
        assert a == [a[0]] + a[1..] && b == [b[0]] + b[1..];
      }
    }
  }

  /** A prefix of `t` is never greater than `t`. */
  lemma {:induction false} PrefixNotGreater(p: string, t: string)
    requires StartsWith(t, p)
    ensures !Less(t, p)
  {
    if |p| > 0 {
      PrefixNotGreater(p[1..], t[1..]);
    }
  }

  /**
   * If `p` is a prefix of `t` and `q` lies strictly above `p` but not above
   * `t`, then `q` starts with `p` as well.
   */
  lemma {:induction false} PrefixBetween(p: string, q: string, t: string)
    requires StartsWith(t, p) && Less(p, q) && !Less(t, q)
    ensures StartsWith(q, p)
  {
    if |p| > 0 {
      assert t[0] == p[0];
      PrefixBetween(p[1..], q[1..], t[1..]);
      assert q == [q[0]] + q[1..];
    }
  }

  /**
   * Two strings that agree before index `k` and differ at `k` are ordered by
   * their characters at `k`, and the smaller one is not a prefix of the other.
   */
  lemma {:induction false} FirstDifference(a: string, b: string, k: nat)
    requires k < |a| && k < |b| && a[..k] == b[..k] && a[k] < b[k]
    ensures Less(a, b) && !StartsWith(b, a)
  {
    if k > 0 {
      assert a[0] == a[..k][0] == b[..k][0] == b[0];
      assert a[1..][..k - 1] == a[1..k] == a[..k][1..];
      assert b[1..][..k - 1] == b[1..k] == b[..k][1..];
      FirstDifference(a[1..], b[1..], k - 1);
    }
  }

  lemma {:induction false} SortedPairwise(table: seq<string>)
    requires StrictlySorted(table)
    ensures PairwiseSorted(table)
  {
    forall i, j | 0 <= i < j < |table|
      ensures Less(table[i], table[j])
    {
      SortedFrom(table, i, j);
    }
  }

  lemma {:induction false} SortedFrom(table: seq<string>, i: nat, j: nat)
    requires StrictlySorted(table) && i < j < |table|
    ensures Less(table[i], table[j])
  {
    if j > i + 1 {
      SortedFrom(table, i, j - 1);
      LessTransitive(table[i], table[j - 1], table[j]);
    }
  }

  /**
   * In a sorted table it suffices to check neighbours for prefixes: a prefix
   * of a later element would also be a prefix of the element right after it.
   */
  lemma {:induction false} AdjacentPrefixFreeSuffices(table: seq<string>)
    requires StrictlySorted(table) && AdjacentPrefixFree(table)
    ensures PrefixFree(table)
  {
    SortedPairwise(table);
    forall i, j | 0 <= i < |table| && 0 <= j < |table| && i != j
      ensures !StartsWith(table[j], table[i])
    {
      if StartsWith(table[j], table[i]) {
        PrefixNotGreater(table[i], table[j]);
        assert i < j;
        if j == i + 1 {
          assert false;
        } else {
          LessAsymmetric(table[i + 1], table[j]);
          PrefixBetween(table[i], table[i + 1], table[j]);
          assert false;
        }
      }
    }
  }
}
