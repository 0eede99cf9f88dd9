/**
 * The flag classifier of include/clangd.h: the sorted stem tables, the
 * `upper_bound` predecessor test behind `essential_flag`, and the
 * `binary_search` membership test for flags that take a separate value.
 */
module Classifier {
  import opened Lexicographic

  /** Prefixes of the arguments clangd needs for semantic analysis (`STEMS`). */
  const Stems: seq<string> := [
    "--sysroot", "--target", "-D", "-I", "-U", "-imacros", "-include", "-iquote",
    "-isystem", "-mabi=", "-march=", "-mcpu=", "-mfloat-abi=", "-mfpu=", "-mthumb", "-std="
  ]

  /** Flags whose value may follow as a separate argument (`FLAGS_WITH_VALUES`). */
  const FlagsWithValues: seq<string> := ["--sysroot", "-I", "-include", "-isystem"]

  /** Stems `lo - 1` and `lo` through `hi - 1` and `hi` are ordered neighbours, neither a prefix of the next. */
  ghost predicate NeighboursBetween(lo: nat, hi: nat)
    requires 0 < lo && hi < |Stems|
  {
    forall i :: lo <= i <= hi ==> Less(Stems[i - 1], Stems[i]) && !StartsWith(Stems[i], Stems[i - 1])
  }

  lemma StemsNeighboursLow()
    ensures NeighboursBetween(1, 5)
  {
    FirstDifference(Stems[0], Stems[1], 2);
    FirstDifference(Stems[1], Stems[2], 1);
    FirstDifference(Stems[2], Stems[3], 1);
    FirstDifference(Stems[3], Stems[4], 1);
    FirstDifference(Stems[4], Stems[5], 1);
  }

  lemma StemsNeighboursMiddle()
    ensures NeighboursBetween(6, 10)
  {
    FirstDifference(Stems[5], Stems[6], 2);
    FirstDifference(Stems[6], Stems[7], 2);
    FirstDifference(Stems[7], Stems[8], 2);
    FirstDifference(Stems[8], Stems[9], 1);
    FirstDifference(Stems[9], Stems[10], 3);
  }

  lemma StemsNeighboursHigh()
    ensures NeighboursBetween(11, 15)
  {
    FirstDifference(Stems[10], Stems[11], 2);
    FirstDifference(Stems[11], Stems[12], 2);
    FirstDifference(Stems[12], Stems[13], 3);
    FirstDifference(Stems[13], Stems[14], 2);
    FirstDifference(Stems[14], Stems[15], 1);
  }

  /** Each stem is smaller than the next one and not a prefix of it. */
  lemma StemsNeighbours()
    ensures StrictlySorted(Stems) && AdjacentPrefixFree(Stems)
  {
    StemsNeighboursLow();
    StemsNeighboursMiddle();
    StemsNeighboursHigh();
  }

  /** Both tables are strictly sorted, as `upper_bound` and `binary_search` need. */
  lemma TablesSorted()
    ensures StrictlySorted(Stems) && PairwiseSorted(Stems)
    ensures StrictlySorted(FlagsWithValues) && PairwiseSorted(FlagsWithValues)
  {
    FirstDifference(FlagsWithValues[0], FlagsWithValues[1], 1);
    FirstDifference(FlagsWithValues[1], FlagsWithValues[2], 1);
    FirstDifference(FlagsWithValues[2], FlagsWithValues[3], 2);
    StemsNeighbours();
    SortedPairwise(Stems);
    SortedPairwise(FlagsWithValues);
  }

  /** No stem is a prefix of another stem. */
  lemma StemsPrefixFree()
    ensures PrefixFree(Stems)
  {
    StemsNeighbours();
    AdjacentPrefixFreeSuffices(Stems);
  }

  /** No flag that takes a separate value is a prefix of another; `-I` and `-include` differ in case. */
  lemma ValueFlagsPrefixFree()
    ensures PrefixFree(FlagsWithValues)
  {
    TablesSorted();
    FirstDifference(FlagsWithValues[0], FlagsWithValues[1], 1);
    FirstDifference(FlagsWithValues[1], FlagsWithValues[2], 1);
    FirstDifference(FlagsWithValues[2], FlagsWithValues[3], 2);
    AdjacentPrefixFreeSuffices(FlagsWithValues);
  }

  /** Every flag that takes a separate value is itself a stem. */
  lemma ValueFlagsAreStems()
    ensures forall f :: f in FlagsWithValues ==> f in Stems
  {
  }

  /**
   * `std::upper_bound` over `table[lo..hi]`: the first index whose element is
   * greater than `t`, by halving the range.
   */
  function UpperBound(table: seq<string>, t: string, lo: nat, hi: nat): (r: nat)
    requires lo <= hi <= |table|
    ensures lo <= r <= hi
    decreases hi - lo
  {
    if lo == hi then lo
    else
      var mid := lo + (hi - lo) / 2;
      if Less(t, table[mid]) then UpperBound(table, t, lo, mid)
      else UpperBound(table, t, mid + 1, hi)
  }

  /** The upper bound splits the range into elements not greater than `t` and elements greater than `t`. */
  lemma {:induction false} UpperBoundSplits(table: seq<string>, t: string, lo: nat, hi: nat)
    requires lo <= hi <= |table| && PairwiseSorted(table)
    ensures forall i :: lo <= i < UpperBound(table, t, lo, hi) ==> !Less(t, table[i])
    ensures forall i :: UpperBound(table, t, lo, hi) <= i < hi ==> Less(t, table[i])
    decreases hi - lo
  {
    if lo < hi {
      var mid := lo + (hi - lo) / 2;
      if Less(t, table[mid]) {
        var r := UpperBound(table, t, lo, mid);
        assert UpperBound(table, t, lo, hi) == r;
        UpperBoundSplits(table, t, lo, mid);
        forall i | r <= i < hi ensures Less(t, table[i]) {
          if mid < i {
            LessTransitive(t, table[mid], table[i]);
          }
        }
      } else {
        var r := UpperBound(table, t, mid + 1, hi);
        assert UpperBound(table, t, lo, hi) == r;
        UpperBoundSplits(table, t, mid + 1, hi);
        forall i | lo <= i < r ensures !Less(t, table[i]) {
          if i < mid && Less(t, table[i]) {
            LessTransitive(t, table[i], table[mid]);
          }
        }
      }
    }
  }

  /**
   * `std::lower_bound` over `table[lo..hi]`: the first index whose element is
   * not smaller than `t`.
   */
  function LowerBound(table: seq<string>, t: string, lo: nat, hi: nat): (r: nat)
    requires lo <= hi <= |table|
    ensures lo <= r <= hi
    decreases hi - lo
  {
    if lo == hi then lo
    else
      var mid := lo + (hi - lo) / 2;
      if Less(table[mid], t) then LowerBound(table, t, mid + 1, hi)
      else LowerBound(table, t, lo, mid)
  }

  /** The lower bound splits the range into elements smaller than `t` and elements not smaller than `t`. */
  lemma {:induction false} LowerBoundSplits(table: seq<string>, t: string, lo: nat, hi: nat)
    requires lo <= hi <= |table| && PairwiseSorted(table)
    ensures forall i :: lo <= i < LowerBound(table, t, lo, hi) ==> Less(table[i], t)
    ensures forall i :: LowerBound(table, t, lo, hi) <= i < hi ==> !Less(table[i], t)
    decreases hi - lo
  {
    if lo < hi {
      var mid := lo + (hi - lo) / 2;
      if Less(table[mid], t) {
        var r := LowerBound(table, t, mid + 1, hi);
        assert LowerBound(table, t, lo, hi) == r;
        LowerBoundSplits(table, t, mid + 1, hi);
        forall i | lo <= i < r ensures Less(table[i], t) {
          if i < mid {
            LessTransitive(table[i], table[mid], t);
          }
        }
      } else {
        var r := LowerBound(table, t, lo, mid);
        assert LowerBound(table, t, lo, hi) == r;
        LowerBoundSplits(table, t, lo, mid);
        forall i | r <= i < hi ensures !Less(table[i], t) {
          if mid < i && Less(table[i], t) {
            LessTransitive(table[mid], table[i], t);
          }
        }
      }
    }
  }

  /** `std::binary_search`: the lower bound exists and is not greater than `t`. */
  function BinarySearch(table: seq<string>, t: string): bool
  {
    var r := LowerBound(table, t, 0, |table|);
    r < |table| && !Less(t, table[r])
  }

  /** On a sorted table, `binary_search` is exactly membership. */
  lemma BinarySearchIsMembership(table: seq<string>, t: string)
    requires PairwiseSorted(table)
    ensures BinarySearch(table, t) <==> t in table
  {
    var r := LowerBound(table, t, 0, |table|);
    LowerBoundSplits(table, t, 0, |table|);
    LessIrreflexive(t);
    if r < |table| && !Less(t, table[r]) {
      LessTrichotomy(t, table[r]);
    }
  }

  /** `essential_flag`: the token starts with the greatest stem not greater than it. */
  function EssentialFlag(token: string): bool {
    if |token| == 0 then false
    else
      var it := UpperBound(Stems, token, 0, |Stems|);
      it != 0 && StartsWith(token, Stems[it - 1])
  }

  /** `binary_search(FLAGS_WITH_VALUES, arg)`: the exact spelling of a flag that takes a value. */
  function TakesValue(arg: string): bool {
    BinarySearch(FlagsWithValues, arg)
  }

  /** `binary_search(FLAGS_WITH_VALUES, arg)` holds exactly for the listed spellings. */
  lemma TakesValueIsMembership(arg: string)
    ensures TakesValue(arg) <==> arg in FlagsWithValues
  {
    TablesSorted();
    BinarySearchIsMembership(FlagsWithValues, arg);
  }

  /**
   * The predecessor test of a sorted, prefix-free table is exact: the element
   * just below the upper bound is a prefix of `t` exactly when some element is.
   */
  lemma PredecessorTest(table: seq<string>, t: string)
    requires PairwiseSorted(table) && PrefixFree(table)
    ensures var it := UpperBound(table, t, 0, |table|);
      (it != 0 && StartsWith(t, table[it - 1])) <==> exists i :: 0 <= i < |table| && StartsWith(t, table[i])
  {
    var it := UpperBound(table, t, 0, |table|);
    UpperBoundSplits(table, t, 0, |table|);
    if i :| 0 <= i < |table| && StartsWith(t, table[i]) {
      PrefixNotGreater(table[i], t);
      assert i < it;
      if i < it - 1 {
        PrefixBetween(table[i], table[it - 1], t);
        assert false;
      }
    }
  }

  /** `essential_flag(t)` holds exactly when some stem is a prefix of `t`. */
  lemma EssentialFlagIsStemPrefix(t: string)
    ensures EssentialFlag(t) <==> exists s :: s in Stems && StartsWith(t, s)
  {
    TablesSorted();
    StemsPrefixFree();
    PredecessorTest(Stems, t);
    if s :| s in Stems && StartsWith(t, s) {
      var i :| 0 <= i < |Stems| && Stems[i] == s;
      assert |s| > 0;
    }
  }

  /** Every essential token starts with `-`, since every stem does. */
  lemma EssentialStartsWithDash(t: string)
    requires EssentialFlag(t)
    ensures |t| > 0 && t[0] == '-'
  {
    EssentialFlagIsStemPrefix(t);
    var s :| s in Stems && StartsWith(t, s);
    assert s[0] == '-';
  }

  /** A flag that takes a separate value is always essential. */
  lemma ValueFlagIsEssential(f: string)
    requires TakesValue(f)
    ensures EssentialFlag(f)
  {
    TakesValueIsMembership(f);
    ValueFlagsAreStems();
    EssentialFlagIsStemPrefix(f);
  }
}
