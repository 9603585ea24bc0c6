/**
 * The caller-supplied `Comparator<T>` of `sort`, as a pure three-way function:
 * `cmp(a, b) <= 0` reads "a may stay before b", and `sort` swaps a pair exactly
 * when `cmp(a, b) > 0`.
 */
module Ordering {

  /**
   * What sorting needs of the comparator on the elements `s` holds: "may stay
   * before" is total (hence reflexive) and transitive. Java's `Comparator`
   * contract implies this.
   */
  ghost predicate TotalPreorderOn<T>(cmp: (T, T) -> int, s: seq<T>) {
    && (forall a, b {:trigger a in s, b in s} | a in s && b in s :: cmp(a, b) <= 0 || cmp(b, a) <= 0)
    && (forall a, b, c {:trigger a in s, b in s, c in s} | a in s && b in s && c in s ::
          cmp(a, b) <= 0 && cmp(b, c) <= 0 ==> cmp(a, c) <= 0)
  }

  /** Every adjacent pair is in order. */
  ghost predicate Sorted<T>(cmp: (T, T) -> int, s: seq<T>) {
    forall j :: 0 <= j < |s| - 1 ==> cmp(s[j], s[j + 1]) <= 0
  }

  /** Every pair, adjacent or not, is in order. */
  ghost predicate SortedPairwise<T>(cmp: (T, T) -> int, s: seq<T>) {
    forall i, j :: 0 <= i < j < |s| ==> cmp(s[i], s[j]) <= 0
  }

  /** For a transitive comparator, ordered adjacent pairs order every pair. */
  lemma {:induction false} SortedIsPairwise<T>(cmp: (T, T) -> int, s: seq<T>)
    requires TotalPreorderOn(cmp, s)
    requires Sorted(cmp, s)
    ensures SortedPairwise(cmp, s)
  {
    if |s| > 1 {
      var t := s[1..];
      assert TotalPreorderOn(cmp, t) by {
        forall a | a in t ensures a in s {}
      }
      SortedIsPairwise(cmp, t);
      forall i, j | 0 <= i < j < |s| ensures cmp(s[i], s[j]) <= 0 {
        if 0 < i {
          assert s[i] == t[i - 1] && s[j] == t[j - 1];
        } else if 1 < j {
          assert cmp(s[0], s[1]) <= 0 && cmp(t[0], t[j - 1]) <= 0;
          assert s[0] in s && s[1] in s && s[j] in s;
        }
      }
    }
  }

  /**
   * A permutation of a sequence the comparator totally preorders is totally
   * preordered by it too: the precondition of `sort` survives its swaps.
   */
  lemma TotalPreorderOnPermutation<T>(cmp: (T, T) -> int, s: seq<T>, t: seq<T>)
    requires multiset(s) == multiset(t)
    requires TotalPreorderOn(cmp, s)
    ensures TotalPreorderOn(cmp, t)
  {
    forall a | a in t ensures a in s {
      assert a in multiset(t);
    }
  }
}
