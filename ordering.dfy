/**
 * Comparators as both containers use them, and the orders they induce on
 * sequences.  A compare function returns a number whose sign alone carries
 * meaning: negative for "less", zero for "equal", positive for "greater".
 */
module Ordering {

  /** The sign of `cmp(a, b)` is the opposite of the sign of `cmp(b, a)`. */
  ghost predicate SignFlips<T(!new)>(cmp: (T, T) -> int, a: T, b: T) {
    cmp(a, b) < 0 <==> cmp(b, a) > 0
  }

  /** "Compares at most" chains from `a` through `b` to `c`. */
  ghost predicate Chains<T(!new)>(cmp: (T, T) -> int, a: T, b: T, c: T) {
    cmp(a, b) <= 0 && cmp(b, c) <= 0 ==> cmp(a, c) <= 0
  }

  /**
   * The comparator contract both containers rely on: the sign is
   * antisymmetric and "compares at most" is transitive, i.e. a total
   * preorder.  The two facts are stated through named predicates so that the
   * proofs below use them only where they ask for them (Flip, Transitive).
   */
  ghost predicate ValidCmp<T(!new)>(cmp: (T, T) -> int) {
    && (forall a, b :: SignFlips(cmp, a, b))
    && (forall a, b, c :: Chains(cmp, a, b, c))
  }

  lemma Flip<T(!new)>(cmp: (T, T) -> int, a: T, b: T)
    requires ValidCmp(cmp)
    ensures cmp(a, b) < 0 <==> cmp(b, a) > 0
    ensures cmp(a, b) <= 0 <==> cmp(b, a) >= 0
    ensures cmp(a, b) == 0 <==> cmp(b, a) == 0
  {
    assert SignFlips(cmp, a, b) && SignFlips(cmp, b, a);
  }

  lemma Reflexive<T(!new)>(cmp: (T, T) -> int, a: T)
    requires ValidCmp(cmp)
    ensures cmp(a, a) == 0
  {
    Flip(cmp, a, a);
  }

  lemma Transitive<T(!new)>(cmp: (T, T) -> int, a: T, b: T, c: T)
    requires ValidCmp(cmp)
    requires cmp(a, b) <= 0 && cmp(b, c) <= 0
    ensures cmp(a, c) <= 0
  {
    assert Chains(cmp, a, b, c);
  }

  lemma LeLt<T(!new)>(cmp: (T, T) -> int, a: T, b: T, c: T)
    requires ValidCmp(cmp)
    requires cmp(a, b) <= 0 && cmp(b, c) < 0
    ensures cmp(a, c) < 0
  {
    assert Chains(cmp, c, a, b);
    Flip(cmp, b, c);
    Flip(cmp, a, c);
  }

  lemma LtLe<T(!new)>(cmp: (T, T) -> int, a: T, b: T, c: T)
    requires ValidCmp(cmp)
    requires cmp(a, b) < 0 && cmp(b, c) <= 0
    ensures cmp(a, c) < 0
  {
    assert Chains(cmp, b, c, a);
    Flip(cmp, a, b);
    Flip(cmp, a, c);
  }

  /** Every pair of positions is in order (the form the proofs use). */
  ghost predicate Sorted<T(!new)>(cmp: (T, T) -> int, s: seq<T>) {
    forall i, j :: 0 <= i < j < |s| ==> cmp(s[i], s[j]) <= 0
  }

  /** Every adjacent pair is in order (the form the containers document). */
  ghost predicate AdjacentSorted<T(!new)>(cmp: (T, T) -> int, s: seq<T>) {
    forall i :: 0 <= i < |s| - 1 ==> cmp(s[i], s[i + 1]) <= 0
  }

  /** Under a valid comparator the two readings of "sorted" agree. */
  lemma {:induction false} AdjacentSortedIsSorted<T(!new)>(cmp: (T, T) -> int, s: seq<T>)
    requires ValidCmp(cmp)
    ensures AdjacentSorted(cmp, s) <==> Sorted(cmp, s)
  {
    if AdjacentSorted(cmp, s) && |s| > 1 {
      var t := s[1..];
      assert AdjacentSorted(cmp, t) by {
        forall i | 0 <= i < |t| - 1 ensures cmp(t[i], t[i + 1]) <= 0 {
          assert t[i] == s[i + 1] && t[i + 1] == s[i + 2];
        }
      }
      AdjacentSortedIsSorted(cmp, t);
      forall i, j | 0 <= i < j < |s| ensures cmp(s[i], s[j]) <= 0 {
        if i > 0 {
          assert s[i] == t[i - 1] && s[j] == t[j - 1];
        } else if j > 1 {
          assert cmp(s[0], s[1]) <= 0;
          assert s[1] == t[0] && s[j] == t[j - 1];
          Transitive(cmp, s[0], s[1], s[j]);
        }
      }
    }
  }

  /** Only equal elements compare equal (true of numeric difference on integers). */
  ghost predicate Strict<T(!new)>(cmp: (T, T) -> int) {
    forall a, b :: cmp(a, b) == 0 ==> a == b
  }

  /** Dropping the first element keeps a sequence sorted. */
  lemma SortedTail<T(!new)>(cmp: (T, T) -> int, s: seq<T>)
    requires Sorted(cmp, s) && s != []
    ensures Sorted(cmp, s[1..])
  {
    assert forall k :: 0 <= k < |s| - 1 ==> s[1..][k] == s[k + 1];
  }

  /** The first element of a non-empty sequence leaves its multiset when dropped. */
  lemma TailMultiset<T>(s: seq<T>)
    requires s != []
    ensures multiset(s[1..]) == multiset(s) - multiset{s[0]}
  {
    assert s == [s[0]] + s[1..];
  }

  /** Two non-empty sequences with the same first element and the same rest are equal. */
  lemma SameHeadAndTail<T>(a: seq<T>, b: seq<T>)
    requires a != [] && b != [] && a[0] == b[0] && a[1..] == b[1..]
    ensures a == b
  {
    assert a == [a[0]] + a[1..] && b == [b[0]] + b[1..];
  }

  /** Under a strict comparator two sorted sequences with the same elements start alike. */
  lemma SortedHeads<T(!new)>(cmp: (T, T) -> int, a: seq<T>, b: seq<T>)
    requires ValidCmp(cmp) && Strict(cmp)
    requires Sorted(cmp, a) && Sorted(cmp, b) && multiset(a) == multiset(b) && a != []
    ensures b != [] && a[0] == b[0]
  {
    assert a[0] in multiset(b);
    assert b[0] in multiset(a);
    var i :| 0 <= i < |a| && a[i] == b[0];
    var j :| 0 <= j < |b| && b[j] == a[0];
    assert cmp(a[0], b[0]) <= 0 by {
      if i == 0 { Reflexive(cmp, a[0]); }
    }
    assert cmp(b[0], a[0]) <= 0 by {
      if j == 0 { Reflexive(cmp, b[0]); }
    }
    Flip(cmp, a[0], b[0]);
  }

  /**
   * Under a strict comparator a multiset has only one sorted arrangement:
   * two sorted sequences with the same elements are the same sequence.
   */
  lemma {:induction false} SortedUnique<T(!new)>(cmp: (T, T) -> int, a: seq<T>, b: seq<T>)
    requires ValidCmp(cmp) && Strict(cmp)
    requires Sorted(cmp, a) && Sorted(cmp, b) && multiset(a) == multiset(b)
    ensures a == b
    decreases |a|
  {
    if a == [] {
      assert |b| == |multiset(b)|;
    } else {
      SortedHeads(cmp, a, b);
      SortedTail(cmp, a);
      SortedTail(cmp, b);
      TailMultiset(a);
      TailMultiset(b);
      SortedUnique(cmp, a[1..], b[1..]);
      SameHeadAndTail(a, b);
    }
  }

  /** Every element of `l` compares at most every element of `r`. */
  ghost predicate AllLe<T(!new)>(cmp: (T, T) -> int, l: seq<T>, r: seq<T>) {
    forall a, b :: a in l && b in r ==> cmp(a, b) <= 0
  }

  /** Some element of `s` compares equal to `v`. */
  ghost predicate HasEqual<T(!new)>(cmp: (T, T) -> int, s: seq<T>, v: T) {
    exists k :: 0 <= k < |s| && cmp(s[k], v) == 0
  }

  /** The comparator with its sign negated (`invertCompareFn`). */
  function Invert<T(!new)>(cmp: (T, T) -> int): (T, T) -> int {
    (a, b) => -cmp(a, b)
  }

  /** The sequence read back to front. */
  function Reverse<T(!new)>(s: seq<T>): (r: seq<T>)
    ensures |r| == |s|
    ensures forall k :: 0 <= k < |s| ==> r[k] == s[|s| - 1 - k]
  {
    seq(|s|, k requires 0 <= k < |s| => s[|s| - 1 - k])
  }

  /** Reading back to front keeps every element and its number of occurrences. */
  lemma {:induction false} ReverseMultiset<T(!new)>(s: seq<T>)
    ensures multiset(Reverse(s)) == multiset(s)
  {
    if s != [] {
      ReverseMultiset(s[1..]);
      assert Reverse(s) == Reverse(s[1..]) + [s[0]];
      assert s == [s[0]] + s[1..];
    }
  }

  /**
   * Negating a valid comparator gives a valid comparator, one that orders
   * in the opposite direction: "compares at most" under the inverse is
   * "compares at least" under the original, and "equal" is unchanged.
   */
  lemma InvertIsValid<T(!new)>(cmp: (T, T) -> int)
    requires ValidCmp(cmp)
    ensures ValidCmp(Invert(cmp))
  {
    var inv := Invert(cmp);
    forall a, b ensures SignFlips(inv, a, b) {
      Flip(cmp, a, b);
    }
    forall a, b, c ensures Chains(inv, a, b, c) {
      if inv(a, b) <= 0 && inv(b, c) <= 0 {
        InvertLe(cmp, a, b);
        InvertLe(cmp, b, c);
        Transitive(cmp, c, b, a);
        InvertLe(cmp, a, c);
      }
    }
  }

  lemma InvertLe<T(!new)>(cmp: (T, T) -> int, a: T, b: T)
    requires ValidCmp(cmp)
    ensures Invert(cmp)(a, b) <= 0 <==> cmp(b, a) <= 0
    ensures Invert(cmp)(a, b) == 0 <==> cmp(a, b) == 0
  {
    Flip(cmp, a, b);
  }

  /** A buffer kept in inverted order reads, back to front, in real order. */
  lemma InvertSortedIsReverseSorted<T(!new)>(cmp: (T, T) -> int, s: seq<T>)
    requires ValidCmp(cmp)
    ensures Sorted(Invert(cmp), s) <==> Sorted(cmp, Reverse(s))
  {
    var inv, r, n := Invert(cmp), Reverse(s), |s|;
    if Sorted(inv, s) {
      forall i, j | 0 <= i < j < n ensures cmp(r[i], r[j]) <= 0 {
        var p, q := n - 1 - j, n - 1 - i;
        assert inv(s[p], s[q]) <= 0;
        Flip(cmp, s[q], s[p]);
      }
    }
    if Sorted(cmp, r) {
      forall i, j | 0 <= i < j < n ensures inv(s[i], s[j]) <= 0 {
        var p, q := n - 1 - j, n - 1 - i;
        assert r[p] == s[j] && r[q] == s[i];
        assert cmp(r[p], r[q]) <= 0;
        Flip(cmp, s[j], s[i]);
      }
    }
  }

  /** Inverting does not change which elements compare equal. */
  lemma InvertHasEqual<T(!new)>(cmp: (T, T) -> int, s: seq<T>, v: T)
    ensures HasEqual(Invert(cmp), s, v) <==> HasEqual(cmp, s, v)
  {
    if HasEqual(cmp, s, v) {
      var k :| 0 <= k < |s| && cmp(s[k], v) == 0;
      assert Invert(cmp)(s[k], v) == 0;
    }
  }
}
