/**
 * The search both containers share: locate an element comparing equal to a
 * target, or the position where the target belongs, in a sorted sequence.
 */
module Search {
  import opened Ordering

  /**
   * The two-case outcome of a search: `Found(i)` when an element comparing
   * equal to the target sits at `i`, `NotFound(i)` when none does and `i` is
   * the position that keeps the sequence sorted if the target is put there.
   */
  datatype SearchResult = Found(index: nat) | NotFound(index: nat)

  /** The lower bound: the first position whose element is not less than `v`. */
  function LowerBound<T(!new)>(cmp: (T, T) -> int, s: seq<T>, v: T): (lb: nat)
    ensures lb <= |s|
    ensures forall k :: 0 <= k < lb ==> cmp(s[k], v) < 0
    ensures lb < |s| ==> cmp(s[lb], v) >= 0
  {
    if s == [] || cmp(s[0], v) >= 0 then 0
    else
      var lb := 1 + LowerBound(cmp, s[1..], v);
      assert forall k :: 1 <= k < lb ==> s[k] == s[1..][k - 1];
      lb
  }

  /** On a sorted sequence nothing from the lower bound on is less than `v`. */
  lemma LowerBoundSplits<T(!new)>(cmp: (T, T) -> int, s: seq<T>, v: T)
    requires ValidCmp(cmp) && Sorted(cmp, s)
    ensures forall k :: LowerBound(cmp, s, v) <= k < |s| ==> cmp(s[k], v) >= 0
  {
    var lb := LowerBound(cmp, s, v);
    forall k | lb <= k < |s| ensures cmp(s[k], v) >= 0 {
      Flip(cmp, s[lb], v);
      if k > lb { Transitive(cmp, v, s[lb], s[k]); }
      Flip(cmp, s[k], v);
    }
  }

  /** The upper bound: the first position whose element is greater than `v`. */
  function UpperBound<T(!new)>(cmp: (T, T) -> int, s: seq<T>, v: T): (ub: nat)
    ensures ub <= |s|
    ensures forall k :: 0 <= k < ub ==> cmp(s[k], v) <= 0
    ensures ub < |s| ==> cmp(s[ub], v) > 0
  {
    if s == [] || cmp(s[0], v) > 0 then 0
    else
      var ub := 1 + UpperBound(cmp, s[1..], v);
      assert forall k :: 1 <= k < ub ==> s[k] == s[1..][k - 1];
      ub
  }

  /** On a sorted sequence every element from the upper bound on is greater than `v`. */
  lemma UpperBoundSplits<T(!new)>(cmp: (T, T) -> int, s: seq<T>, v: T)
    requires ValidCmp(cmp) && Sorted(cmp, s)
    ensures forall k :: UpperBound(cmp, s, v) <= k < |s| ==> cmp(s[k], v) > 0
  {
    var ub := UpperBound(cmp, s, v);
    forall k | ub < k < |s| ensures cmp(s[k], v) > 0 {
      Flip(cmp, s[ub], v);
      LtLe(cmp, v, s[ub], s[k]);
      Flip(cmp, s[k], v);
    }
  }

  /** The lower bound is the one position with only smaller elements before it and none at it. */
  lemma LowerBoundAt<T(!new)>(cmp: (T, T) -> int, s: seq<T>, v: T, i: nat)
    requires i <= |s|
    requires forall k :: 0 <= k < i ==> cmp(s[k], v) < 0
    requires i < |s| ==> cmp(s[i], v) >= 0
    ensures LowerBound(cmp, s, v) == i
  {
  }

  /** What a lower-bound search reports: found exactly when the bound holds an equal element. */
  function LowerBoundResult<T(!new)>(cmp: (T, T) -> int, s: seq<T>, v: T): SearchResult {
    var lb := LowerBound(cmp, s, v);
    if lb < |s| && cmp(s[lb], v) == 0 then Found(lb) else NotFound(lb)
  }

  /**
   * The outcome of `findIndexFor` on buffer `s`: empty gives `NotFound(0)`;
   * otherwise the last element is tried first (equal: `Found` at the last
   * index, less: `NotFound` at the length), and only when the last element is
   * greater does the lower-bound search decide.
   */
  function Locate<T(!new)>(cmp: (T, T) -> int, s: seq<T>, v: T): (r: SearchResult)
    ensures r.index <= |s|
    ensures r.Found? ==> r.index < |s| && cmp(s[r.index], v) == 0
  {
    if |s| == 0 then NotFound(0)
    else if cmp(s[|s| - 1], v) == 0 then Found(|s| - 1)
    else if cmp(s[|s| - 1], v) < 0 then NotFound(|s|)
    else LowerBoundResult(cmp, s, v)
  }

  /**
   * On a sorted sequence a search outcome means what it says: the index is
   * in [0, |s|]; `Found(i)` holds an equal element; `NotFound(i)` has every
   * element before `i` less than `v` and every element from `i` on greater;
   * and an equal element exists exactly when the outcome is `Found`.
   */
  lemma LocateSound<T(!new)>(cmp: (T, T) -> int, s: seq<T>, v: T)
    requires ValidCmp(cmp) && Sorted(cmp, s)
    ensures Locate(cmp, s, v).index <= |s|
    ensures Locate(cmp, s, v).Found? ==>
      Locate(cmp, s, v).index < |s| && cmp(s[Locate(cmp, s, v).index], v) == 0
    ensures Locate(cmp, s, v).NotFound? ==>
      && (forall k :: 0 <= k < Locate(cmp, s, v).index ==> cmp(s[k], v) < 0)
      && (forall k :: Locate(cmp, s, v).index <= k < |s| ==> cmp(s[k], v) > 0)
    ensures Locate(cmp, s, v).Found? <==> HasEqual(cmp, s, v)
  {
    var r := Locate(cmp, s, v);
    if |s| > 0 {
      var last := s[|s| - 1];
      if cmp(last, v) < 0 {
        forall k | 0 <= k < |s| ensures cmp(s[k], v) < 0 {
          if k < |s| - 1 { LeLt(cmp, s[k], last, v); }
        }
      } else if cmp(last, v) > 0 && r.NotFound? {
        var lb := r.index;
        forall k | lb <= k < |s| ensures cmp(s[k], v) > 0 {
          Flip(cmp, s[lb], v);
          if k > lb { LtLe(cmp, v, s[lb], s[k]); }
          Flip(cmp, s[k], v);
        }
      }
    }
    if r.NotFound? {
      assert forall k :: 0 <= k < |s| ==> cmp(s[k], v) != 0;
    }
  }

  /**
   * Putting `v` at the position a search reports keeps the sequence sorted:
   * everything before it compares at most `v`, and `v` compares at most
   * everything from it on.  This holds for `Found` too, where `v` goes in
   * front of the equal element.
   */
  lemma LocateFits<T(!new)>(cmp: (T, T) -> int, s: seq<T>, v: T)
    requires ValidCmp(cmp) && Sorted(cmp, s)
    ensures forall k :: 0 <= k < Locate(cmp, s, v).index ==> cmp(s[k], v) <= 0
    ensures forall k :: Locate(cmp, s, v).index <= k < |s| ==> cmp(v, s[k]) <= 0
  {
    var r := Locate(cmp, s, v);
    var i := r.index;
    LocateSound(cmp, s, v);
    if r.Found? {
      assert forall k :: 0 <= k < i ==> cmp(s[k], v) <= 0 by {
        forall k | 0 <= k < i ensures cmp(s[k], v) <= 0 {
          Transitive(cmp, s[k], s[i], v);
        }
      }
      assert forall k :: i <= k < |s| ==> cmp(v, s[k]) <= 0 by {
        forall k | i <= k < |s| ensures cmp(v, s[k]) <= 0 {
          Flip(cmp, s[i], v);
          if k > i { Transitive(cmp, v, s[i], s[k]); }
        }
      }
    } else {
      forall k | i <= k < |s| ensures cmp(v, s[k]) <= 0 {
        Flip(cmp, s[k], v);
      }
    }
  }

  /**
   * `binarySearchResult`: a lower-bound binary search over a sorted
   * sequence, reporting `Found` exactly when the bound holds an equal element.
   */
  method BinarySearchResult<T(!new)>(arr: seq<T>, target: T, cmp: (T, T) -> int) returns (r: SearchResult)
    requires ValidCmp(cmp) && Sorted(cmp, arr)
    ensures r.index == LowerBound(cmp, arr, target)
    ensures r.Found? <==> r.index < |arr| && cmp(arr[r.index], target) == 0
    ensures r == LowerBoundResult(cmp, arr, target)
  {
    var lo, hi := 0, |arr|;
    while lo < hi
      invariant 0 <= lo <= hi <= |arr|
      invariant forall k :: 0 <= k < lo ==> cmp(arr[k], target) < 0
      invariant forall k :: hi <= k < |arr| ==> cmp(arr[k], target) >= 0
    {
      var mid := (lo + hi) / 2;
      var c := cmp(arr[mid], target);
      if c < 0 {
        forall k | lo <= k <= mid ensures cmp(arr[k], target) < 0 {
          if k < mid { LeLt(cmp, arr[k], arr[mid], target); }
        }
        lo := mid + 1;
      } else {
        forall k | mid <= k < hi ensures cmp(arr[k], target) >= 0 {
          Flip(cmp, arr[mid], target);
          if k > mid { Transitive(cmp, target, arr[mid], arr[k]); }
          Flip(cmp, arr[k], target);
        }
        hi := mid;
      }
    }
    if lo < |arr| && cmp(arr[lo], target) == 0 {
      return Found(lo);
    }
    return NotFound(lo);
  }
}
