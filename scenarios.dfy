/**
 * The behaviour the repository's own tests describe, derived from the
 * general contracts for the comparator those tests use: numeric difference
 * on integers.  Under it only equal numbers compare equal, so a sorted
 * buffer is determined by the numbers it holds.
 */
module Scenarios {
  import opened Options
  import opened Ordering
  import opened Search
  import opened SortedArrays
  import opened DoubleSortedArrays

  /** The tests' comparator, `(a, b) => a - b`. */
  function NumCmp(a: int, b: int): int {
    a - b
  }

  /** Numeric difference is a valid comparator, and a strict one. */
  lemma NumCmpValid()
    ensures ValidCmp(NumCmp) && Strict(NumCmp)
  {
    forall a: int, b: int ensures SignFlips(NumCmp, a, b) {
    }
    forall a: int, b: int, c: int ensures Chains(NumCmp, a, b, c) {
    }
  }

  /** A sequence of integers whose neighbours never decrease is sorted under `NumCmp`. */
  lemma IncreasingIsSorted(s: seq<int>)
    requires forall i :: 0 <= i < |s| - 1 ==> s[i] <= s[i + 1]
    ensures Sorted(NumCmp, s)
  {
    NumCmpValid();
    AdjacentSortedIsSorted(NumCmp, s);
  }

  /** Neighbours never decrease, checked front to back. */
  predicate Increasing(s: seq<int>) {
    |s| < 2 || (s[0] <= s[1] && Increasing(s[1..]))
  }

  lemma {:induction false} IncreasingNeighbours(s: seq<int>)
    requires Increasing(s)
    ensures forall i :: 0 <= i < |s| - 1 ==> s[i] <= s[i + 1]
  {
    if |s| >= 2 {
      IncreasingNeighbours(s[1..]);
      assert forall i :: 1 <= i < |s| - 1 ==> s[i] == s[1..][i - 1];
    }
  }

  /**
   * Under `NumCmp` a sorted sequence holding the same numbers as `xs` is the
   * increasing arrangement `ys` of those numbers.
   */
  lemma Arrange(a: seq<int>, xs: seq<int>, ys: seq<int>)
    requires Sorted(NumCmp, a) && multiset(a) == multiset(xs)
    requires multiset(xs) == multiset(ys) && Increasing(ys)
    ensures a == ys
  {
    NumCmpValid();
    IncreasingNeighbours(ys);
    IncreasingIsSorted(ys);
    SortedUnique(NumCmp, a, ys);
  }

  /** The numbers 3, 1, 4, 1, 5 are the numbers 1, 1, 3, 4, 5, counted with repetition. */
  lemma SameNumbers31415()
    ensures multiset([3, 1, 4, 1, 5]) == multiset([1, 1, 3, 4, 5])
  {
    assert multiset([3, 1, 4, 1, 5]) == multiset{3, 1, 4, 1, 5};
    assert multiset{3, 1, 4, 1, 5} == multiset{1, 1, 3, 4, 5};
    assert multiset{1, 1, 3, 4, 5} == multiset([1, 1, 3, 4, 5]);
  }

  /** The numbers 3, 1, 2 are the numbers 1, 2, 3, counted with repetition. */
  lemma SameNumbers312()
    ensures multiset([3, 1, 2]) == multiset([1, 2, 3])
  {
    assert multiset([3, 1, 2]) == multiset{3, 1, 2};
    assert multiset{3, 1, 2} == multiset{1, 2, 3};
    assert multiset{1, 2, 3} == multiset([1, 2, 3]);
  }

  /** The numbers 5, 3, 7, 1, 9 are the numbers 1, 3, 5, 7, 9, counted with repetition. */
  lemma SameNumbers53719()
    ensures multiset([5, 3, 7, 1, 9]) == multiset([1, 3, 5, 7, 9])
  {
    assert multiset([5, 3, 7, 1, 9]) == multiset{5, 3, 7, 1, 9};
    assert multiset{5, 3, 7, 1, 9} == multiset{1, 3, 5, 7, 9};
    assert multiset{1, 3, 5, 7, 9} == multiset([1, 3, 5, 7, 9]);
  }

  /** Sorted under `NumCmp`, the numbers 3, 1, 4, 1, 5 read 1, 1, 3, 4, 5. */
  lemma OrderOf31415(a: seq<int>)
    requires Sorted(NumCmp, a) && multiset(a) == multiset([3, 1, 4, 1, 5])
    ensures a == [1, 1, 3, 4, 5]
  {
    SameNumbers31415();
    Arrange(a, [3, 1, 4, 1, 5], [1, 1, 3, 4, 5]);
  }

  /** Sorted under `NumCmp`, the numbers 3, 1, 2 read 1, 2, 3. */
  lemma OrderOf312(a: seq<int>)
    requires Sorted(NumCmp, a) && multiset(a) == multiset([3, 1, 2])
    ensures a == [1, 2, 3]
  {
    SameNumbers312();
    Arrange(a, [3, 1, 2], [1, 2, 3]);
  }

  /** Sorted under `NumCmp`, the numbers 5, 3, 7, 1, 9 read 1, 3, 5, 7, 9. */
  lemma OrderOf53719(a: seq<int>)
    requires Sorted(NumCmp, a) && multiset(a) == multiset([5, 3, 7, 1, 9])
    ensures a == [1, 3, 5, 7, 9]
  {
    SameNumbers53719();
    Arrange(a, [5, 3, 7, 1, 9], [1, 3, 5, 7, 9]);
  }

  /** `push(3, 1, 4, 1, 5)` on an empty buffer gives `[1, 1, 3, 4, 5]`. */
  lemma PushExample()
    ensures InsertAll(NumCmp, [], [3, 1, 4, 1, 5]) == [1, 1, 3, 4, 5]
  {
    PushUnfold();
    PushStep1();
    PushStep2();
    PushStep3();
    PushStep4();
    PushStep5();
  }

  /** `push(3, 1, 4, 1, 5)` inserts 3, 1, 4, 1 and 5 in turn. */
  lemma PushUnfold()
    ensures InsertAll(NumCmp, [], [3, 1, 4, 1, 5])
         == Inserted(NumCmp, Inserted(NumCmp, Inserted(NumCmp, Inserted(NumCmp, Inserted(NumCmp, [], 3), 1), 4), 1), 5)
  {
    assert [3, 1, 4, 1, 5][1..] == [1, 4, 1, 5];
    assert [1, 4, 1, 5][1..] == [4, 1, 5];
    assert [4, 1, 5][1..] == [1, 5];
    assert [1, 5][1..] == [5];
  }

  lemma PushStep1()
    ensures Inserted(NumCmp, [], 3) == [3]
  {
  }

  lemma PushStep2()
    ensures Inserted(NumCmp, [3], 1) == [1, 3]
  {
  }

  lemma PushStep3()
    ensures Inserted(NumCmp, [1, 3], 4) == [1, 3, 4]
  {
  }

  lemma PushStep4()
    ensures Inserted(NumCmp, [1, 3, 4], 1) == [1, 1, 3, 4]
  {
  }

  lemma PushStep5()
    ensures Inserted(NumCmp, [1, 1, 3, 4], 5) == [1, 1, 3, 4, 5]
  {
  }

  /** `delete(2)` on `[1, 2, 3]` gives `[1, 3]`. */
  lemma DeleteExample()
    ensures HasEqual(NumCmp, [1, 2, 3], 2)
    ensures Deleted(NumCmp, [1, 2, 3], 2) == [1, 3]
  {
    assert NumCmp([1, 2, 3][1], 2) == 0;
  }

  /** `upsert(1)` twice on an empty buffer: the first inserts, the second finds `1` and leaves `[1]`. */
  lemma UpsertExample()
    ensures !HasEqual(NumCmp, [], 1) && Upserted(NumCmp, [], 1) == [1]
    ensures HasEqual(NumCmp, [1], 1) && Upserted(NumCmp, [1], 1) == [1]
  {
    assert NumCmp([1][0], 1) == 0;
  }

  /** `push(3, 1, 4, 1, 5)` on an empty container reports length 5 and iterates as `[1, 1, 3, 4, 5]`. */
  method PushScenario() returns (n: nat, xs: seq<int>)
    ensures n == 5 && xs == [1, 1, 3, 4, 5]
  {
    NumCmpValid();
    var s := new SortedArray(NumCmp);
    n := s.Push([3, 1, 4, 1, 5]);
    xs := s.buf;
    PushExample();
  }

  /** `fromArray([3, 1, 2])` iterates as `[1, 2, 3]`. */
  method FromArrayScenario() returns (xs: seq<int>)
    ensures xs == [1, 2, 3]
  {
    NumCmpValid();
    var s := SortedArray.FromArray([3, 1, 2], NumCmp);
    xs := s.buf;
    OrderOf312(xs);
  }

  /** After `push(1, 2, 3)`, `delete(2)` returns 2 and leaves `[1, 3]`. */
  method DeleteScenario() returns (d: Option<int>, xs: seq<int>)
    ensures d == Some(2) && xs == [1, 3]
  {
    NumCmpValid();
    var s := new SortedArray(NumCmp);
    var _ := s.Push([1, 2, 3]);
    PushSortedExample();
    DeleteExample();
    d := s.Delete(2);
    xs := s.buf;
  }

  /** `push(1, 2, 3)` on an empty buffer gives `[1, 2, 3]`. */
  lemma PushSortedExample()
    ensures InsertAll(NumCmp, [], [1, 2, 3]) == [1, 2, 3]
  {
  }

  /** On an empty container `upsert(1)` reports "inserted", a second `upsert(1)` "updated", leaving `[1]`. */
  method UpsertScenario() returns (first: bool, second: bool, xs: seq<int>)
    ensures first && !second && xs == [1]
  {
    NumCmpValid();
    var s := new SortedArray(NumCmp);
    UpsertExample();
    first := s.Upsert(1);
    second := s.Upsert(1);
    xs := s.buf;
  }

  /** `push(3, 1, 2)` on an empty buffer gives `[1, 2, 3]`. */
  lemma PushUnsortedExample()
    ensures InsertAll(NumCmp, [], [3, 1, 2]) == [1, 2, 3]
  {
  }

  /** After `push(3, 1, 2)` iteration, which walks the buffer, visits 1, 2, 3. */
  method ForLoopScenario() returns (xs: seq<int>)
    ensures xs == [1, 2, 3]
  {
    NumCmpValid();
    var s := new SortedArray(NumCmp);
    var n := s.Push([3, 1, 2]);
    PushUnsortedExample();
    xs := s.buf;
  }

  /**
   * Any list pushed comes out in non-decreasing order with the same length,
   * and deleting the element found at position 50 succeeds and shortens the
   * container by one (the tests use 100 random numbers).
   */
  method LargeScenario(nums: seq<int>) returns (sorted: seq<int>, n: nat, d: Option<int>, m: nat)
    requires |nums| > 50
    ensures forall i :: 1 <= i < |sorted| ==> sorted[i] >= sorted[i - 1]
    ensures n == |nums| && d.Some? && m == |nums| - 1
  {
    NumCmpValid();
    var s := new SortedArray(NumCmp);
    var _ := s.Push(nums);
    sorted := s.buf;
    n := |s.buf|;
    assert forall i :: 1 <= i < |sorted| ==> NumCmp(sorted[i - 1], sorted[i]) <= 0;
    assert NumCmp(sorted[50], sorted[50]) == 0;
    d := s.Delete(sorted[50]);
    m := |s.buf|;
  }

  /** One more element of the prefix adds exactly that element. */
  lemma PrefixGrows(xs: seq<int>, i: nat)
    requires i < |xs|
    ensures multiset(xs[..i + 1]) == multiset(xs[..i]) + multiset{xs[i]}
  {
    assert xs[..i + 1] == xs[..i] + [xs[i]];
  }

  /** One `insert`, seen only through the invariant and the multiset it adds to. */
  method InsertOne(d: DoubleSortedArray<int>, x: int)
    requires d.Valid()
    modifies d.left, d.right
    ensures d.Valid()
    ensures multiset(d.Elements()) == old(multiset(d.Elements())) + multiset{x}
  {
    var _ := d.Insert(x);
  }

  /** `forEach(n => arr.insert(n))`: each value inserted in turn. */
  method InsertEach(d: DoubleSortedArray<int>, xs: seq<int>)
    requires d.Valid()
    modifies d.left, d.right
    ensures d.Valid()
    ensures multiset(d.Elements()) == old(multiset(d.Elements())) + multiset(xs)
  {
    var i := 0;
    while i < |xs|
      invariant 0 <= i <= |xs| && d.Valid()
      invariant multiset(d.Elements()) == old(multiset(d.Elements())) + multiset(xs[..i])
    {
      InsertOne(d, xs[i]);
      PrefixGrows(xs, i);
      i := i + 1;
    }
    assert xs[..i] == xs;
  }

  /** A fresh two-halves container after inserting `xs` in turn. */
  method Filled(xs: seq<int>) returns (d: DoubleSortedArray<int>)
    ensures fresh(d) && d.Valid() && d.cmp == NumCmp
    ensures multiset(d.Elements()) == multiset(xs)
  {
    NumCmpValid();
    d := new DoubleSortedArray(NumCmp);
    InsertEach(d, xs);
  }

  /** Inserting 5, 3, 7, 1, 9 gives `[1, 3, 5, 7, 9]`. */
  method DoubleBasicScenario() returns (a: seq<int>)
    ensures a == [1, 3, 5, 7, 9]
  {
    var d := Filled([5, 3, 7, 1, 9]);
    a := d.ToArray();
    OrderOf53719(a);
  }

  /** After inserting 3, 1, 2 the iterator yields `[1, 2, 3]`. */
  method DoubleIteratorScenario() returns (a: seq<int>)
    ensures a == [1, 2, 3]
  {
    var d := Filled([3, 1, 2]);
    a := d.ToArray();
    OrderOf312(a);
  }

  /** The numbers 5, 2, 8, 1, 9, 3, 7, 4, 6 are the numbers 1 to 9. */
  lemma SameNumbers528193746()
    ensures multiset([5, 2, 8, 1, 9, 3, 7, 4, 6]) == multiset(Upto(9))
  {
    Upto9();
    ListedNumbers528193746();
    ReorderedNumbers528193746();
    ListedNumbersUpto9();
  }

  lemma ListedNumbers528193746()
    ensures multiset([5, 2, 8, 1, 9, 3, 7, 4, 6]) == multiset{5, 2, 8, 1, 9, 3, 7, 4, 6}
  {
  }

  lemma ReorderedNumbers528193746()
    ensures multiset{5, 2, 8, 1, 9, 3, 7, 4, 6} == multiset{1, 2, 3, 4, 5, 6, 7, 8, 9}
  {
  }

  lemma ListedNumbersUpto9()
    ensures multiset{1, 2, 3, 4, 5, 6, 7, 8, 9} == multiset([1, 2, 3, 4, 5, 6, 7, 8, 9])
  {
  }

  /** The numbers 1 to 9, written out. */
  lemma Upto9()
    ensures Upto(9) == [1, 2, 3, 4, 5, 6, 7, 8, 9]
  {
  }

  /** Inserting 5, 2, 8, 1, 9, 3, 7, 4, 6 gives 1 to 9 in order. */
  method DoubleRandomScenario() returns (a: seq<int>)
    ensures a == [1, 2, 3, 4, 5, 6, 7, 8, 9]
  {
    var d := Filled([5, 2, 8, 1, 9, 3, 7, 4, 6]);
    a := d.ToArray();
    SameNumbers528193746();
    UptoOrder(a, 9);
    Upto9();
  }

  /** The numbers 1 to `n` in increasing order. */
  function Upto(n: nat): (r: seq<int>)
    ensures |r| == n && forall k :: 0 <= k < n ==> r[k] == k + 1
  {
    seq(n, k requires 0 <= k < n => k + 1)
  }

  /** Sorted under `NumCmp`, the numbers 1 to `n` read 1 to `n`. */
  lemma UptoOrder(a: seq<int>, n: nat)
    requires Sorted(NumCmp, a) && multiset(a) == multiset(Upto(n))
    ensures a == Upto(n)
  {
    NumCmpValid();
    IncreasingIsSorted(Upto(n));
    SortedUnique(NumCmp, a, Upto(n));
  }

  /** The numbers `i + 1` to `n` are `i + 1` followed by the numbers `i + 2` to `n`. */
  lemma UptoSuffix(n: nat, i: nat)
    requires i < n
    ensures multiset(Upto(n)[i..]) == multiset{i + 1} + multiset(Upto(n)[i + 1..])
  {
    assert Upto(n)[i..] == [i + 1] + Upto(n)[i + 1..];
  }

  /** The numbers 1 to `i + 1` are the numbers 1 to `i` followed by `i + 1`. */
  lemma UptoPrefix(i: nat)
    ensures multiset(Upto(i + 1)) == multiset(Upto(i)) + multiset{i + 1}
  {
    assert Upto(i + 1) == Upto(i) + [i + 1];
  }

  /** `n` down to 1 inserted in turn into a new container. */
  method FilledDown(n: nat) returns (d: DoubleSortedArray<int>)
    ensures fresh(d) && d.Valid() && d.cmp == NumCmp
    ensures multiset(d.Elements()) == multiset(Upto(n))
  {
    NumCmpValid();
    d := new DoubleSortedArray(NumCmp);
    var i := n;
    while i > 0
      invariant 0 <= i <= n && d.Valid() && d.cmp == NumCmp
      invariant fresh(d) && fresh(d.left) && fresh(d.right)
      invariant multiset(d.Elements()) == multiset(Upto(n)[i..])
    {
      InsertOne(d, i);
      UptoSuffix(n, i - 1);
      i := i - 1;
    }
  }

  /** Inserting `n` down to 1 gives 1 to `n` in order (the tests take `n` = 10). */
  method DoubleDescendingScenario(n: nat) returns (a: seq<int>)
    ensures a == Upto(n)
  {
    var d := FilledDown(n);
    a := d.ToArray();
    UptoOrder(a, n);
  }

  /** Inserting 1 up to `n` gives 1 to `n` in order (the tests take `n` = 10). */
  method DoubleAscendingScenario(n: nat) returns (a: seq<int>)
    ensures a == Upto(n)
  {
    NumCmpValid();
    var d := new DoubleSortedArray(NumCmp);
    var i := 0;
    while i < n
      invariant 0 <= i <= n && d.Valid() && d.cmp == NumCmp
      invariant multiset(d.Elements()) == multiset(Upto(i))
    {
      InsertOne(d, i + 1);
      UptoPrefix(i);
      i := i + 1;
    }
    a := d.ToArray();
    UptoOrder(a, n);
  }

  /**
   * After inserting 3, 1, 4, 1, 5: `at(0)` is 1, `at(length - 1)` is 5, and
   * `at(-1)` and `at(100)` are absent.
   */
  method AtScenario() returns (first: Option<int>, last: Option<int>, before: Option<int>, past: Option<int>)
    ensures first == Some(1) && last == Some(5) && before == None && past == None
  {
    var d := Filled([3, 1, 4, 1, 5]);
    JoinSorted(NumCmp, d.left.buf, d.right.buf);
    OrderOf31415(d.Elements());
    first := d.At(0);
    last := d.At(d.Length() - 1);
    before := d.At(-1);
    past := d.At(100);
  }

  /** Pairs compared by their first component only; the second records the order of insertion. */
  function FstCmp(a: (int, int), b: (int, int)): int {
    a.0 - b.0
  }

  /** A valid comparator under which distinct elements can compare equal. */
  lemma FstCmpValid()
    ensures ValidCmp(FstCmp) && !Strict(FstCmp)
  {
    assert FstCmp((0, 1), (0, 2)) == 0;
    forall a, b ensures SignFlips(FstCmp, a, b) { }
    forall a, b, c ensures Chains(FstCmp, a, b, c) { }
  }

  /**
   * Pushing three elements that compare equal, tagged 1, 2 and 3 in the
   * order pushed, leaves them in the order 2, 3, 1: the second goes in
   * front of the first (the tail check finds the first and `insert` splices
   * before it), the third in front of the last.
   */
  lemma InsertionOrderAsWritten()
    ensures InsertAll(FstCmp, [], [(0, 1), (0, 2), (0, 3)]) == [(0, 2), (0, 3), (0, 1)]
  {
    assert Locate(FstCmp, [(0, 1)], (0, 2)) == Found(0);
    assert Locate(FstCmp, [(0, 2), (0, 1)], (0, 3)) == Found(1);
  }

  /** Inserting at upper bounds, the same three elements stay in the order pushed. */
  lemma InsertionOrderStable()
    ensures StableInsertAll(FstCmp, [], [(0, 1), (0, 2), (0, 3)]) == [(0, 1), (0, 2), (0, 3)]
  {
  }

  /** The routing and buffer facts the two-halves insertion-order scenario steps through. */
  lemma FstSteps()
    ensures !RoutesLeft(FstCmp, [], [], (0, 1)) && Inserted(FstCmp, [], (0, 1)) == [(0, 1)]
    ensures RoutesLeft(FstCmp, [], [(0, 1)], (0, 2)) && Inserted(Invert(FstCmp), [], (0, 2)) == [(0, 2)]
  {
    assert InsertAt<(int, int)>([], 0, (0, 1)) == [(0, 1)];
    assert InsertAt<(int, int)>([], 0, (0, 2)) == [(0, 2)];
  }

  /**
   * The two-halves container does not keep insertion order among equal
   * elements either: the first of two equal elements goes right, the second
   * compares at most `right.first()` and goes left, so `toArray` lists the
   * second before the first.
   */
  method DoubleInsertionOrderAsWritten() returns (a: seq<(int, int)>)
    ensures a == [(0, 2), (0, 1)]
  {
    var d := TwoEqualPairs();
    a := d.ToArray();
    assert a == Reverse([(0, 2)]) + [(0, 1)];
  }

  /** Inserting `(0, 1)` and then `(0, 2)` under `FstCmp` puts the first right and the second left. */
  method TwoEqualPairs() returns (d: DoubleSortedArray<(int, int)>)
    ensures fresh(d) && fresh(d.left) && fresh(d.right) && d.Valid() && d.cmp == FstCmp
    ensures d.left.buf == [(0, 2)] && d.right.buf == [(0, 1)]
  {
    FstCmpValid();
    FstSteps();
    d := new DoubleSortedArray(FstCmp);
    var ok := d.Insert((0, 1));
    ok := d.Insert((0, 2));
  }

  /** JavaScript's falsy numbers, as far as integers go. */
  predicate IsZero(x: int) {
    x == 0
  }

  /**
   * With `0` in both halves, the source's `delete(0)` removes the `0` from
   * the left half, finds that result falsy, and removes the `0` from the
   * right half too: two elements leave the container.
   */
  lemma DeleteAsWrittenRemovesTwo()
    ensures DeletedAsWritten(NumCmp, IsZero, [0], [0], 0) == ([], [])
    ensures (Deleted(Invert(NumCmp), [0], 0), DeletedRight(NumCmp, [0], [0], 0)) == ([], [0])
  {
  }

  /** The routing and buffer facts the two-zeros scenario steps through. */
  lemma ZeroSteps()
    ensures !RoutesLeft(NumCmp, [], [], 0) && Inserted(NumCmp, [], 0) == [0]
    ensures RoutesLeft(NumCmp, [], [0], 0) && Inserted(Invert(NumCmp), [], 0) == [0]
  {
    assert InsertAt([], 0, 0) == [0];
  }

  /** Inserting `0` twice puts one `0` in each half. */
  method TwoZeros() returns (d: DoubleSortedArray<int>)
    ensures fresh(d) && fresh(d.left) && fresh(d.right) && d.Valid() && d.cmp == NumCmp
    ensures d.left.buf == [0] && d.right.buf == [0]
  {
    NumCmpValid();
    ZeroSteps();
    d := new DoubleSortedArray(NumCmp);
    var ok := d.Insert(0);
    ok := d.Insert(0);
  }

  /**
   * On a container holding `0` in each half, `delete(0)` removes exactly
   * one of them, where the source's falsy test removes both.
   */
  method DeleteZeroScenario() returns (before: seq<int>, after: seq<int>)
    ensures before == [0, 0] && after == [0]
  {
    var d := TwoZeros();
    before := d.ToArray();
    assert before == Reverse([0]) + [0];
    d.Delete(0);
    DeleteAsWrittenRemovesTwo();
    after := d.ToArray();
    assert after == Reverse<int>([]) + [0];
  }

  /** The length is 0 on a fresh container, 1 after one insertion and 3 after three. */
  method LengthScenario() returns (n0: nat, n1: nat, n3: nat)
    ensures n0 == 0 && n1 == 1 && n3 == 3
  {
    NumCmpValid();
    var d := new DoubleSortedArray(NumCmp);
    n0 := d.Length();
    var ok := d.Insert(1);
    n1 := d.Length();
    ok := d.Insert(2);
    ok := d.Insert(3);
    n3 := d.Length();
  }
}
