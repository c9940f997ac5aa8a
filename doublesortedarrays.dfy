/**
 * `DoubleSortedArray`: one sorted sequence split into two `SortedArray`
 * halves.  `left` holds the smaller elements under the negated comparator
 * (descending in real order), `right` the larger ones under the comparator
 * itself; read back to front and then front to back they form the whole
 * sequence in order.
 */
module DoubleSortedArrays {
  import opened Options
  import opened Ordering
  import opened Search
  import opened SortedArrays

  /**
   * The routing rule of `insert`: nothing stored goes right; with `left`
   * empty, `v` goes left when it is at most the first (least) element of
   * `right`; otherwise `v` goes left when it is at most the last element of
   * `left` (its least) or at most the first element of `left` (its greatest).
   */
  ghost predicate RoutesLeft<T(!new)>(cmp: (T, T) -> int, l: seq<T>, r: seq<T>, v: T) {
    if |l| + |r| == 0 then false
    else if |l| == 0 then cmp(v, r[0]) <= 0
    else cmp(v, l[|l| - 1]) <= 0 || cmp(v, l[0]) <= 0
  }

  /** The invariant of the two halves, stated on their buffers. */
  ghost predicate Halves<T(!new)>(cmp: (T, T) -> int, l: seq<T>, r: seq<T>) {
    ValidCmp(cmp) && Sorted(Invert(cmp), l) && Sorted(cmp, r) && AllLe(cmp, l, r)
  }

  /** With the invariant, the left half read back to front and then the right half is sorted. */
  lemma JoinSorted<T(!new)>(cmp: (T, T) -> int, l: seq<T>, r: seq<T>)
    requires Halves(cmp, l, r)
    ensures Sorted(cmp, Reverse(l) + r)
  {
    InvertSortedIsReverseSorted(cmp, l);
    var rl := Reverse(l);
    var s := rl + r;
    forall i, j | 0 <= i < j < |s| ensures cmp(s[i], s[j]) <= 0 {
      if j < |rl| {
        assert s[i] == rl[i] && s[j] == rl[j];
      } else if i < |rl| {
        assert s[i] == l[|l| - 1 - i] && s[j] == r[j - |rl|];
        assert s[i] in l && s[j] in r;
      } else {
        assert s[i] == r[i - |rl|] && s[j] == r[j - |rl|];
      }
    }
  }

  /**
   * The routing rule keeps the halves apart: a value routed left compares
   * at most every element of `right`, and a value routed right compares at
   * least every element of `left`.
   */
  lemma RoutingKeepsBoundary<T(!new)>(cmp: (T, T) -> int, l: seq<T>, r: seq<T>, v: T)
    requires Halves(cmp, l, r)
    ensures RoutesLeft(cmp, l, r, v) ==> forall b :: b in r ==> cmp(v, b) <= 0
    ensures !RoutesLeft(cmp, l, r, v) ==> forall a :: a in l ==> cmp(a, v) <= 0
  {
    if RoutesLeft(cmp, l, r, v) {
      forall b | b in r ensures cmp(v, b) <= 0 {
        var j :| 0 <= j < |r| && r[j] == b;
        if |l| == 0 {
          if j > 0 { Transitive(cmp, v, r[0], b); }
        } else if cmp(v, l[|l| - 1]) <= 0 {
          assert l[|l| - 1] in l;
          Transitive(cmp, v, l[|l| - 1], b);
        } else {
          assert l[0] in l;
          Transitive(cmp, v, l[0], b);
        }
      }
    } else if |l| > 0 {
      forall a | a in l ensures cmp(a, v) <= 0 {
        var i :| 0 <= i < |l| && l[i] == a;
        Flip(cmp, v, l[0]);
        if i > 0 {
          assert Invert(cmp)(l[0], l[i]) <= 0;
          InvertLe(cmp, l[0], l[i]);
          Transitive(cmp, a, l[0], v);
        }
      }
    }
  }

  /**
   * In a non-empty left half the first test of the routing rule is implied
   * by the second: `v` goes left exactly when it is at most the greatest
   * element of `left`.
   */
  lemma RoutesLeftByMaximum<T(!new)>(cmp: (T, T) -> int, l: seq<T>, r: seq<T>, v: T)
    requires Halves(cmp, l, r) && |l| > 0
    ensures RoutesLeft(cmp, l, r, v) <==> cmp(v, l[0]) <= 0
  {
    if |l| > 1 && cmp(v, l[|l| - 1]) <= 0 {
      assert Invert(cmp)(l[0], l[|l| - 1]) <= 0;
      InvertLe(cmp, l[0], l[|l| - 1]);
      Transitive(cmp, v, l[|l| - 1], l[0]);
    }
  }

  /**
   * `delete` as the source writes it, `left.delete(v) || right.delete(v)`:
   * the right half is searched whenever the left half's result is falsy,
   * and that includes an element the left half did remove when the element
   * is itself falsy (`0`, `""`, `false`); `falsy` says which elements those
   * are.  The pair holds the new left and right buffers.
   */
  function DeletedAsWritten<T(!new)>(cmp: (T, T) -> int, falsy: T -> bool, l: seq<T>, r: seq<T>, v: T): (seq<T>, seq<T>) {
    var found := Locate(Invert(cmp), l, v);
    var l' := Deleted(Invert(cmp), l, v);
    if found.Found? && !falsy(l[found.index]) then (l', r) else (l', Deleted(cmp, r, v))
  }

  /**
   * Where no removed element is falsy the source's test and the model's
   * "left returned absent" test agree.
   */
  lemma DeletedAsWrittenAgrees<T(!new)>(cmp: (T, T) -> int, falsy: T -> bool, l: seq<T>, r: seq<T>, v: T)
    requires forall x :: x in l ==> !falsy(x)
    ensures DeletedAsWritten(cmp, falsy, l, r, v) == (Deleted(Invert(cmp), l, v), DeletedRight(cmp, l, r, v))
  {
    var found := Locate(Invert(cmp), l, v);
    if found.Found? {
      assert l[found.index] in l;
    }
  }

  /** Adding to `left` an element at most everything in `right` keeps the boundary. */
  lemma GrowLeftKeepsBoundary<T(!new)>(cmp: (T, T) -> int, l: seq<T>, r: seq<T>, l': seq<T>, v: T)
    requires AllLe(cmp, l, r) && multiset(l') == multiset(l) + multiset{v}
    requires forall b :: b in r ==> cmp(v, b) <= 0
    ensures AllLe(cmp, l', r)
  {
    forall a, b | a in l' && b in r ensures cmp(a, b) <= 0 {
      assert a in multiset(l');
      if a != v { assert a in l; }
    }
  }

  /** Adding to `right` an element at least everything in `left` keeps the boundary. */
  lemma GrowRightKeepsBoundary<T(!new)>(cmp: (T, T) -> int, l: seq<T>, r: seq<T>, r': seq<T>, v: T)
    requires AllLe(cmp, l, r) && multiset(r') == multiset(r) + multiset{v}
    requires forall a :: a in l ==> cmp(a, v) <= 0
    ensures AllLe(cmp, l, r')
  {
    forall a, b | a in l && b in r' ensures cmp(a, b) <= 0 {
      assert b in multiset(r');
      if b != v { assert b in r; }
    }
  }

  /**
   * Some element of `left` read backwards then `right` compares equal to `v`
   * exactly when one of the halves has such an element.
   */
  lemma HasEqualJoin<T(!new)>(cmp: (T, T) -> int, l: seq<T>, r: seq<T>, v: T)
    ensures HasEqual(cmp, Reverse(l) + r, v) <==> HasEqual(cmp, l, v) || HasEqual(cmp, r, v)
  {
    var s := Reverse(l) + r;
    if HasEqual(cmp, s, v) {
      var k :| 0 <= k < |s| && cmp(s[k], v) == 0;
      if k < |l| {
        assert l[|l| - 1 - k] == s[k];
      } else {
        assert r[k - |l|] == s[k];
      }
    }
    if HasEqual(cmp, l, v) {
      var k :| 0 <= k < |l| && cmp(l[k], v) == 0;
      assert s[|l| - 1 - k] == l[k];
    }
    if HasEqual(cmp, r, v) {
      var k :| 0 <= k < |r| && cmp(r[k], v) == 0;
      assert s[|l| + k] == r[k];
    }
  }

  /** Removing logical position `i` inside the left half is removing slot `|l| - 1 - i` of `l`. */
  lemma RemoveFromLeft<T(!new)>(l: seq<T>, r: seq<T>, i: nat)
    requires i < |l|
    ensures Reverse(RemoveAt(l, |l| - 1 - i)) + r == RemoveAt(Reverse(l) + r, i)
  {
    var rl, l' := Reverse(l), RemoveAt(l, |l| - 1 - i);
    var rl' := Reverse(l');
    var s := rl + r;
    var a, b := rl' + r, RemoveAt(s, i);
    assert |a| == |b|;
    forall k | 0 <= k < |a| ensures a[k] == b[k] {
      if k < |l'| {
        assert a[k] == rl'[k] == l'[|l'| - 1 - k];
        if k < i {
          assert l'[|l'| - 1 - k] == l[|l| - 1 - k] == rl[k] == s[k];
        } else {
          assert l'[|l'| - 1 - k] == l[|l| - 2 - k] == rl[k + 1] == s[k + 1];
        }
      } else {
        assert a[k] == r[k - |l'|] == s[k + 1];
      }
    }
  }

  /** Removing logical position `i` past the left half is removing slot `i - |l|` of `r`. */
  lemma RemoveFromRight<T(!new)>(l: seq<T>, r: seq<T>, i: nat)
    requires |l| <= i < |l| + |r|
    ensures Reverse(l) + RemoveAt(r, i - |l|) == RemoveAt(Reverse(l) + r, i)
  {
    var s, r' := Reverse(l) + r, RemoveAt(r, i - |l|);
    var a, b := Reverse(l) + r', RemoveAt(s, i);
    assert |a| == |b|;
    forall k | 0 <= k < |a| ensures a[k] == b[k] {
      if k < |l| {
        assert a[k] == s[k];
      } else if k < i {
        assert a[k] == r'[k - |l|] == r[k - |l|] == s[k];
      } else {
        assert a[k] == r'[k - |l|] == r[k - |l| + 1] == s[k + 1];
      }
    }
  }

  /**
   * Inserting into the half the routing rule picks keeps the invariant and
   * adds exactly `v` to the whole sequence.
   */
  lemma InsertKeepsHalves<T(!new)>(cmp: (T, T) -> int, l: seq<T>, r: seq<T>, v: T)
    requires Halves(cmp, l, r)
    ensures RoutesLeft(cmp, l, r, v) ==>
      && Halves(cmp, Inserted(Invert(cmp), l, v), r)
      && multiset(Reverse(Inserted(Invert(cmp), l, v)) + r) == multiset(Reverse(l) + r) + multiset{v}
    ensures !RoutesLeft(cmp, l, r, v) ==>
      && Halves(cmp, l, Inserted(cmp, r, v))
      && multiset(Reverse(l) + Inserted(cmp, r, v)) == multiset(Reverse(l) + r) + multiset{v}
  {
    InvertIsValid(cmp);
    RoutingKeepsBoundary(cmp, l, r, v);
    if RoutesLeft(cmp, l, r, v) {
      var l' := Inserted(Invert(cmp), l, v);
      InsertedSorted(Invert(cmp), l, v);
      GrowLeftKeepsBoundary(cmp, l, r, l', v);
      JoinMultiset(l, r);
      JoinMultiset(l', r);
    } else {
      var r' := Inserted(cmp, r, v);
      InsertedSorted(cmp, r, v);
      GrowRightKeepsBoundary(cmp, l, r, r', v);
      JoinMultiset(l, r);
      JoinMultiset(l, r');
    }
  }

  /** Removing elements from either half keeps the invariant. */
  lemma ShrinkKeepsHalves<T(!new)>(cmp: (T, T) -> int, l: seq<T>, r: seq<T>, l': seq<T>, r': seq<T>)
    requires Halves(cmp, l, r)
    requires Sorted(Invert(cmp), l') && Sorted(cmp, r')
    requires multiset(l') <= multiset(l) && multiset(r') <= multiset(r)
    ensures Halves(cmp, l', r')
  {
    forall a, b | a in l' && b in r' ensures cmp(a, b) <= 0 {
      assert a in multiset(l') && b in multiset(r');
    }
  }

  /**
   * Removing logical position `i` inside the left half: the element there is
   * slot `|l| - 1 - i` of `l`, and removing that slot keeps the invariant.
   */
  lemma DeleteAtLeft<T(!new)>(cmp: (T, T) -> int, l: seq<T>, r: seq<T>, i: nat)
    requires Halves(cmp, l, r) && i < |l|
    ensures (Reverse(l) + r)[i] == l[|l| - 1 - i]
    ensures Reverse(RemoveAt(l, |l| - 1 - i)) + r == RemoveAt(Reverse(l) + r, i)
    ensures Halves(cmp, RemoveAt(l, |l| - 1 - i), r)
  {
    InvertIsValid(cmp);
    RemoveFromLeft(l, r, i);
    RemoveAtSorted(Invert(cmp), l, |l| - 1 - i);
    ShrinkKeepsHalves(cmp, l, r, RemoveAt(l, |l| - 1 - i), r);
  }

  /**
   * Removing logical position `i` past the left half: the element there is
   * slot `i - |l|` of `r`, and removing that slot keeps the invariant.
   */
  lemma DeleteAtRight<T(!new)>(cmp: (T, T) -> int, l: seq<T>, r: seq<T>, i: nat)
    requires Halves(cmp, l, r) && |l| <= i < |l| + |r|
    ensures (Reverse(l) + r)[i] == r[i - |l|]
    ensures Reverse(l) + RemoveAt(r, i - |l|) == RemoveAt(Reverse(l) + r, i)
    ensures Halves(cmp, l, RemoveAt(r, i - |l|))
  {
    RemoveFromRight(l, r, i);
    RemoveAtSorted(cmp, r, i - |l|);
    ShrinkKeepsHalves(cmp, l, r, l, RemoveAt(r, i - |l|));
  }

  /** The right half after `delete(v)`: searched only when the search of the left half found nothing. */
  function DeletedRight<T(!new)>(cmp: (T, T) -> int, l: seq<T>, r: seq<T>, v: T): seq<T> {
    if Locate(Invert(cmp), l, v).Found? then r else Deleted(cmp, r, v)
  }

  /** The multiset of the joined sequence is that of the two halves together. */
  lemma JoinMultiset<T(!new)>(l: seq<T>, r: seq<T>)
    ensures multiset(Reverse(l) + r) == multiset(l) + multiset(r)
  {
    ReverseMultiset(l);
  }

  /**
   * `delete(v)` on the two halves keeps the invariant; the search of the
   * left half succeeds exactly when the left half holds an equal element.
   */
  lemma DeleteKeepsHalves<T(!new)>(cmp: (T, T) -> int, l: seq<T>, r: seq<T>, v: T)
    requires Halves(cmp, l, r)
    ensures Locate(Invert(cmp), l, v).Found? <==> HasEqual(cmp, l, v)
    ensures Halves(cmp, Deleted(Invert(cmp), l, v), DeletedRight(cmp, l, r, v))
  {
    InvertIsValid(cmp);
    InvertHasEqual(cmp, l, v);
    DeletedSorted(Invert(cmp), l, v);
    DeletedSorted(cmp, r, v);
    ShrinkKeepsHalves(cmp, l, r, Deleted(Invert(cmp), l, v), DeletedRight(cmp, l, r, v));
  }

  /** `delete(v)` finding an equal element in the left half removes exactly that one. */
  lemma DeleteFromLeft<T(!new)>(cmp: (T, T) -> int, l: seq<T>, r: seq<T>, v: T) returns (e: T)
    requires ValidCmp(cmp) && Sorted(Invert(cmp), l) && HasEqual(cmp, l, v)
    ensures cmp(e, v) == 0
    ensures multiset(Reverse(Deleted(Invert(cmp), l, v)) + r) + multiset{e} == multiset(Reverse(l) + r)
  {
    var inv := Invert(cmp);
    InvertIsValid(cmp);
    InvertHasEqual(cmp, l, v);
    DeletedSorted(inv, l, v);
    var l' := Deleted(inv, l, v);
    e := l[Locate(inv, l, v).index];
    InvertLe(cmp, e, v);
    JoinMultiset(l, r);
    JoinMultiset(l', r);
    assert e in multiset(l);
  }

  /** `delete(v)` finding no equal element on the left and one on the right removes exactly that one. */
  lemma DeleteFromRight<T(!new)>(cmp: (T, T) -> int, l: seq<T>, r: seq<T>, v: T) returns (e: T)
    requires ValidCmp(cmp) && Sorted(cmp, r) && HasEqual(cmp, r, v)
    ensures cmp(e, v) == 0
    ensures multiset(Reverse(l) + Deleted(cmp, r, v)) + multiset{e} == multiset(Reverse(l) + r)
  {
    DeletedSorted(cmp, r, v);
    var r' := Deleted(cmp, r, v);
    e := r[Locate(cmp, r, v).index];
    JoinMultiset(l, r);
    JoinMultiset(l, r');
    assert e in multiset(r);
  }

  /**
   * `delete(v)` on the two halves: when no element of the whole sequence
   * compares equal to `v` nothing changes; otherwise exactly one element,
   * comparing equal to `v`, leaves the sequence.
   */
  lemma DeleteRemovesOne<T(!new)>(cmp: (T, T) -> int, l: seq<T>, r: seq<T>, v: T) returns (e: T)
    requires Halves(cmp, l, r)
    ensures !HasEqual(cmp, Reverse(l) + r, v) ==>
      Deleted(Invert(cmp), l, v) == l && DeletedRight(cmp, l, r, v) == r
    ensures HasEqual(cmp, Reverse(l) + r, v) ==>
      && cmp(e, v) == 0
      && multiset(Reverse(Deleted(Invert(cmp), l, v)) + DeletedRight(cmp, l, r, v)) + multiset{e}
        == multiset(Reverse(l) + r)
  {
    e := v;
    DeleteKeepsHalves(cmp, l, r, v);
    HasEqualJoin(cmp, l, r, v);
    if HasEqual(cmp, l, v) {
      e := DeleteFromLeft(cmp, l, r, v);
    } else if HasEqual(cmp, r, v) {
      e := DeleteFromRight(cmp, l, r, v);
    } else {
      InvertIsValid(cmp);
      InvertHasEqual(cmp, l, v);
      DeletedSorted(Invert(cmp), l, v);
      DeletedSorted(cmp, r, v);
    }
  }

  class DoubleSortedArray<T(!new)> {
    const cmp: (T, T) -> int
    const left: SortedArray<T>
    const right: SortedArray<T>

    /** Both halves valid, `left` under the negated comparator, and nothing in `left` above anything in `right`. */
    ghost predicate Valid()
      reads this, left, right
    {
      && left != right
      && left.cmp == Invert(cmp) && right.cmp == cmp
      && left.Valid() && right.Valid()
      && Halves(cmp, left.buf, right.buf)
    }

    /** The sequence the container presents: `left` tail to head, then `right` head to tail. */
    ghost function Elements(): seq<T>
      reads this, left, right
    {
      Reverse(left.buf) + right.buf
    }

    constructor (cmp: (T, T) -> int)
      requires ValidCmp(cmp)
      ensures Valid() && this.cmp == cmp && fresh(left) && fresh(right)
      ensures left.buf == [] && right.buf == [] && Elements() == []
    {
      InvertIsValid(cmp);
      this.cmp := cmp;
      left := new SortedArray(Invert(cmp));
      right := new SortedArray(cmp);
    }

    /** `length`: the number of stored elements, the sum of the two halves' lengths. */
    function Length(): (n: nat)
      reads this, left, right
      ensures n == |Elements()| == |left.buf| + |right.buf|
    {
      |left.buf| + |right.buf|
    }

    /**
     * `at`: the element at logical position `index` of the sorted sequence;
     * absent for a negative index or one at or past the length.
     */
    function At(index: int): (r: Option<T>)
      reads this, left, right
      ensures r == if 0 <= index < |Elements()| then Some(Elements()[index]) else None
    {
      if index < 0 || index >= Length() then None
      else if index < |left.buf| then Some(left.buf[|left.buf| - 1 - index])
      else Some(right.buf[index - |left.buf|])
    }

    /**
     * The iterator, collected by `toArray`: `left` from its last position
     * down to its first, then `right` in order.  The result is sorted and is
     * exactly the sequence `At` indexes.
     */
    method ToArray() returns (a: seq<T>)
      requires Valid()
      ensures a == Elements()
      ensures Sorted(cmp, a)
      ensures forall i :: 0 <= i < |a| ==> At(i) == Some(a[i])
    {
      JoinSorted(cmp, left.buf, right.buf);
      a := [];
      var i := |left.buf| - 1;
      while i >= 0
        invariant -1 <= i < |left.buf|
        invariant |a| == |left.buf| - 1 - i
        invariant forall k :: 0 <= k < |a| ==> a[k] == left.buf[|left.buf| - 1 - k]
      {
        a := a + [left.buf[i]];
        i := i - 1;
      }
      assert a == Reverse(left.buf);
      a := a + right.buf;
    }

    /** `insert`: `v` routed to one half by `RoutesLeft` and inserted there; always reports success. */
    method Insert(v: T) returns (ok: bool)
      requires Valid()
      modifies left, right
      ensures Valid() && ok
      ensures RoutesLeft(cmp, old(left.buf), old(right.buf), v) ==>
        left.buf == Inserted(Invert(cmp), old(left.buf), v) && right.buf == old(right.buf)
      ensures !RoutesLeft(cmp, old(left.buf), old(right.buf), v) ==>
        left.buf == old(left.buf) && right.buf == Inserted(cmp, old(right.buf), v)
      ensures |Elements()| == old(|Elements()|) + 1
      ensures multiset(Elements()) == old(multiset(Elements())) + multiset{v}
      ensures Sorted(cmp, Elements())
    {
      ghost var l, r := left.buf, right.buf;
      InsertKeepsHalves(cmp, l, r, v);
      var toLeft: bool;
      if Length() == 0 {
        toLeft := false;
      } else if |left.buf| == 0 {
        var rightFirst := right.First();
        toLeft := cmp(v, rightFirst.value) <= 0;
      } else {
        var leftLast := left.Last();
        if cmp(v, leftLast.value) <= 0 {
          toLeft := true;
        } else {
          var leftFirst := left.First();
          toLeft := cmp(v, leftFirst.value) <= 0;
        }
      }
      assert toLeft == RoutesLeft(cmp, l, r, v);
      if toLeft {
        ok := left.Insert(v);
      } else {
        ok := right.Insert(v);
      }
      JoinSorted(cmp, left.buf, right.buf);
    }

    /** `clear`: both halves emptied. */
    method Clear()
      requires Valid()
      modifies left, right
      ensures Valid() && left.buf == [] && right.buf == [] && Elements() == []
    {
      left.Clear();
      right.Clear();
    }

    /**
     * `delete`: `left` is tried first and `right` only when `left` found
     * nothing; so at most one element, comparing equal to `v`, is removed,
     * and one is removed whenever the sequence holds an equal element.
     */
    method Delete(v: T)
      requires Valid()
      modifies left, right
      ensures Valid()
      ensures left.buf == Deleted(Invert(cmp), old(left.buf), v)
      ensures right.buf == DeletedRight(cmp, old(left.buf), old(right.buf), v)
      ensures !HasEqual(cmp, old(Elements()), v) ==> Elements() == old(Elements())
      ensures HasEqual(cmp, old(Elements()), v) ==>
        exists e :: cmp(e, v) == 0 && multiset(Elements()) + multiset{e} == old(multiset(Elements()))
    {
      ghost var l, r := left.buf, right.buf;
      DeleteKeepsHalves(cmp, l, r, v);
      ghost var e := DeleteRemovesOne(cmp, l, r, v);
      InvertHasEqual(cmp, l, v);
      var d := left.Delete(v);
      if d.None? {
        d := right.Delete(v);
      }
      assert right.buf == DeletedRight(cmp, l, r, v);
    }

    /**
     * `deleteAt`: removes and returns what `At(index)` returns, taking out
     * exactly that logical position; absent, and nothing changed, when
     * `index` is out of range.
     */
    method DeleteAt(index: int) returns (r: Option<T>)
      requires Valid()
      modifies left, right
      ensures Valid()
      ensures r == old(At(index))
      ensures 0 <= index < old(Length()) ==> Elements() == RemoveAt(old(Elements()), index)
      ensures 0 <= index < old(|left.buf|) ==>
        left.buf == RemoveAt(old(left.buf), old(|left.buf|) - 1 - index) && right.buf == old(right.buf)
      ensures old(|left.buf|) <= index < old(Length()) ==>
        left.buf == old(left.buf) && right.buf == RemoveAt(old(right.buf), index - old(|left.buf|))
      ensures !(0 <= index < old(Length())) ==> left.buf == old(left.buf) && right.buf == old(right.buf)
    {
      if index < 0 || index >= Length() {
        return None;
      }
      if index < |left.buf| {
        r := DeleteInLeft(index);
      } else {
        r := DeleteInRight(index);
      }
    }

    /** `deleteAt` for a logical position inside `left`: slot `left.length - 1 - index` goes. */
    method DeleteInLeft(index: nat) returns (r: Option<T>)
      requires Valid() && index < |left.buf|
      modifies left
      ensures Valid()
      ensures r == Some(old(Elements())[index])
      ensures Elements() == RemoveAt(old(Elements()), index)
      ensures left.buf == RemoveAt(old(left.buf), old(|left.buf|) - 1 - index)
    {
      ghost var l, rb := left.buf, right.buf;
      ghost var s := Elements();
      DeleteAtLeft(cmp, l, rb, index);
      ghost var l' := RemoveAt(l, |l| - 1 - index);
      assert s == Reverse(l) + rb;
      r := left.DeleteAt(|left.buf| - 1 - index);
      assert left.buf == l' && right.buf == rb;
    }

    /** `deleteAt` for a logical position past `left`: slot `index - left.length` of `right` goes. */
    method DeleteInRight(index: nat) returns (r: Option<T>)
      requires Valid() && |left.buf| <= index < Length()
      modifies right
      ensures Valid()
      ensures r == Some(old(Elements())[index])
      ensures Elements() == RemoveAt(old(Elements()), index)
      ensures right.buf == RemoveAt(old(right.buf), index - old(|left.buf|))
    {
      ghost var l, rb := left.buf, right.buf;
      DeleteAtRight(cmp, l, rb, index);
      r := right.DeleteAt(index - |left.buf|);
      assert left.buf == l && right.buf == RemoveAt(rb, index - |l|);
    }
  }
}
