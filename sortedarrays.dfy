/**
 * `SortedArray`: one buffer kept in comparator order.  Every operation is
 * built on the search of module Search and on splicing the buffer in place.
 * The buffer is a growable array in the source; here it is a sequence field
 * that each mutating method reassigns.
 */
module SortedArrays {
  import opened Options
  import opened Ordering
  import opened Search

  /** `splice(i, 0, v)`: `v` put at position `i`, everything from `i` on moved up by one. */
  function InsertAt<T>(s: seq<T>, i: nat, v: T): (r: seq<T>)
    requires i <= |s|
    ensures |r| == |s| + 1 && r[i] == v
    ensures multiset(r) == multiset(s) + multiset{v}
  {
    assert s == s[..i] + s[i..];
    s[..i] + [v] + s[i..]
  }

  /** `splice(i, 1)`: the element at position `i` taken out, everything after it moved down by one. */
  function RemoveAt<T>(s: seq<T>, i: nat): (r: seq<T>)
    requires i < |s|
    ensures |r| == |s| - 1
    ensures forall k :: 0 <= k < i ==> r[k] == s[k]
    ensures forall k :: i <= k < |r| ==> r[k] == s[k + 1]
    ensures multiset(r) == multiset(s) - multiset{s[i]}
  {
    assert s == s[..i] + [s[i]] + s[i + 1..];
    s[..i] + s[i + 1..]
  }

  /** The buffer after `insert(v)`: `v` spliced in at the position the search reports. */
  function Inserted<T(!new)>(cmp: (T, T) -> int, s: seq<T>, v: T): seq<T> {
    InsertAt(s, Locate(cmp, s, v).index, v)
  }

  /** The buffer after `upsert(v)`: an equal element overwritten in its slot, or `v` spliced in. */
  function Upserted<T(!new)>(cmp: (T, T) -> int, s: seq<T>, v: T): seq<T> {
    match Locate(cmp, s, v)
    case Found(i) => s[i := v]
    case NotFound(i) => InsertAt(s, i, v)
  }

  /** The buffer after `delete(v)`: the element the search finds removed, if it finds one. */
  function Deleted<T(!new)>(cmp: (T, T) -> int, s: seq<T>, v: T): seq<T> {
    match Locate(cmp, s, v)
    case Found(i) => RemoveAt(s, i)
    case NotFound(_) => s
  }

  /** The buffer after `push(...es)`: each element inserted in turn. */
  function InsertAll<T(!new)>(cmp: (T, T) -> int, s: seq<T>, es: seq<T>): seq<T>
    decreases |es|
  {
    if es == [] then s else InsertAll(cmp, Inserted(cmp, s, es[0]), es[1..])
  }

  /** `splice(i, 0, v)` keeps the elements before `i` and moves the rest up by one. */
  lemma InsertAtShifts<T>(s: seq<T>, i: nat, v: T)
    requires i <= |s|
    ensures forall k :: 0 <= k < i ==> InsertAt(s, i, v)[k] == s[k]
    ensures forall k :: i < k <= |s| ==> InsertAt(s, i, v)[k] == s[k - 1]
  {
  }

  /** The elements of `s` comparing equal to `v`, in their order in `s`. */
  function EqualTo<T(!new)>(cmp: (T, T) -> int, s: seq<T>, v: T): seq<T>
    decreases |s|
  {
    if s == [] then [] else (if cmp(s[0], v) == 0 then [s[0]] else []) + EqualTo(cmp, s[1..], v)
  }

  /** Picking out the equal elements distributes over concatenation. */
  lemma {:induction false} EqualToConcat<T(!new)>(cmp: (T, T) -> int, a: seq<T>, b: seq<T>, v: T)
    ensures EqualTo(cmp, a + b, v) == EqualTo(cmp, a, v) + EqualTo(cmp, b, v)
    decreases |a|
  {
    if a != [] {
      assert (a + b)[0] == a[0] && (a + b)[1..] == a[1..] + b;
      EqualToConcat(cmp, a[1..], b, v);
    } else {
      assert a + b == b;
    }
  }

  /** Picking out the equal elements after a splice, piece by piece. */
  lemma EqualToInsertAt<T(!new)>(cmp: (T, T) -> int, s: seq<T>, i: nat, e: T, v: T)
    requires i <= |s|
    ensures EqualTo(cmp, InsertAt(s, i, e), v) == EqualTo(cmp, s[..i], v) + EqualTo(cmp, [e], v) + EqualTo(cmp, s[i..], v)
    ensures EqualTo(cmp, s, v) == EqualTo(cmp, s[..i], v) + EqualTo(cmp, s[i..], v)
  {
    var p, q := s[..i], s[i..];
    assert InsertAt(s, i, e) == (p + [e]) + q;
    assert s == p + q;
    EqualToConcat(cmp, p + [e], q, v);
    EqualToConcat(cmp, p, [e], v);
    EqualToConcat(cmp, p, q, v);
  }

  /** A sequence with no element comparing equal to `v` contributes nothing. */
  lemma {:induction false} EqualToNone<T(!new)>(cmp: (T, T) -> int, s: seq<T>, v: T)
    requires forall k :: 0 <= k < |s| ==> cmp(s[k], v) != 0
    ensures EqualTo(cmp, s, v) == []
    decreases |s|
  {
    if s != [] {
      assert forall k :: 0 <= k < |s| - 1 ==> s[1..][k] == s[k + 1];
      EqualToNone(cmp, s[1..], v);
    }
  }

  /** Splicing `v` in between the elements at most `v` and the elements at least `v` keeps the order. */
  lemma InsertAtSorted<T(!new)>(cmp: (T, T) -> int, s: seq<T>, i: nat, v: T)
    requires Sorted(cmp, s) && i <= |s|
    requires forall k :: 0 <= k < i ==> cmp(s[k], v) <= 0
    requires forall k :: i <= k < |s| ==> cmp(v, s[k]) <= 0
    ensures Sorted(cmp, InsertAt(s, i, v))
  {
    InsertAtShifts(s, i, v);
  }

  /** Removing an element keeps the order. */
  lemma RemoveAtSorted<T(!new)>(cmp: (T, T) -> int, s: seq<T>, i: nat)
    requires Sorted(cmp, s) && i < |s|
    ensures Sorted(cmp, RemoveAt(s, i))
  {
  }

  /** Overwriting an element with one that compares equal to it keeps the order. */
  lemma ReplaceEqualSorted<T(!new)>(cmp: (T, T) -> int, s: seq<T>, i: nat, v: T)
    requires ValidCmp(cmp) && Sorted(cmp, s) && i < |s| && cmp(s[i], v) == 0
    ensures Sorted(cmp, s[i := v])
  {
    var r := s[i := v];
    Flip(cmp, s[i], v);
    forall p, q | 0 <= p < q < |r| ensures cmp(r[p], r[q]) <= 0 {
      if q == i {
        Transitive(cmp, s[p], s[i], v);
      } else if p == i {
        Transitive(cmp, v, s[i], s[q]);
      }
    }
  }

  /** `insert` keeps the buffer sorted, grows it by one and adds exactly `v`. */
  lemma InsertedSorted<T(!new)>(cmp: (T, T) -> int, s: seq<T>, v: T)
    requires ValidCmp(cmp) && Sorted(cmp, s)
    ensures Sorted(cmp, Inserted(cmp, s, v))
    ensures |Inserted(cmp, s, v)| == |s| + 1
    ensures multiset(Inserted(cmp, s, v)) == multiset(s) + multiset{v}
  {
    LocateFits(cmp, s, v);
    InsertAtSorted(cmp, s, Locate(cmp, s, v).index, v);
  }

  /**
   * `upsert` keeps the buffer sorted.  When an equal element exists it is
   * overwritten in place, so the length is unchanged; otherwise exactly `v`
   * is added.
   */
  lemma UpsertedSorted<T(!new)>(cmp: (T, T) -> int, s: seq<T>, v: T)
    requires ValidCmp(cmp) && Sorted(cmp, s)
    ensures Sorted(cmp, Upserted(cmp, s, v))
    ensures HasEqual(cmp, s, v) ==> |Upserted(cmp, s, v)| == |s|
    ensures !HasEqual(cmp, s, v) ==> multiset(Upserted(cmp, s, v)) == multiset(s) + multiset{v}
  {
    LocateSound(cmp, s, v);
    match Locate(cmp, s, v)
    case Found(i) =>
      ReplaceEqualSorted(cmp, s, i, v);
    case NotFound(i) =>
      LocateFits(cmp, s, v);
      InsertAtSorted(cmp, s, i, v);
  }

  /**
   * The search on a buffer whose element at `i` compares equal to `v`, with
   * only smaller elements before `i`, finds `i`: either `i` is the last index
   * or the last element is greater than `v` and the lower bound is `i`.
   */
  lemma LocateAtEqual<T(!new)>(cmp: (T, T) -> int, t: seq<T>, v: T, i: nat)
    requires i < |t| && cmp(t[i], v) == 0
    requires i < |t| - 1 ==> cmp(t[|t| - 1], v) > 0 && forall k :: 0 <= k < i ==> cmp(t[k], v) < 0
    ensures Locate(cmp, t, v) == Found(i)
  {
    if i < |t| - 1 {
      LowerBoundAt(cmp, t, v, i);
    }
  }

  /** After an overwriting `upsert(v)` the search finds `v` where it was written. */
  lemma UpsertFoundLocates<T(!new)>(cmp: (T, T) -> int, s: seq<T>, v: T)
    requires ValidCmp(cmp) && Sorted(cmp, s) && Locate(cmp, s, v).Found?
    ensures Locate(cmp, Upserted(cmp, s, v), v) == Locate(cmp, s, v)
  {
    var i := Locate(cmp, s, v).index;
    var t := s[i := v];
    LocateSound(cmp, s, v);
    Reflexive(cmp, v);
    if i < |s| - 1 {
      assert cmp(s[|s| - 1], v) > 0 && i == LowerBound(cmp, s, v);
    }
    LocateAtEqual(cmp, t, v, i);
  }

  /** After an inserting `upsert(v)` the search finds `v` where it was spliced in. */
  lemma UpsertNotFoundLocates<T(!new)>(cmp: (T, T) -> int, s: seq<T>, v: T)
    requires ValidCmp(cmp) && Sorted(cmp, s) && Locate(cmp, s, v).NotFound?
    ensures Locate(cmp, Upserted(cmp, s, v), v) == Found(Locate(cmp, s, v).index)
  {
    var i := Locate(cmp, s, v).index;
    var t := InsertAt(s, i, v);
    InsertAtShifts(s, i, v);
    LocateSound(cmp, s, v);
    Reflexive(cmp, v);
    if i < |t| - 1 {
      assert t[|t| - 1] == s[|s| - 1];
    }
    LocateAtEqual(cmp, t, v, i);
  }

  /**
   * After `upsert(v)` the search finds `v` itself, so a second `upsert(v)`
   * overwrites `v` with `v`: it reports "updated" and leaves the buffer as it was.
   */
  lemma UpsertIdempotent<T(!new)>(cmp: (T, T) -> int, s: seq<T>, v: T)
    requires ValidCmp(cmp) && Sorted(cmp, s)
    ensures Locate(cmp, Upserted(cmp, s, v), v).Found?
    ensures Upserted(cmp, Upserted(cmp, s, v), v) == Upserted(cmp, s, v)
  {
    var t := Upserted(cmp, s, v);
    var i := Locate(cmp, s, v).index;
    if Locate(cmp, s, v).Found? {
      UpsertFoundLocates(cmp, s, v);
    } else {
      UpsertNotFoundLocates(cmp, s, v);
    }
    assert t[i] == v;
    assert t[i := v] == t;
  }

  /**
   * `delete(v)` keeps the buffer sorted; when an equal element exists it
   * removes exactly one element, which compares equal to `v`; otherwise it
   * changes nothing.
   */
  lemma DeletedSorted<T(!new)>(cmp: (T, T) -> int, s: seq<T>, v: T)
    requires ValidCmp(cmp) && Sorted(cmp, s)
    ensures Sorted(cmp, Deleted(cmp, s, v))
    ensures HasEqual(cmp, s, v) <==> Locate(cmp, s, v).Found?
    ensures HasEqual(cmp, s, v) ==>
      var i := Locate(cmp, s, v).index;
      && cmp(s[i], v) == 0
      && |Deleted(cmp, s, v)| == |s| - 1
      && multiset(Deleted(cmp, s, v)) == multiset(s) - multiset{s[i]}
    ensures !HasEqual(cmp, s, v) ==> Deleted(cmp, s, v) == s
  {
    LocateSound(cmp, s, v);
    if HasEqual(cmp, s, v) {
      RemoveAtSorted(cmp, s, Locate(cmp, s, v).index);
    }
  }

  /** `push` of a whole list keeps the buffer sorted and adds exactly the pushed elements. */
  lemma {:induction false} InsertAllSorted<T(!new)>(cmp: (T, T) -> int, s: seq<T>, es: seq<T>)
    requires ValidCmp(cmp) && Sorted(cmp, s)
    ensures Sorted(cmp, InsertAll(cmp, s, es))
    ensures |InsertAll(cmp, s, es)| == |s| + |es|
    ensures multiset(InsertAll(cmp, s, es)) == multiset(s) + multiset(es)
    decreases |es|
  {
    if es != [] {
      InsertedSorted(cmp, s, es[0]);
      InsertAllSorted(cmp, Inserted(cmp, s, es[0]), es[1..]);
      assert es == [es[0]] + es[1..];
    }
  }
  /**
   * Insertion that keeps comparator-equal elements in insertion order: `v`
   * spliced in after every element at most `v`, at the upper bound.  The
   * containers do not insert this way; see `InsertionOrderAsWritten`.
   */
  function StableInserted<T(!new)>(cmp: (T, T) -> int, s: seq<T>, v: T): seq<T> {
    InsertAt(s, UpperBound(cmp, s, v), v)
  }

  /** Each element of `es` inserted in turn at its upper bound. */
  function StableInsertAll<T(!new)>(cmp: (T, T) -> int, s: seq<T>, es: seq<T>): seq<T>
    decreases |es|
  {
    if es == [] then s else StableInsertAll(cmp, StableInserted(cmp, s, es[0]), es[1..])
  }

  /** Inserting at the upper bound keeps the buffer sorted and adds exactly `v`. */
  lemma StableInsertedSorted<T(!new)>(cmp: (T, T) -> int, s: seq<T>, v: T)
    requires ValidCmp(cmp) && Sorted(cmp, s)
    ensures Sorted(cmp, StableInserted(cmp, s, v))
    ensures multiset(StableInserted(cmp, s, v)) == multiset(s) + multiset{v}
  {
    var ub := UpperBound(cmp, s, v);
    UpperBoundSplits(cmp, s, v);
    forall k | ub <= k < |s| ensures cmp(v, s[k]) <= 0 {
      Flip(cmp, s[k], v);
    }
    InsertAtSorted(cmp, s, ub, v);
  }

  /**
   * Inserting `e` at its upper bound puts it after every element equal to
   * it: for any `v`, the elements comparing equal to `v` are the old ones in
   * their old order, followed by `e` when `e` compares equal to `v`.
   */
  lemma StableInsertedKeepsOrder<T(!new)>(cmp: (T, T) -> int, s: seq<T>, e: T, v: T)
    requires ValidCmp(cmp) && Sorted(cmp, s)
    ensures EqualTo(cmp, StableInserted(cmp, s, e), v) == EqualTo(cmp, s, v) + EqualTo(cmp, [e], v)
  {
    var ub := UpperBound(cmp, s, e);
    var t := InsertAt(s, ub, e);
    var p, q, x := EqualTo(cmp, s[..ub], v), EqualTo(cmp, s[ub..], v), EqualTo(cmp, [e], v);
    EqualToInsertAt(cmp, s, ub, e, v);
    if cmp(e, v) == 0 {
      AboveUpperBound(cmp, s, e, v);
    } else {
      EqualToSingle(cmp, e, v);
    }
    Regroup(p, q, x);
    assert t == StableInserted(cmp, s, e);
  }

  /** With one of them empty, `x` and `q` can trade places. */
  lemma Regroup<T>(p: seq<T>, q: seq<T>, x: seq<T>)
    requires q == [] || x == []
    ensures p + x + q == (p + q) + x
  {
  }

  /** A one-element sequence contributes its element exactly when it compares equal. */
  lemma EqualToSingle<T(!new)>(cmp: (T, T) -> int, e: T, v: T)
    ensures EqualTo(cmp, [e], v) == if cmp(e, v) == 0 then [e] else []
  {
    assert [e][1..] == [];
  }

  /** Past the upper bound of `e` nothing compares equal to a `v` that `e` equals. */
  lemma AboveUpperBound<T(!new)>(cmp: (T, T) -> int, s: seq<T>, e: T, v: T)
    requires ValidCmp(cmp) && Sorted(cmp, s) && cmp(e, v) == 0
    ensures EqualTo(cmp, s[UpperBound(cmp, s, e)..], v) == []
  {
    var ub := UpperBound(cmp, s, e);
    var q := s[ub..];
    UpperBoundSplits(cmp, s, e);
    Flip(cmp, e, v);
    forall k | 0 <= k < |q| ensures cmp(q[k], v) != 0 {
      assert q[k] == s[ub + k];
      Flip(cmp, q[k], e);
      LeLt(cmp, v, e, q[k]);
      Flip(cmp, v, q[k]);
    }
    EqualToNone(cmp, q, v);
  }

  /**
   * Pushing a list at upper bounds keeps the buffer sorted and keeps every
   * class of comparator-equal elements in insertion order: old elements
   * first, then the pushed ones in the order they were pushed.
   */
  lemma {:induction false} StableInsertAllKeepsOrder<T(!new)>(cmp: (T, T) -> int, s: seq<T>, es: seq<T>, v: T)
    requires ValidCmp(cmp) && Sorted(cmp, s)
    ensures Sorted(cmp, StableInsertAll(cmp, s, es))
    ensures multiset(StableInsertAll(cmp, s, es)) == multiset(s) + multiset(es)
    ensures EqualTo(cmp, StableInsertAll(cmp, s, es), v) == EqualTo(cmp, s, v) + EqualTo(cmp, es, v)
    decreases |es|
  {
    if es != [] {
      var t := StableInserted(cmp, s, es[0]);
      StableInsertedSorted(cmp, s, es[0]);
      StableInsertedKeepsOrder(cmp, s, es[0], v);
      StableInsertAllKeepsOrder(cmp, t, es[1..], v);
      assert es == [es[0]] + es[1..];
      EqualToConcat(cmp, [es[0]], es[1..], v);
    }
  }


  class SortedArray<T(!new)> {
    const cmp: (T, T) -> int
    var buf: seq<T>

    /** The buffer is in comparator order, for a comparator that meets its contract. */
    ghost predicate Valid()
      reads this
    {
      ValidCmp(cmp) && Sorted(cmp, buf)
    }

    constructor (cmp: (T, T) -> int)
      requires ValidCmp(cmp)
      ensures Valid() && this.cmp == cmp && buf == []
    {
      this.cmp := cmp;
      buf := [];
    }

    /**
     * `fromArray`: a container holding exactly the elements of `arr`, in
     * comparator order.
     */
    static method FromArray(arr: seq<T>, cmp: (T, T) -> int) returns (s: SortedArray<T>)
      requires ValidCmp(cmp)
      ensures fresh(s) && s.Valid() && s.cmp == cmp
      ensures multiset(s.buf) == multiset(arr)
    {
      s := new SortedArray(cmp);
      var _ := s.Push(arr);
    }

    /** `push(...elements)`: each element inserted in turn; the new length is returned. */
    method Push(elements: seq<T>) returns (n: nat)
      requires Valid()
      modifies this
      ensures Valid()
      ensures buf == InsertAll(cmp, old(buf), elements)
      ensures multiset(buf) == old(multiset(buf)) + multiset(elements)
      ensures n == |buf| == old(|buf|) + |elements|
    {
      InsertAllSorted(cmp, buf, elements);
      var i := 0;
      while i < |elements|
        invariant 0 <= i <= |elements|
        invariant Valid()
        invariant InsertAll(cmp, buf, elements[i..]) == InsertAll(cmp, old(buf), elements)
      {
        assert elements[i..][1..] == elements[i + 1..];
        var _ := Insert(elements[i]);
        i := i + 1;
      }
      assert elements[i..] == [];
      n := |buf|;
    }

    /** `pop`: the last, hence greatest, element taken off the end; absent when empty. */
    method Pop() returns (r: Option<T>)
      requires Valid()
      modifies this
      ensures Valid()
      ensures old(buf) == [] ==> r == None && buf == []
      ensures old(buf) != [] ==> r == Some(old(buf)[|old(buf)| - 1]) && buf == old(buf)[..|old(buf)| - 1]
      ensures r.Some? ==> forall k :: 0 <= k < |buf| ==> cmp(buf[k], r.value) <= 0
    {
      if |buf| > 0 {
        r := Some(buf[|buf| - 1]);
        buf := buf[..|buf| - 1];
      } else {
        r := None;
      }
    }

    /** `clear`: the buffer emptied. */
    method Clear()
      requires Valid()
      modifies this
      ensures Valid() && buf == []
    {
      buf := [];
    }

    /** `insert`: `v` spliced in at the position the search reports; always reports success. */
    method Insert(v: T) returns (ok: bool)
      requires Valid()
      modifies this
      ensures Valid() && ok
      ensures buf == Inserted(cmp, old(buf), v)
      ensures |buf| == old(|buf|) + 1 && multiset(buf) == old(multiset(buf)) + multiset{v}
    {
      InsertedSorted(cmp, buf, v);
      var idx := FindIndexFor(v);
      buf := InsertAt(buf, idx.index, v);
      return true;
    }

    /** `deleteAt`: the element at `idx` removed and returned; absent, and nothing changed, past the end. */
    method DeleteAt(idx: nat) returns (r: Option<T>)
      requires Valid()
      modifies this
      ensures Valid()
      ensures idx < old(|buf|) ==> r == Some(old(buf)[idx]) && buf == RemoveAt(old(buf), idx)
      ensures idx >= old(|buf|) ==> r == None && buf == old(buf)
    {
      if idx < |buf| {
        RemoveAtSorted(cmp, buf, idx);
        r := Some(buf[idx]);
        buf := RemoveAt(buf, idx);
      } else {
        r := None;
      }
    }

    /**
     * `delete`: when an element compares equal to `v`, one such element is
     * removed and returned; otherwise absent is returned and nothing changes.
     */
    method Delete(v: T) returns (r: Option<T>)
      requires Valid()
      modifies this
      ensures Valid()
      ensures buf == Deleted(cmp, old(buf), v)
      ensures r.Some? <==> HasEqual(cmp, old(buf), v)
      ensures r.Some? ==> cmp(r.value, v) == 0 && multiset(buf) == old(multiset(buf)) - multiset{r.value}
      ensures r.None? ==> buf == old(buf)
    {
      DeletedSorted(cmp, buf, v);
      var idx := FindIndexFor(v);
      if idx.Found? {
        r := DeleteAt(idx.index);
        return;
      }
      return None;
    }

    /**
     * `upsert`: when an element compares equal to `v` it is overwritten by
     * `v` in its slot and "updated" (false) is reported; otherwise `v` is
     * spliced in and "inserted" (true) is reported.
     */
    method Upsert(v: T) returns (inserted: bool)
      requires Valid()
      modifies this
      ensures Valid()
      ensures buf == Upserted(cmp, old(buf), v)
      ensures inserted <==> !HasEqual(cmp, old(buf), v)
      ensures !inserted ==> |buf| == old(|buf|)
      ensures inserted ==> multiset(buf) == old(multiset(buf)) + multiset{v}
    {
      UpsertedSorted(cmp, buf, v);
      var idx := FindIndexFor(v);
      if idx.Found? {
        buf := buf[idx.index := v];
        return false;
      } else {
        buf := InsertAt(buf, idx.index, v);
        return true;
      }
    }

    /**
     * `findIndexFor`: the tail check, then a linear scan below eight
     * elements or a binary search from eight on.  What it returns is the
     * search outcome `Locate` describes, with the meaning `LocateSound` proves.
     */
    method FindIndexFor(v: T) returns (r: SearchResult)
      requires Valid()
      ensures r == Locate(cmp, buf, v)
      ensures |buf| == 0 ==> r == NotFound(0)
      ensures |buf| > 0 && cmp(buf[|buf| - 1], v) < 0 ==> r == NotFound(|buf|)
      ensures r.index <= |buf|
      ensures r.Found? ==> r.index < |buf| && cmp(buf[r.index], v) == 0
      ensures r.NotFound? ==>
        && (forall k :: 0 <= k < r.index ==> cmp(buf[k], v) < 0)
        && (forall k :: r.index <= k < |buf| ==> cmp(buf[k], v) > 0)
    {
      LocateSound(cmp, buf, v);
      if |buf| == 0 {
        return NotFound(0);
      }
      var length: nat := |buf|;
      var lastIndex := length - 1;
      var c := cmp(buf[lastIndex], v);
      if c == 0 {
        return Found(lastIndex);
      } else if c < 0 {
        return NotFound(lastIndex + 1);
      }
      if length < 8 {
        var i := 0;
        while i < length
          invariant 0 <= i <= length
          invariant forall k :: 0 <= k < i ==> cmp(buf[k], v) < 0
        {
          c := cmp(buf[i], v);
          if c == 0 {
            LowerBoundAt(cmp, buf, v, i);
            return Found(i);
          } else if c > 0 {
            LowerBoundAt(cmp, buf, v, i);
            return NotFound(i);
          }
          i := i + 1;
        }
        // Unreachable: the tail check left `cmp(last, v) > 0`, so the scan
        // returns at the latest on the last element.
        assert false;
        return NotFound(length);
      } else {
        r := BinarySearchResult(buf, v, cmp);
      }
    }

    /** `first`: the least element, absent when the buffer is empty. */
    function First(): (r: Option<T>)
      reads this
      requires Valid()
      ensures r.None? <==> |buf| == 0
      ensures r.Some? ==> r.value == buf[0] && forall k :: 0 <= k < |buf| ==> cmp(r.value, buf[k]) <= 0
    {
      if |buf| > 0 then
        Reflexive(cmp, buf[0]);
        Some(buf[0])
      else None
    }

    /** `last`: the greatest element, absent when the buffer is empty. */
    function Last(): (r: Option<T>)
      reads this
      requires Valid()
      ensures r.None? <==> |buf| == 0
      ensures r.Some? ==> r.value == buf[|buf| - 1] && forall k :: 0 <= k < |buf| ==> cmp(buf[k], r.value) <= 0
    {
      if |buf| > 0 then
        Reflexive(cmp, buf[|buf| - 1]);
        Some(buf[|buf| - 1])
      else None
    }
  }
}
