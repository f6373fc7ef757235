/**
 * `this.value.sort(comparator)` (dataview.ts, line 200): the record array is
 * reordered in place by the comparator of SortKeys applied to each record's
 * key at the sort field.
 *
 * StableSort is the specification: insertion of each record, left to right,
 * after every record that does not compare greater. SortInPlace is the in-place
 * algorithm and is proved to produce exactly StableSort; the lemmas below say
 * what StableSort guarantees.
 */
module Sorting {
  import opened SortKeys

  /** Every pair of records is in comparator order (`cmp(a, b) <= 0`). */
  predicate SortedBy<R>(s: seq<R>, key: R -> Key, order: int)
  {
    forall i, j | 0 <= i < j < |s| :: SortCompare(order, key(s[i]), key(s[j])) <= 0
  }

  /** Every pair of records is strictly in comparator order: sorted, without ties. */
  predicate StrictlySortedBy<R>(s: seq<R>, key: R -> Key, order: int)
  {
    forall i, j | 0 <= i < j < |s| :: SortCompare(order, key(s[i]), key(s[j])) < 0
  }

  /** No two records of `s` share a key. */
  predicate NoTies<R>(s: seq<R>, key: R -> Key)
  {
    forall i, j | 0 <= i < j < |s| :: key(s[i]) != key(s[j])
  }

  /** Puts `x` after the last record of `s` that does not compare greater than it. */
  function Insert<R>(s: seq<R>, x: R, key: R -> Key, order: int): (r: seq<R>)
    ensures |r| == |s| + 1
  {
    if s == [] || SortCompare(order, key(s[|s| - 1]), key(x)) <= 0 then s + [x]
    else Insert(s[..|s| - 1], x, key, order) + [s[|s| - 1]]
  }

  /** The result of sorting `s` with the comparator. */
  function StableSort<R>(s: seq<R>, key: R -> Key, order: int): (r: seq<R>)
    ensures |r| == |s|
  {
    if s == [] then []
    else Insert(StableSort(s[..|s| - 1], key, order), s[|s| - 1], key, order)
  }

  /** An insertion step adds exactly the inserted record. */
  lemma {:induction false} InsertPermutes<R>(s: seq<R>, x: R, key: R -> Key, order: int)
    ensures multiset(Insert(s, x, key, order)) == multiset(s) + multiset{x}
  {
    if s != [] && SortCompare(order, key(s[|s| - 1]), key(x)) > 0 {
      var n := |s| - 1;
      assert s == s[..n] + [s[n]];
      InsertPermutes(s[..n], x, key, order);
    }
  }

  /** The sorted sequence is a permutation of the input. */
  lemma {:induction false} StableSortPermutes<R>(s: seq<R>, key: R -> Key, order: int)
    ensures multiset(StableSort(s, key, order)) == multiset(s)
  {
    if s != [] {
      var n := |s| - 1;
      assert s == s[..n] + [s[n]];
      StableSortPermutes(s[..n], key, order);
      InsertPermutes(StableSort(s[..n], key, order), s[n], key, order);
    }
  }

  /**
   * Inserting `x` lands it right after position `j - 1` when every record from
   * `j` on compares greater than `x` and the one before `j` does not.
   */
  lemma {:induction false} InsertSplit<R>(s: seq<R>, j: nat, x: R, key: R -> Key, order: int)
    requires j <= |s|
    requires forall k | j <= k < |s| :: SortCompare(order, key(s[k]), key(x)) > 0
    requires j == 0 || SortCompare(order, key(s[j - 1]), key(x)) <= 0
    ensures Insert(s, x, key, order) == s[..j] + [x] + s[j..]
    decreases |s|
  {
    if j < |s| {
      var n := |s| - 1;
      var p := s[..n];
      assert p[..j] == s[..j] && p[j..] + [s[n]] == s[j..];
      InsertSplit(p, j, x, key, order);
    }
  }

  /** One more input record sorted: the outer step of insertion sort. */
  lemma SortStep<R>(before: seq<R>, input: seq<R>, i: nat, key: R -> Key, order: int)
    requires i < |input|
    requires before == StableSort(input[..i], key, order) + input[i..]
    ensures Insert(before[..i], before[i], key, order) + before[i + 1..]
         == StableSort(input[..i + 1], key, order) + input[i + 1..]
  {
    var sorted := StableSort(input[..i], key, order);
    assert before[..i] == sorted;
    assert before[i] == input[i];
    assert before[i + 1..] == input[i + 1..];
    assert input[..i + 1][..i] == input[..i];
  }

  /**
   * Moves `a[i]` left past the records of `a[..i]` that compare greater than it:
   * one step of insertion sort.
   */
  method InsertInPlace<R>(a: array<R>, i: nat, key: R -> Key, order: int)
    requires i < a.Length
    modifies a
    ensures a[..] == Insert(old(a[..i]), old(a[i]), key, order) + old(a[i + 1..])
  {
    ghost var done := a[..i];
    ghost var rest := a[i + 1..];
    var x := a[i];
    var j := i;
    while j > 0 && SortCompare(order, key(a[j - 1]), key(x)) > 0
      invariant 0 <= j <= i
      invariant forall k | 0 <= k < j :: a[k] == done[k]
      invariant a[j] == x
      invariant forall k | j < k <= i :: a[k] == done[k - 1]
      invariant forall k | i < k < a.Length :: a[k] == rest[k - i - 1]
      invariant forall k | j <= k < i :: SortCompare(order, key(done[k]), key(x)) > 0
    {
      a[j - 1], a[j] := a[j], a[j - 1];
      j := j - 1;
    }
    InsertSplit(done, j, x, key, order);
    assert a[..] == done[..j] + [x] + done[j..] + rest;
  }

  /** Sorts `a` in place by insertion, left to right. */
  method SortInPlace<R>(a: array<R>, key: R -> Key, order: int)
    modifies a
    ensures a[..] == StableSort(old(a[..]), key, order)
  {
    ghost var input := a[..];
    var i := 0;
    while i < a.Length
      invariant 0 <= i <= a.Length
      invariant a[..] == StableSort(input[..i], key, order) + input[i..]
    {
      ghost var before := a[..];
      InsertInPlace(a, i, key, order);
      SortStep(before, input, i, key, order);
      i := i + 1;
    }
    assert input[..a.Length] == input;
  }

  // ---------------------------------------------------------------------------
  // The result is in comparator order.

  /** The records of an insertion are the inserted one and the old ones. */
  lemma InsertMembers<R>(s: seq<R>, x: R, key: R -> Key, order: int)
    ensures forall z | z in Insert(s, x, key, order) :: z == x || z in s
  {
    InsertPermutes(s, x, key, order);
    forall z | z in Insert(s, x, key, order)
      ensures z == x || z in s
    {
      assert z in multiset(Insert(s, x, key, order));
    }
  }

  /** Inserting below `y` a record that compares below `y` keeps everything at or below `y`. */
  lemma InsertedAtOrBelow<R>(s: seq<R>, x: R, y: R, key: R -> Key, order: int)
    requires forall z | z in s :: SortCompare(order, key(z), key(y)) <= 0
    requires SortCompare(order, key(y), key(x)) > 0
    ensures forall z | z in Insert(s, x, key, order) :: SortCompare(order, key(z), key(y)) <= 0
  {
    InsertMembers(s, x, key, order);
    SortCompareAntisymmetric(order, key(y), key(x));
  }

  /** The strict counterpart of InsertedAtOrBelow. */
  lemma InsertedBelow<R>(s: seq<R>, x: R, y: R, key: R -> Key, order: int)
    requires forall z | z in s :: SortCompare(order, key(z), key(y)) < 0
    requires SortCompare(order, key(y), key(x)) > 0
    ensures forall z | z in Insert(s, x, key, order) :: SortCompare(order, key(z), key(y)) < 0
  {
    InsertMembers(s, x, key, order);
    SortCompareAntisymmetric(order, key(y), key(x));
  }

  /** Every record before the last of a sorted sequence is at or below it. */
  lemma AtOrBelowLast<R>(s: seq<R>, key: R -> Key, order: int)
    requires s != [] && SortedBy(s, key, order)
    ensures forall z | z in s[..|s| - 1] :: SortCompare(order, key(z), key(s[|s| - 1])) <= 0
  {
    forall z | z in s[..|s| - 1]
      ensures SortCompare(order, key(z), key(s[|s| - 1])) <= 0
    {
      var k :| 0 <= k < |s| - 1 && s[k] == z;
    }
  }

  /** Every record before the last of a strictly sorted sequence is below it. */
  lemma BelowLast<R>(s: seq<R>, key: R -> Key, order: int)
    requires s != [] && StrictlySortedBy(s, key, order)
    ensures forall z | z in s[..|s| - 1] :: SortCompare(order, key(z), key(s[|s| - 1])) < 0
  {
    forall z | z in s[..|s| - 1]
      ensures SortCompare(order, key(z), key(s[|s| - 1])) < 0
    {
      var k :| 0 <= k < |s| - 1 && s[k] == z;
    }
  }

  /** `s + [y]` is sorted when `s` is and no record of `s` compares greater than `y`. */
  lemma SortedAppend<R>(s: seq<R>, y: R, key: R -> Key, order: int)
    requires SortedBy(s, key, order)
    requires forall z | z in s :: SortCompare(order, key(z), key(y)) <= 0
    ensures SortedBy(s + [y], key, order)
  {
    var t := s + [y];
    forall i, j | 0 <= i < j < |t|
      ensures SortCompare(order, key(t[i]), key(t[j])) <= 0
    {
      if j == |s| {
        assert t[i] in s;
      } else {
        assert t[i] == s[i] && t[j] == s[j];
      }
    }
  }

  lemma {:induction false} InsertSorted<R>(s: seq<R>, x: R, key: R -> Key, order: int)
    requires SortedBy(s, key, order)
    ensures SortedBy(Insert(s, x, key, order), key, order)
  {
    if s == [] {
    } else {
      var n := |s| - 1;
      if SortCompare(order, key(s[n]), key(x)) <= 0 {
        forall z | z in s
          ensures SortCompare(order, key(z), key(x)) <= 0
        {
          var k :| 0 <= k < |s| && s[k] == z;
          if k < n {
            SortCompareTransitive(order, key(z), key(s[n]), key(x));
          }
        }
        SortedAppend(s, x, key, order);
      } else {
        var p := s[..n];
        assert SortedBy(p, key, order) by {
          forall i, j | 0 <= i < j < |p|
            ensures SortCompare(order, key(p[i]), key(p[j])) <= 0
          {
            assert p[i] == s[i] && p[j] == s[j];
          }
        }
        InsertSorted(p, x, key, order);
        var q := Insert(p, x, key, order);
        AtOrBelowLast(s, key, order);
        InsertedAtOrBelow(p, x, s[n], key, order);
        SortedAppend(q, s[n], key, order);
      }
    }
  }

  lemma {:induction false} StableSortSorted<R>(s: seq<R>, key: R -> Key, order: int)
    ensures SortedBy(StableSort(s, key, order), key, order)
  {
    if s != [] {
      var n := |s| - 1;
      StableSortSorted(s[..n], key, order);
      InsertSorted(StableSort(s[..n], key, order), s[n], key, order);
    }
  }

  // ---------------------------------------------------------------------------
  // Stability: records the comparator cannot tell apart keep their order.

  /** The records of `s` that compare equal to key `k`, in their order in `s`. */
  function Ties<R>(s: seq<R>, key: R -> Key, order: int, k: Key): seq<R>
  {
    if s == [] then []
    else
      var n := |s| - 1;
      Ties(s[..n], key, order, k) + (if SortCompare(order, key(s[n]), k) == 0 then [s[n]] else [])
  }

  lemma {:induction false} TiesAppend<R>(a: seq<R>, b: seq<R>, key: R -> Key, order: int, k: Key)
    ensures Ties(a + b, key, order, k) == Ties(a, key, order, k) + Ties(b, key, order, k)
  {
    if b == [] {
      assert a + b == a;
    } else {
      var n := |b| - 1;
      assert (a + b)[..|a + b| - 1] == a + b[..n];
      TiesAppend(a, b[..n], key, order, k);
    }
  }

  lemma {:induction false} InsertKeepsTies<R>(s: seq<R>, x: R, key: R -> Key, order: int, k: Key)
    ensures Ties(Insert(s, x, key, order), key, order, k)
         == Ties(s, key, order, k) + Ties([x], key, order, k)
  {
    if s == [] || SortCompare(order, key(s[|s| - 1]), key(x)) <= 0 {
      TiesAppend(s, [x], key, order, k);
    } else {
      var n := |s| - 1;
      var p, y := s[..n], s[n];
      assert s == p + [y];
      InsertKeepsTies(p, x, key, order, k);
      TiesAppend(Insert(p, x, key, order), [y], key, order, k);
      TiesAppend(p, [y], key, order, k);
      if SortCompare(order, key(x), k) == 0 && SortCompare(order, key(y), k) == 0 {
        // Both cannot tie with k: y compares strictly greater than x.
        if order != 0 {
          SortCompareZero(order, key(x), k);
          SortCompareZero(order, key(y), k);
          SortCompareZero(order, key(y), key(x));
        }
        assert false;
      }
      assert Ties([x], key, order, k) == [] || Ties([y], key, order, k) == [];
    }
  }

  /** The sort is stable: for every key, the records tied with it keep their relative order. */
  lemma {:induction false} StableSortKeepsTies<R>(s: seq<R>, key: R -> Key, order: int, k: Key)
    ensures Ties(StableSort(s, key, order), key, order, k) == Ties(s, key, order, k)
  {
    if s != [] {
      var n := |s| - 1;
      StableSortKeepsTies(s[..n], key, order, k);
      InsertKeepsTies(StableSort(s[..n], key, order), s[n], key, order, k);
      TiesAppend(s[..n], [s[n]], key, order, k);
      assert s == s[..n] + [s[n]];
    }
  }

  /**
   * Null keys: ascending order puts every null-keyed record first, descending
   * order puts them last, and in both the null-keyed records keep their order.
   */
  lemma NullPlacement<R>(s: seq<R>, key: R -> Key, order: int)
    requires order != 0
    ensures var t := StableSort(s, key, order);
      order > 0 ==> forall i, j | 0 <= i < j < |t| && key(t[j]) == Null :: key(t[i]) == Null
    ensures var t := StableSort(s, key, order);
      order < 0 ==> forall i, j | 0 <= i < j < |t| && key(t[i]) == Null :: key(t[j]) == Null
    ensures Ties(StableSort(s, key, order), key, order, Null) == Ties(s, key, order, Null)
  {
    var t := StableSort(s, key, order);
    StableSortSorted(s, key, order);
    StableSortKeepsTies(s, key, order, Null);
    forall i, j | 0 <= i < j < |t|
      ensures order > 0 && key(t[j]) == Null ==> key(t[i]) == Null
      ensures order < 0 && key(t[i]) == Null ==> key(t[j]) == Null
    {
      SortCompareSign(order, key(t[i]), key(t[j]));
      NullIsLeast(key(t[i]));
      NullIsLeast(key(t[j]));
    }
  }

  // ---------------------------------------------------------------------------
  // Reversal: without ties, sorting descending reverses the ascending result.

  function Reversed<R>(s: seq<R>): (r: seq<R>)
    ensures |r| == |s|
  {
    if s == [] then [] else [s[|s| - 1]] + Reversed(s[..|s| - 1])
  }

  lemma {:induction false} ReversedMembers<R>(s: seq<R>, z: R)
    ensures z in Reversed(s) <==> z in s
  {
    if s != [] {
      var n := |s| - 1;
      ReversedMembers(s[..n], z);
      assert s == s[..n] + [s[n]];
    }
  }

  /** `s + [y]` is strictly sorted when `s` is and every record of `s` compares below `y`. */
  lemma StrictlySortedAppend<R>(s: seq<R>, y: R, key: R -> Key, order: int)
    requires StrictlySortedBy(s, key, order)
    requires forall z | z in s :: SortCompare(order, key(z), key(y)) < 0
    ensures StrictlySortedBy(s + [y], key, order)
  {
    var t := s + [y];
    forall i, j | 0 <= i < j < |t|
      ensures SortCompare(order, key(t[i]), key(t[j])) < 0
    {
      if j == |s| {
        assert t[i] in s;
      } else {
        assert t[i] == s[i] && t[j] == s[j];
      }
    }
  }

  lemma {:induction false} InsertStrict<R>(s: seq<R>, x: R, key: R -> Key, order: int)
    requires order != 0
    requires StrictlySortedBy(s, key, order)
    requires forall z | z in s :: key(z) != key(x)
    ensures StrictlySortedBy(Insert(s, x, key, order), key, order)
  {
    if s == [] {
    } else {
      var n := |s| - 1;
      if SortCompare(order, key(s[n]), key(x)) <= 0 {
        forall z | z in s
          ensures SortCompare(order, key(z), key(x)) < 0
        {
          var k :| 0 <= k < |s| && s[k] == z;
          SortCompareZero(order, key(z), key(x));
          if k < n {
            SortCompareTransitive(order, key(z), key(s[n]), key(x));
          }
        }
        StrictlySortedAppend(s, x, key, order);
      } else {
        var p := s[..n];
        assert StrictlySortedBy(p, key, order) by {
          forall i, j | 0 <= i < j < |p|
            ensures SortCompare(order, key(p[i]), key(p[j])) < 0
          {
            assert p[i] == s[i] && p[j] == s[j];
          }
        }
        assert forall z | z in p :: z in s;
        InsertStrict(p, x, key, order);
        var q := Insert(p, x, key, order);
        BelowLast(s, key, order);
        InsertedBelow(p, x, s[n], key, order);
        StrictlySortedAppend(q, s[n], key, order);
      }
    }
  }

  /** Without ties, the sorted result is strictly ordered. */
  lemma {:induction false} StableSortStrict<R>(s: seq<R>, key: R -> Key, order: int)
    requires order != 0
    requires NoTies(s, key)
    ensures StrictlySortedBy(StableSort(s, key, order), key, order)
  {
    if s != [] {
      var n := |s| - 1;
      var p := s[..n];
      StableSortStrict(p, key, order);
      StableSortPermutes(p, key, order);
      forall z | z in StableSort(p, key, order)
        ensures key(z) != key(s[n])
      {
        assert z in multiset(StableSort(p, key, order));
        var k :| 0 <= k < |p| && p[k] == z;
      }
      InsertStrict(StableSort(p, key, order), s[n], key, order);
    }
  }

  /** A record that compares below everything in `s` goes to the front. */
  lemma {:induction false} InsertAtFront<R>(s: seq<R>, x: R, key: R -> Key, order: int)
    requires forall z | z in s :: SortCompare(order, key(z), key(x)) > 0
    ensures Insert(s, x, key, order) == [x] + s
  {
    if s != [] {
      var n := |s| - 1;
      assert s[n] in s;
      InsertAtFront(s[..n], x, key, order);
      assert s == s[..n] + [s[n]];
    }
  }

  /** In a strictly ascending sequence, every earlier record is above the last one in descending order. */
  lemma LastIsGreatest<R>(t: seq<R>, key: R -> Key)
    requires t != [] && StrictlySortedBy(t, key, 1)
    ensures forall z | z in t[..|t| - 1] :: SortCompare(-1, key(z), key(t[|t| - 1])) > 0
  {
    var n := |t| - 1;
    forall z | z in t[..n]
      ensures SortCompare(-1, key(z), key(t[n])) > 0
    {
      var k :| 0 <= k < n && t[k] == z;
      assert SortCompare(1, key(t[k]), key(t[n])) < 0;
    }
  }

  /** Sorting a strictly ascending sequence in descending order reverses it. */
  lemma {:induction false} DescendingReverses<R>(t: seq<R>, key: R -> Key)
    requires StrictlySortedBy(t, key, 1)
    ensures StableSort(t, key, -1) == Reversed(t)
  {
    if t != [] {
      var n := |t| - 1;
      var p := t[..n];
      assert StrictlySortedBy(p, key, 1) by {
        forall i, j | 0 <= i < j < |p|
          ensures SortCompare(1, key(p[i]), key(p[j])) < 0
        {
          assert p[i] == t[i] && p[j] == t[j];
        }
      }
      DescendingReverses(p, key);
      LastIsGreatest(t, key);
      forall z | z in Reversed(p)
        ensures SortCompare(-1, key(z), key(t[n])) > 0
      {
        ReversedMembers(p, z);
      }
      InsertAtFront(Reversed(p), t[n], key, -1);
    }
  }

  /**
   * Sorting ascending and then re-sorting the result descending, by the same
   * field, yields exactly the reverse of the ascending order when no two
   * records share a key.
   */
  lemma SortReversal<R>(s: seq<R>, key: R -> Key)
    requires NoTies(s, key)
    ensures StableSort(StableSort(s, key, 1), key, -1) == Reversed(StableSort(s, key, 1))
  {
    StableSortStrict(s, key, 1);
    DescendingReverses(StableSort(s, key, 1), key);
  }
}
