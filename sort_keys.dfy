/**
 * The values a record yields at the sort field, and the comparator that
 * `DataView.sort` hands to `Array.prototype.sort` (dataview.ts, lines 200-216).
 *
 * A key is `null`/`undefined` (one value, `Null`), a string or an integer.
 * `localeCompare` is modelled as lexicographic order on character codes.
 */
module SortKeys {

  datatype Key = Null | Str(s: string) | Int(n: int)

  /** Lexicographic three-way comparison: the stand-in for `localeCompare`. */
  function CompareStrings(a: string, b: string): (r: int)
    ensures -1 <= r <= 1
    ensures r == 0 <==> a == b
  {
    if a == [] && b == [] then 0
    else if a == [] then -1
    else if b == [] then 1
    else if a[0] < b[0] then -1
    else if a[0] > b[0] then 1
    else
      assert a == [a[0]] + a[1..] && b == [b[0]] + b[1..];
      CompareStrings(a[1..], b[1..])
  }

  lemma {:induction false} CompareStringsAntisymmetric(a: string, b: string)
    ensures CompareStrings(a, b) == -CompareStrings(b, a)
  {
    if a != [] && b != [] && a[0] == b[0] {
      CompareStringsAntisymmetric(a[1..], b[1..]);
    }
  }

  lemma {:induction false} CompareStringsTransitive(a: string, b: string, c: string)
    requires CompareStrings(a, b) <= 0 && CompareStrings(b, c) <= 0
    ensures CompareStrings(a, c) <= 0
  {
    if a != [] && b != [] && c != [] && a[0] == b[0] && b[0] == c[0] {
      CompareStringsTransitive(a[1..], b[1..], c[1..]);
    }
  }

  /**
   * JavaScript's `<` on two non-null keys of the kinds modelled here. A number
   * against a string is ordered by kind (numbers first) instead of by
   * JavaScript's coercion.
   */
  predicate Below(v1: Key, v2: Key)
    requires !v1.Null? && !v2.Null?
  {
    match (v1, v2)
    case (Int(m), Int(n)) => m < n
    case (Str(s), Str(t)) => CompareStrings(s, t) < 0
    case (Int(_), Str(_)) => true
    case (Str(_), Int(_)) => false
  }

  /** The comparator's result before it is multiplied by the sort order. */
  function Compare(v1: Key, v2: Key): (r: int)
    ensures -1 <= r <= 1
    ensures r == 0 <==> v1 == v2
  {
    if v1.Null? && !v2.Null? then -1
    else if !v1.Null? && v2.Null? then 1
    else if v1.Null? && v2.Null? then 0
    else if v1.Str? && v2.Str? then CompareStrings(v1.s, v2.s)
    else if Below(v1, v2) then -1
    else if Below(v2, v1) then 1
    else 0
  }

  /** Null is below every other key, and equal only to itself. */
  lemma NullIsLeast(k: Key)
    ensures Compare(Null, k) == (if k.Null? then 0 else -1)
    ensures Compare(k, Null) == (if k.Null? then 0 else 1)
  {
  }

  lemma CompareAntisymmetric(a: Key, b: Key)
    ensures Compare(a, b) == -Compare(b, a)
  {
    if a.Str? && b.Str? {
      CompareStringsAntisymmetric(a.s, b.s);
    }
  }

  lemma CompareTransitive(a: Key, b: Key, c: Key)
    requires Compare(a, b) <= 0 && Compare(b, c) <= 0
    ensures Compare(a, c) <= 0
  {
    if a.Str? && b.Str? && c.Str? {
      CompareStringsTransitive(a.s, b.s, c.s);
    } else if !a.Null? && !b.Null? && !c.Null? {
      CompareAntisymmetric(a, c);
    }
  }

  /** The value the comparator returns: the base result times `sortOrder`. */
  function SortCompare(order: int, v1: Key, v2: Key): int
  {
    order * Compare(v1, v2)
  }

  lemma SortCompareSign(order: int, a: Key, b: Key)
    ensures SortCompare(order, a, b) ==
      (if a == b then 0 else if Compare(a, b) > 0 then order else -order)
  {
    var c := Compare(a, b);
    if c == 1 {
      assert order * c == order;
    } else if c == -1 {
      assert order * c == -order;
    }
  }

  lemma SortCompareAntisymmetric(order: int, a: Key, b: Key)
    ensures SortCompare(order, a, b) == -SortCompare(order, b, a)
  {
    SortCompareSign(order, a, b);
    SortCompareSign(order, b, a);
    CompareAntisymmetric(a, b);
  }

  lemma SortCompareTransitive(order: int, a: Key, b: Key, c: Key)
    requires SortCompare(order, a, b) <= 0 && SortCompare(order, b, c) <= 0
    ensures SortCompare(order, a, c) <= 0
  {
    SortCompareSign(order, a, b);
    SortCompareSign(order, b, c);
    SortCompareSign(order, a, c);
    CompareAntisymmetric(a, b);
    CompareAntisymmetric(b, c);
    CompareAntisymmetric(a, c);
    if order > 0 {
      CompareTransitive(a, b, c);
    } else if order < 0 {
      CompareTransitive(c, b, a);
    }
  }

  /** With a non-zero sort order, only identical keys compare equal. */
  lemma SortCompareZero(order: int, a: Key, b: Key)
    requires order != 0
    ensures SortCompare(order, a, b) == 0 <==> a == b
  {
    SortCompareSign(order, a, b);
  }

  /** Descending order (a negative `sortOrder`) puts nulls after every other key. */
  lemma NullsLastWhenDescending(order: int, k: Key)
    requires order < 0 && !k.Null?
    ensures SortCompare(order, Null, k) > 0 && SortCompare(order, k, Null) < 0
  {
    SortCompareSign(order, Null, k);
    SortCompareSign(order, k, Null);
  }
}
