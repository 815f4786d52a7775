/** sortable.go: the two ways an endpoint type is ordered.
    `SortComparable` types bring a three-way `CompareTo`; the built-in
    `baseSortable` types (integers, floats, strings) use Go's native `<`. */
module Sortable {

  /** What a caller's `CompareTo` must satisfy for intervals to behave:
      the sign flips when the arguments are swapped, and "at most" is
      transitive. Equality is read as `CompareTo(a, b) == 0`, so types
      that compare on a key (a score, say) are allowed. */
  ghost predicate IsTotalOrder<T(!new)>(compareTo: (T, T) -> int) {
    && (forall a, b :: compareTo(a, b) < 0 <==> compareTo(b, a) > 0)
    && (forall a, b, c :: compareTo(a, b) <= 0 && compareTo(b, c) <= 0 ==> compareTo(a, c) <= 0)
  }

  /** What Go's native `<` is on every baseSortable type other than floats. */
  ghost predicate IsStrictTotalOrder<T(!new)>(less: (T, T) -> bool) {
    && (forall a :: !less(a, a))
    && (forall a, b, c :: less(a, b) && less(b, c) ==> less(a, c))
    && (forall a, b :: a != b ==> less(a, b) || less(b, a))
  }

  /** The three-way comparison that a native order induces. */
  function CompareOf<T(==)>(less: (T, T) -> bool): (T, T) -> int {
    (a: T, b: T) => if less(a, b) then -1 else if a == b then 0 else 1
  }

  /** A native strict order yields a comparison that is a total order and
      reports 0 exactly on equal values. */
  lemma CompareOfIsTotalOrder<T(!new)>(less: (T, T) -> bool)
    requires IsStrictTotalOrder(less)
    ensures IsTotalOrder(CompareOf(less))
    ensures forall a, b :: CompareOf(less)(a, b) == 0 <==> a == b
  {
    var cmp := CompareOf(less);
    forall a, b, c | cmp(a, b) <= 0 && cmp(b, c) <= 0
      ensures cmp(a, c) <= 0
    {
      if a != b && b != c {
        assert less(a, b) && less(b, c);
      }
    }
  }

  /** Go's `<` on integers. */
  function IntLess(a: int, b: int): bool {
    a < b
  }

  /** Go's `<` on strings: byte-wise lexicographic, a proper prefix first. */
  function StringLess(a: string, b: string): (r: bool)
    ensures r ==> a != b
    ensures |a| < |b| && a == b[..|a|] ==> r
    decreases |a|
  {
    if |b| == 0 then false
    else if |a| == 0 then true
    else if a[0] != b[0] then a[0] < b[0]
    else StringLess(a[1..], b[1..])
  }

  lemma {:induction false} StringLessIrreflexive(a: string)
    ensures !StringLess(a, a)
    decreases |a|
  {
    if |a| > 0 {
      StringLessIrreflexive(a[1..]);
    }
  }

  lemma {:induction false} StringLessTransitive(a: string, b: string, c: string)
    requires StringLess(a, b) && StringLess(b, c)
    ensures StringLess(a, c)
    decreases |a|
  {
    if |a| > 0 && a[0] == b[0] && b[0] == c[0] {
      StringLessTransitive(a[1..], b[1..], c[1..]);
    }
  }

  lemma {:induction false} StringLessConnected(a: string, b: string)
    requires a != b
    ensures StringLess(a, b) || StringLess(b, a)
    decreases |a|
  {
    if |a| > 0 && |b| > 0 && a[0] == b[0] {
      assert a == [a[0]] + a[1..] && b == [b[0]] + b[1..];
      StringLessConnected(a[1..], b[1..]);
    }
  }

  /** Go's string `<` is a strict total order. */
  lemma StringLessIsStrictTotalOrder()
    ensures IsStrictTotalOrder(StringLess)
  {
    forall a | true ensures !StringLess(a, a) {
      StringLessIrreflexive(a);
    }
    forall a, b, c | StringLess(a, b) && StringLess(b, c) ensures StringLess(a, c) {
      StringLessTransitive(a, b, c);
    }
    forall a, b | a != b ensures StringLess(a, b) || StringLess(b, a) {
      StringLessConnected(a, b);
    }
  }

  /** Go's integer `<` is a strict total order. */
  lemma IntLessIsStrictTotalOrder()
    ensures IsStrictTotalOrder(IntLess)
  {
  }
}
