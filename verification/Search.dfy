/** The two binary searches of the C++ library that the source relies on. */
module Search {

  /** What `std::lower_bound` asks of the range: the elements below `key` come first. */
  ghost predicate Partitioned<T, K>(a: seq<T>, key: K, less: (T, K) -> bool) {
    forall i, j :: 0 <= i < j < |a| && less(a[j], key) ==> less(a[i], key)
  }

  /** The position a linear scan stops at: the first element that is not below `key`. */
  function FirstNotLess<T, K>(a: seq<T>, key: K, less: (T, K) -> bool): (pos: nat)
    ensures pos <= |a|
    ensures forall i :: 0 <= i < pos ==> less(a[i], key)
    ensures pos < |a| ==> !less(a[pos], key)
  {
    if a == [] || !less(a[0], key) then 0 else 1 + FirstNotLess(a[1..], key, less)
  }

  method LowerBound<T, K>(a: seq<T>, key: K, less: (T, K) -> bool) returns (pos: nat)
    requires Partitioned(a, key, less)
    ensures pos == FirstNotLess(a, key, less)
  {
    var len := |a|;
    pos := 0;
    while len > 0
      invariant 0 <= len && pos + len <= |a|
      invariant forall i :: 0 <= i < pos ==> less(a[i], key)
      invariant forall i :: pos + len <= i < |a| ==> !less(a[i], key)
    {
      var half := len / 2;
      if less(a[pos + half], key) {
        pos := pos + half + 1;
        len := len - half - 1;
      } else {
        len := half;
      }
    }
    ghost var first := FirstNotLess(a, key, less);
    assert first < |a| ==> !less(a[first], key);
    assert pos < |a| ==> !less(a[pos], key);
  }

  predicate IntLess(x: int, y: int) { x < y }

  /** `std::binary_search` on an ascending range. */
  method BinarySearch(a: seq<int>, key: int) returns (found: bool)
    requires forall i, j :: 0 <= i < j < |a| ==> a[i] <= a[j]
    ensures found <==> key in a
  {
    var pos := LowerBound(a, key, IntLess);
    found := pos < |a| && a[pos] <= key;
    if key in a {
      var i :| 0 <= i < |a| && a[i] == key;
      assert !IntLess(a[i], key);
      assert pos <= i;
    }
  }
}
