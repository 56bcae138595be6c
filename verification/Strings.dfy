/** The order of `strcmp` and `String::operator <`, and sorting by it. */
module Strings {
  import opened Common

  predicate StrLess(a: string, b: string) {
    b != [] && (a == [] || a[0] < b[0] || (a[0] == b[0] && StrLess(a[1..], b[1..])))
  }

  /** One string is below another exactly when it is a proper beginning of it, or has the smaller character
      where they first differ. */
  lemma {:induction false} StrLessMeans(a: string, b: string)
    ensures StrLess(a, b) <==> a < b || exists n :: FirstDifference(a, b, n) && a[n] < b[n]
  {
    if a != [] && b != [] && a[0] == b[0] {
      StrLessMeans(a[1..], b[1..]);
      assert a == [a[0]] + a[1..] && b == [b[0]] + b[1..];
      assert a < b <==> a[1..] < b[1..];
      if n :| FirstDifference(a, b, n) && a[n] < b[n] {
        assert FirstDifference(a[1..], b[1..], n - 1) by {
          assert a[..n] == [a[0]] + a[1..][..n - 1] && b[..n] == [b[0]] + b[1..][..n - 1];
        }
      }
      if n :| FirstDifference(a[1..], b[1..], n) && a[1..][n] < b[1..][n] {
        assert FirstDifference(a, b, n + 1) by {
          assert a[..n + 1] == [a[0]] + a[1..][..n] && b[..n + 1] == [b[0]] + b[1..][..n];
        }
      }
    } else if a != [] && b != [] {
      assert FirstDifference(a, b, 0);
      assert forall n :: FirstDifference(a, b, n) && n > 0 ==> a[..n][0] == b[..n][0];
    }
  }

  ghost predicate FirstDifference(a: string, b: string, n: int) {
    0 <= n < |a| && n < |b| && a[..n] == b[..n] && a[n] != b[n]
  }

  lemma {:induction false} Irreflexive(a: string)
    ensures !StrLess(a, a)
  {
    if a == [] {
    } else {
      Irreflexive(a[1..]);
    }
  }

  lemma {:induction false} Transitive(a: string, b: string, c: string)
    requires StrLess(a, b) && StrLess(b, c)
    ensures StrLess(a, c)
  {
    if a != [] && a[0] == b[0] == c[0] {
      Transitive(a[1..], b[1..], c[1..]);
    }
  }

  lemma {:induction false} Total(a: string, b: string)
    ensures StrLess(a, b) || a == b || StrLess(b, a)
  {
    if a != [] && b != [] && a[0] == b[0] {
      Total(a[1..], b[1..]);
      assert a == [a[0]] + a[1..] && b == [b[0]] + b[1..];
    }
  }

  ghost predicate Ascending(s: seq<string>) {
    forall i, j :: 0 <= i < j < |s| ==> StrLess(s[i], s[j])
  }

  /** Puts a string into an ascending list, unless it is there. */
  function Insert(x: string, s: seq<string>): (r: seq<string>)
    ensures forall y :: y in r <==> y == x || y in s
  {
    if s == [] || StrLess(x, s[0]) then [x] + s
    else if s[0] == x then s
    else
      assert s == [s[0]] + s[1..];
      [s[0]] + Insert(x, s[1..])
  }

  /** What `std::sort` and `std::unique` leave of a list: its strings, ascending, each once. */
  function SortedUnique(s: seq<string>): (r: seq<string>)
    ensures forall y :: y in r <==> y in s
  {
    if s == [] then []
    else
      assert s == [s[0]] + s[1..];
      Insert(s[0], SortedUnique(s[1..]))
  }

  lemma {:induction false} InsertAscending(x: string, s: seq<string>)
    requires Ascending(s)
    ensures Ascending(Insert(x, s))
  {
    if s == [] {
    } else if StrLess(x, s[0]) {
      forall j | 0 <= j < |s| ensures StrLess(x, s[j]) {
        if j > 0 {
          Transitive(x, s[0], s[j]);
        }
      }
    } else if s[0] != x {
      Total(x, s[0]);
      InsertAscending(x, s[1..]);
      var r := Insert(x, s[1..]);
      forall j | 0 <= j < |r| ensures StrLess(s[0], r[j]) {
        assert r[j] in r;
        if r[j] != x {
          var k :| 0 <= k < |s[1..]| && s[1..][k] == r[j];
          assert s[k + 1] == r[j];
        }
      }
    }
  }

  lemma {:induction false} SortedUniqueAscending(s: seq<string>)
    ensures Ascending(SortedUnique(s)) && Distinct(SortedUnique(s))
  {
    if s == [] {
    } else {
      SortedUniqueAscending(s[1..]);
      InsertAscending(s[0], SortedUnique(s[1..]));
    }
    var r := SortedUnique(s);
    forall i, j | 0 <= i < j < |r| ensures r[i] != r[j] {
      Irreflexive(r[i]);
    }
  }
}
