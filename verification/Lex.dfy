/** Lexicographic order of key arrays, as every `ComposeSequenceLessByKeys` compares them. */
module Lex {
  import opened Common

  /** `lhs` sorts below `rhs`: the first position where they differ decides. */
  predicate Less(lhs: seq<uint32>, rhs: seq<uint32>)
  {
    && lhs != [] && rhs != []
    && (lhs[0] < rhs[0] || (lhs[0] == rhs[0] && Less(lhs[1..], rhs[1..])))
  }

  lemma {:induction false} Trichotomy(a: seq<uint32>, b: seq<uint32>)
    requires |a| == |b|
    ensures (if Less(a, b) then 1 else 0) + (if Less(b, a) then 1 else 0) + (if a == b then 1 else 0) == 1
  {
    if a == [] {
    } else {
      assert a == [a[0]] + a[1..] && b == [b[0]] + b[1..];
      Trichotomy(a[1..], b[1..]);
    }
  }

  lemma {:induction false} Transitive(a: seq<uint32>, b: seq<uint32>, c: seq<uint32>)
    requires |a| == |b| == |c|
    requires Less(a, b) && Less(b, c)
    ensures Less(a, c)
  {
    if a[0] == b[0] == c[0] {
      Transitive(a[1..], b[1..], c[1..]);
    }
  }

  /** Anything sorted between two arrays with the same first `k` keys has those first `k` keys. */
  lemma {:induction false} Squeezed(low: seq<uint32>, mid: seq<uint32>, high: seq<uint32>, k: nat)
    requires |low| == |mid| == |high| && k <= |low|
    requires low[..k] == high[..k]
    requires !Less(mid, low) && !Less(high, mid)
    ensures mid[..k] == low[..k]
  {
    if k == 0 {
    } else {
      assert low[0] == low[..k][0] == high[..k][0] == high[0];
      assert low[1..][..k - 1] == low[..k][1..] == high[..k][1..] == high[1..][..k - 1];
      Squeezed(low[1..], mid[1..], high[1..], k - 1);
      assert mid[..k] == [mid[0]] + mid[1..][..k - 1];
      assert low[..k] == [low[0]] + low[1..][..k - 1];
    }
  }

  /** Dropping the tails of two arrays of one length never turns "not below" round. */
  lemma {:induction false} TruncationMonotone(a: seq<uint32>, b: seq<uint32>, k: nat)
    requires |a| == |b| && k <= |a|
    requires Less(a, b)
    ensures Less(a[..k], b[..k]) || a[..k] == b[..k]
  {
    if k == 0 {
    } else {
      assert a[..k] == [a[0]] + a[1..][..k - 1] && b[..k] == [b[0]] + b[1..][..k - 1];
      assert a[..k][1..] == a[1..][..k - 1] && b[..k][1..] == b[1..][..k - 1];
      if a[0] == b[0] {
        TruncationMonotone(a[1..], b[1..], k - 1);
      }
    }
  }
}
