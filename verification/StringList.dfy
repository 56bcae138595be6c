/** `scim_split_string_list` and `scim_combine_string_list` (src/scim_utility.cpp). */
module StringList {
  import opened Common

  /** Index of the first `delim` at or after `from`, or the length of the string. */
  function DelimFrom(str: string, delim: char, from: nat): (n: nat)
    requires from <= |str|
    ensures from <= n <= |str|
    ensures forall i :: from <= i < n ==> str[i] != delim
    ensures n < |str| ==> str[n] == delim
    decreases |str| - from
  {
    if from == |str| || str[from] == delim then from else DelimFrom(str, delim, from + 1)
  }

  /** Index of the first `delim`, or the length of the string. */
  function FindDelim(str: string, delim: char): nat {
    DelimFrom(str, delim, 0)
  }

  /** The pieces between delimiters; nothing is listed after a trailing delimiter. */
  function Split(str: string, delim: char): seq<string>
    decreases |str|
  {
    if str == [] then []
    else
      var n := FindDelim(str, delim);
      if n < |str| then [str[..n]] + Split(str[n + 1..], delim) else [str]
  }

  function Join(vec: seq<string>, delim: char): string {
    if vec == [] then []
    else if |vec| == 1 then vec[0]
    else vec[0] + [delim] + Join(vec[1..], delim)
  }

  /** The inner loop of the splitter: advance to the next delimiter or to the end. */
  method ScanToDelim(str: string, delim: char, start: nat) returns (ed: nat)
    requires start <= |str|
    ensures start <= ed <= |str|
    ensures ed - start == FindDelim(str[start..], delim)
  {
    ed := start;
    while ed != |str| && str[ed] != delim
      invariant start <= ed <= |str|
      invariant forall i :: start <= i < ed ==> str[i] != delim
    {
      ed := ed + 1;
    }
    FindDelimAt(str[start..], delim, ed - start);
  }

  /** The loop of the splitter is at `bg`: `vec` is listed and the rest is still to split. */
  ghost predicate SplitUpTo(str: string, delim: char, vec: seq<string>, bg: nat) {
    bg <= |str| && vec + Split(str[bg..], delim) == Split(str, delim)
  }

  method SplitStringList(str: string, delim: char) returns (vec: seq<string>, count: nat)
    ensures vec == Split(str, delim) && count == |vec|
  {
    vec, count := [], 0;
    var bg, ed := 0, 0;
    assert str[0..] == str;
    while bg != |str| && ed != |str|
      invariant 0 <= bg <= ed <= |str|
      invariant count == |vec|
      invariant ed < |str| ==> bg == ed && SplitUpTo(str, delim, vec, bg)
      invariant ed == |str| ==> vec == Split(str, delim)
      decreases |str| - ed
    {
      ed := ScanToDelim(str, delim, ed);
      SplitStep(str, delim, vec, bg, ed);
      vec := vec + [str[bg..ed]];
      count := count + 1;
      if ed != |str| {
        ed := ed + 1;
        bg := ed;
      }
    }
  }

  method CombineStringList(vec: seq<string>, delim: char) returns (result: string)
    ensures result == Join(vec, delim)
  {
    result := [];
    for i := 0 to |vec|
      invariant result + (if 0 < i == |vec| then [] else Join(vec[i..], delim)) == Join(vec, delim)
    {
      assert vec[i..][1..] == vec[i + 1..];
      result := result + vec[i];
      if i + 1 != |vec| {
        result := result + [delim];
      }
    }
  }

  lemma FindDelimAt(str: string, delim: char, n: nat)
    requires n <= |str| && forall i :: 0 <= i < n ==> str[i] != delim
    requires n < |str| ==> str[n] == delim
    ensures FindDelim(str, delim) == n
  {
  }

  /** The first piece of what is left to split from `bg` on. */
  lemma SplitOnce(str: string, delim: char, bg: nat, ed: nat)
    requires bg < |str| && ed == bg + FindDelim(str[bg..], delim)
    ensures Split(str[bg..], delim) ==
            if ed < |str| then [str[bg..ed]] + Split(str[ed + 1..], delim) else [str[bg..ed]]
  {
    assert str[bg..][..ed - bg] == str[bg..ed];
    if ed < |str| {
      assert str[bg..][ed - bg + 1..] == str[ed + 1..];
    } else {
      assert str[bg..ed] == str[bg..];
    }
  }

  lemma SplitStep(str: string, delim: char, vec: seq<string>, bg: nat, ed: nat)
    requires bg < |str| && SplitUpTo(str, delim, vec, bg)
    requires ed == bg + FindDelim(str[bg..], delim)
    ensures ed < |str| ==> SplitUpTo(str, delim, vec + [str[bg..ed]], ed + 1)
    ensures ed >= |str| - 1 ==> vec + [str[bg..ed]] == Split(str, delim)
  {
    SplitOnce(str, delim, bg, ed);
    if ed < |str| {
      var rest := Split(str[ed + 1..], delim);
      AppendAssoc(vec, str[bg..ed], rest);
      if rest == [] {
        assert vec + [str[bg..ed]] + [] == vec + [str[bg..ed]];
      }
    }
  }

  /** Cutting off the first piece of a joined list. */
  lemma SplitFirst(piece: string, rest: string, delim: char)
    requires delim !in piece
    ensures Split(piece + [delim] + rest, delim) == [piece] + Split(rest, delim)
  {
    var str := piece + [delim] + rest;
    assert str[..|piece|] == piece;
    FindDelimAt(str, delim, |piece|);
    assert str[|piece| + 1..] == rest;
  }

  /** Splitting a joined list returns it, except that an empty last piece is lost. */
  lemma {:induction false} SplitJoin(vec: seq<string>, delim: char)
    requires forall p :: p in vec ==> delim !in p
    ensures Split(Join(vec, delim), delim) ==
            if vec != [] && vec[|vec| - 1] == [] then vec[..|vec| - 1] else vec
  {
    if vec == [] {
    } else if |vec| == 1 {
      assert vec[0] in vec;
      FindDelimAt(vec[0], delim, |vec[0]|);
      assert vec[0][..|vec[0]|] == vec[0];
    } else {
      assert vec[0] in vec;
      SplitJoin(vec[1..], delim);
      SplitFirst(vec[0], Join(vec[1..], delim), delim);
      assert vec == [vec[0]] + vec[1..];
      assert vec[..|vec| - 1] == [vec[0]] + vec[1..][..|vec| - 2];
    }
  }

  /** A list survives combine and split exactly when no piece holds the delimiter and the last
      piece is not empty. */
  ghost predicate Joinable(vec: seq<string>, delim: char) {
    && (forall p :: p in vec ==> delim !in p)
    && (vec != [] ==> vec[|vec| - 1] != [])
  }

  lemma {:induction false} SplitPieces(str: string, delim: char)
    ensures forall p :: p in Split(str, delim) ==> delim !in p
    decreases |str|
  {
    if str == [] {
    } else {
      var n := FindDelim(str, delim);
      if n < |str| {
        SplitPieces(str[n + 1..], delim);
        assert delim !in str[..n];
      }
    }
  }

  lemma RoundTrip(vec: seq<string>, delim: char)
    ensures Split(Join(vec, delim), delim) == vec <==> Joinable(vec, delim)
  {
    SplitPieces(Join(vec, delim), delim);
    if forall p :: p in vec ==> delim !in p {
      SplitJoin(vec, delim);
    }
  }

  lemma {:induction false} JoinAvoids(vec: seq<string>, delim: char, c: char)
    requires c != delim && forall p :: p in vec ==> c !in p
    ensures c !in Join(vec, delim)
  {
    if |vec| == 1 {
      assert vec[0] in vec;
    } else if |vec| > 1 {
      assert vec[0] in vec;
      JoinAvoids(vec[1..], delim, c);
    }
  }

  lemma JoinEmpty(vec: seq<string>, delim: char)
    ensures Join(vec, delim) == [] <==> vec == [] || vec == [[]]
  {
  }

  /** Adding a piece at the end of a list is appending delimiter and piece to its string. */
  lemma {:induction false} JoinSnoc(vec: seq<string>, piece: string, delim: char)
    requires vec != []
    ensures Join(vec + [piece], delim) == Join(vec, delim) + [delim] + piece
  {
    if |vec| == 1 {
      assert (vec + [piece])[1..] == [piece];
    } else {
      assert (vec + [piece])[1..] == vec[1..] + [piece];
      JoinSnoc(vec[1..], piece, delim);
    }
  }
}
