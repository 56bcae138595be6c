/** The generator of the Compose table (src/conv_compose.cpp). */
module ConvCompose {
  import opened Common
  import ComposeKey
  import KeyString
  import Lex

  type LongKeys = k: seq<uint32> | |k| == 8 witness [0, 0, 0, 0, 0, 0, 0, 0]

  /** An entry as the generator collects it, with up to eight keys. */
  datatype LongSequence = LongSequence(keys: LongKeys, unicode: uint32)

  ghost predicate ZerosLast(keys: seq<uint32>) {
    forall i, j :: 0 <= i < j < |keys| && keys[i] == 0 ==> keys[j] == 0
  }

  /** The keys of a line: the codes of its first eight key names, then zeros. A name that is no key
      drops the line. What is collected has zeros only behind its keys. */
  method EncodeKeys(t: KeyString.Tables, names: seq<string>) returns (keys: array<uint32>, ok: bool)
    requires KeyString.WellFormed(t)
    ensures fresh(keys) && keys.Length == 8
    ensures ok <==> forall i :: 0 <= i < 8 && i < |names| ==> KeyString.StringToKey(t, names[i]).1
    ensures ok ==> forall i :: 0 <= i < 8 ==>
                     keys[i] == if i < |names| then KeyString.StringToKey(t, names[i]).0.code else 0
    ensures ok ==> ZerosLast(keys[..]) && (keys[0] != 0 <==> names != [])
  {
    hide KeyString.WellFormed, KeyString.ParsePieces;
    keys := new uint32[8];
    ok := true;
    for i := 0 to 8
      invariant ok
      invariant forall k :: 0 <= k < i && k < |names| ==> KeyString.StringToKey(t, names[k]).1
      invariant forall k :: 0 <= k < i ==>
                  keys[k] == if k < |names| then KeyString.StringToKey(t, names[k]).0.code else 0
    {
      if i < |names| {
        var key, good := KeyString.ParseKey(t, names[i]);
        if !good {
          return keys, false;
        }
        keys[i] := key.code;
      } else {
        keys[i] := 0;
      }
    }
  }

  ghost predicate Ascending(s: seq<LongSequence>) {
    forall i, j :: 0 <= i < j < |s| ==> !Lex.Less(s[j].keys, s[i].keys)
  }

  ghost predicate StrictlyAscending(s: seq<LongSequence>) {
    forall i, j :: 0 <= i < j < |s| ==> Lex.Less(s[i].keys, s[j].keys)
  }

  /** `table` has the key arrays of `s`, each once, each with a character `s` gives it. */
  ghost predicate SameKeys(s: seq<LongSequence>, table: seq<LongSequence>) {
    && (forall e :: e in table ==> e in s)
    && (forall e :: e in s ==> HasKeys(table, e.keys))
  }

  ghost predicate HasKeys(table: seq<LongSequence>, keys: LongKeys) {
    exists i :: 0 <= i < |table| && table[i].keys == keys
  }

  /** The entry is the first of `s` with its keys. */
  ghost predicate FirstOfKeys(s: seq<LongSequence>, e: LongSequence) {
    exists i :: 0 <= i < |s| && s[i] == e && forall j :: 0 <= j < i ==> s[j].keys != e.keys
  }

  /** `std::unique`: of each group of neighbours with equal keys the first stays. */
  method Unique(s: seq<LongSequence>) returns (r: seq<LongSequence>)
    requires Ascending(s)
    ensures StrictlyAscending(r) && SameKeys(s, r)
    ensures forall e :: e in r ==> FirstOfKeys(s, e)
  {
    r := [];
    for i := 0 to |s|
      invariant i > 0 ==> r != [] && r[|r| - 1].keys == s[i - 1].keys
      invariant i == 0 ==> r == []
      invariant StrictlyAscending(r)
      invariant SameKeys(s[..i], r)
      invariant forall e :: e in r ==> FirstOfKeys(s, e)
    {
      assert s[..i + 1] == s[..i] + [s[i]];
      ghost var before := r;
      if r == [] || r[|r| - 1].keys != s[i].keys {
        AppendsAbove(r, s[i]);
        NewKeys(s, i);
        r := r + [s[i]];
        assert r[|r| - 1].keys == s[i].keys;
      }
      forall e | e in s[..i + 1] ensures HasKeys(r, e.keys) {
        if e in s[..i] {
          var k :| 0 <= k < |before| && before[k].keys == e.keys;
          assert r[k].keys == e.keys;
        } else {
          assert r[|r| - 1].keys == e.keys;
        }
      }
    }
    assert s[..|s|] == s;
  }

  /** In an ascending list keys that differ from those just before have not occurred at all. */
  lemma {:induction false} NewKeys(s: seq<LongSequence>, i: nat)
    requires Ascending(s) && i < |s| && (i > 0 ==> s[i - 1].keys != s[i].keys)
    ensures FirstOfKeys(s, s[i])
  {
    if i > 0 {
      Lex.Trichotomy(s[i - 1].keys, s[i].keys);
    }
    assert forall j :: 0 <= j < i - 1 ==> !Lex.Less(s[i - 1].keys, s[j].keys);
  }

  lemma AppendsAbove(r: seq<LongSequence>, e: LongSequence)
    requires StrictlyAscending(r)
    requires r != [] ==> r[|r| - 1].keys != e.keys && !Lex.Less(e.keys, r[|r| - 1].keys)
    ensures StrictlyAscending(r + [e])
  {
    if r != [] {
      var last := r[|r| - 1].keys;
      Lex.Trichotomy(last, e.keys);
      forall i | 0 <= i < |r| ensures Lex.Less(r[i].keys, e.keys) {
        if i < |r| - 1 {
          Lex.Transitive(r[i].keys, last, e.keys);
        }
      }
    }
  }

  /** The entry as it is printed: its first five keys. */
  function Printed(e: LongSequence): ComposeKey.ComposeSequence {
    ComposeKey.ComposeSequence(e.keys[..5], e.unicode)
  }

  function PrintedTable(s: seq<LongSequence>): (table: seq<ComposeKey.ComposeSequence>)
    ensures |table| == |s|
    ensures forall i :: 0 <= i < |s| ==> table[i] == Printed(s[i])
  {
    seq(|s|, i requires 0 <= i < |s| => Printed(s[i]))
  }

  /** Sort, drop repeated key arrays, print five keys of each. */
  method Generate(seqs: seq<LongSequence>, sort: seq<LongSequence> -> seq<LongSequence>)
    returns (table: seq<ComposeKey.ComposeSequence>, kept: seq<LongSequence>)
    requires Ascending(sort(seqs)) && multiset(sort(seqs)) == multiset(seqs)
    ensures StrictlyAscending(kept) && SameKeys(seqs, kept) && table == PrintedTable(kept)
    ensures forall e :: e in kept ==> FirstOfKeys(sort(seqs), e)
    ensures |table| == |kept|
    ensures forall i :: 0 <= i < |table| ==>
              table[i].keys == kept[i].keys[..5] && table[i].unicode == kept[i].unicode
  {
    var sorted := sort(seqs);
    kept := Unique(sorted);
    forall e ensures e in sorted <==> e in seqs {
      assert e in sorted <==> e in multiset(sorted);
      assert e in seqs <==> e in multiset(seqs);
    }
    table := [];
    for i := 0 to |kept|
      invariant |table| == i && forall k :: 0 <= k < i ==> table[k] == Printed(kept[k])
    {
      table := table + [Printed(kept[i])];
    }
  }

  // ----- what the engine gets -----

  /** Under the engine's comparison the printed table never descends. */
  lemma PrintedAscends(kept: seq<LongSequence>, i: nat, j: nat)
    requires StrictlyAscending(kept) && i < j < |kept|
    ensures var table := PrintedTable(kept);
            Lex.Less(table[i].keys, table[j].keys) <==> table[i].keys != table[j].keys
  {
    Lex.TruncationMonotone(kept[i].keys, kept[j].keys, 5);
    Lex.Trichotomy(kept[i].keys[..5], kept[j].keys[..5]);
  }

  /** No two collected entries with different keys agree on their first five. */
  ghost predicate FiveKeysDecide(seqs: seq<LongSequence>) {
    forall a, b :: a in seqs && b in seqs && a.keys[..5] == b.keys[..5] ==> a.keys == b.keys
  }

  lemma RunnableNeeds(seqs: seq<LongSequence>, kept: seq<LongSequence>, a: LongSequence, b: LongSequence)
    requires StrictlyAscending(kept) && SameKeys(seqs, kept)
    requires ComposeKey.WellFormed(PrintedTable(kept))
    requires a in seqs && b in seqs && a.keys[..5] == b.keys[..5]
    ensures a.keys == b.keys && a.keys[0] != 0
  {
    var table := PrintedTable(kept);
    assert HasKeys(kept, a.keys) && HasKeys(kept, b.keys);
    var i :| 0 <= i < |kept| && kept[i].keys == a.keys;
    var j :| 0 <= j < |kept| && kept[j].keys == b.keys;
    assert table[i] in table;
    Lex.Trichotomy(table[i].keys, table[j].keys);
  }

  lemma RunnableAt(kept: seq<LongSequence>, j: nat)
    requires StrictlyAscending(kept) && j < |kept|
    requires ZerosLast(kept[j].keys) && kept[j].keys[0] != 0
    requires forall i :: 0 <= i < j ==> kept[i].keys[..5] != kept[j].keys[..5]
    ensures var table := PrintedTable(kept);
            && (forall i :: 0 <= i < j ==> Lex.Less(table[i].keys, table[j].keys))
            && ComposeKey.Padded(table[j].keys) && ComposeKey.Typed(table[j].keys) != []
  {
    var table := PrintedTable(kept);
    forall i | 0 <= i < j ensures Lex.Less(table[i].keys, table[j].keys) {
      PrintedAscends(kept, i, j);
    }
  }

  /** The printed table is one the engine can run on exactly when five keys tell the collected
      entries apart and none of them is empty. */
  lemma GeneratedTable(seqs: seq<LongSequence>, kept: seq<LongSequence>)
    requires StrictlyAscending(kept) && SameKeys(seqs, kept)
    requires forall e :: e in seqs ==> ZerosLast(e.keys)
    ensures ComposeKey.WellFormed(PrintedTable(kept)) <==>
            FiveKeysDecide(seqs) && forall e :: e in seqs ==> e.keys[0] != 0
  {
    var table := PrintedTable(kept);
    if ComposeKey.WellFormed(table) {
      forall a, b | a in seqs && b in seqs && a.keys[..5] == b.keys[..5]
        ensures a.keys == b.keys && a.keys[0] != 0
      {
        RunnableNeeds(seqs, kept, a, b);
      }
    }
    if FiveKeysDecide(seqs) && forall e :: e in seqs ==> e.keys[0] != 0 {
      forall j | 0 <= j < |table|
        ensures forall i :: 0 <= i < j ==> Lex.Less(table[i].keys, table[j].keys)
        ensures ComposeKey.Padded(table[j].keys) && ComposeKey.Typed(table[j].keys) != []
      {
        assert kept[j] in seqs;
        forall i | 0 <= i < j ensures kept[i].keys[..5] != kept[j].keys[..5] {
          assert kept[i] in seqs;
          Lex.Trichotomy(kept[i].keys, kept[j].keys);
        }
        RunnableAt(kept, j);
      }
    }
  }

  /** Lines of one to five keys always give such a table. */
  lemma ShortLinesGenerate(seqs: seq<LongSequence>, kept: seq<LongSequence>)
    requires StrictlyAscending(kept) && SameKeys(seqs, kept)
    requires forall e :: e in seqs ==> ZerosLast(e.keys) && e.keys[0] != 0 && e.keys[5] == 0
    ensures ComposeKey.WellFormed(PrintedTable(kept))
  {
    forall a, b | a in seqs && b in seqs && a.keys[..5] == b.keys[..5] ensures a.keys == b.keys {
      forall i | 0 <= i < 8 ensures a.keys[i] == b.keys[i] {
        if i < 5 {
          assert a.keys[..5][i] == b.keys[..5][i];
        }
      }
    }
    GeneratedTable(seqs, kept);
  }
}
