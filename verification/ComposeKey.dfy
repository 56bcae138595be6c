/** The Compose key engine (src/scim_compose_key.cpp). */
module ComposeKey {
  import opened Common
  import opened KeyEvents
  import Lex
  import Search

  const MAX_COMPOSE_LEN: nat := 5
  const BUFFER_LEN: nat := 8

  type Keys = k: seq<uint32> | |k| == 5 witness [0, 0, 0, 0, 0]

  datatype ComposeSequence = ComposeSequence(keys: Keys, unicode: uint32)

  predicate LessByKeys(lhs: ComposeSequence, rhs: seq<uint32>) {
    Lex.Less(lhs.keys, rhs)
  }

  // ISO_Level3_Shift, ISO_Group_Shift, Mode_switch, then Shift_L to Hyper_R.
  const IGNORED_CODES: seq<int> := [0xFE03, 0xFF7E, 0xFF7E, 0xFFE1, 0xFFE2, 0xFFE3, 0xFFE4, 0xFFE5, 0xFFE6,
                                    0xFFE7, 0xFFE8, 0xFFE9, 0xFFEA, 0xFFEB, 0xFFEC, 0xFFED, 0xFFEE]

  // ----- what a buffer and a table mean -----

  /** The keys an array holds: everything before the first zero. */
  function Typed(keys: seq<uint32>): (typed: seq<uint32>)
    ensures |typed| <= |keys| && typed == keys[..|typed|]
    ensures 0 !in typed
    ensures |typed| < |keys| ==> keys[|typed|] == 0
  {
    if keys == [] || keys[0] == 0 then [] else [keys[0]] + Typed(keys[1..])
  }

  ghost predicate Padded(keys: seq<uint32>) {
    forall i :: |Typed(keys)| <= i < |keys| ==> keys[i] == 0
  }

  /** What the engine needs of its table: strictly ascending, zeros only as padding, no empty entry. */
  ghost predicate WellFormed(table: seq<ComposeSequence>) {
    && (forall i, j :: 0 <= i < j < |table| ==> Lex.Less(table[i].keys, table[j].keys))
    && (forall e :: e in table ==> Padded(e.keys) && Typed(e.keys) != [])
  }

  // ----- the reference automaton: plain membership; only the answer to a rejected key looks at the order -----

  ghost predicate Ignored(key: Key) {
    key.IsRelease() || key.code % 0x1_0000 in IGNORED_CODES || key.IsControlDown() || key.IsAltDown()
  }

  function FindEntry(table: seq<ComposeSequence>, typed: seq<uint32>): (found: Option<ComposeSequence>)
    ensures found.Some? ==> found.value in table && Typed(found.value.keys) == typed
    ensures found.None? ==> forall e :: e in table ==> Typed(e.keys) != typed
  {
    if table == [] then None
    else if Typed(table[0].keys) == typed then Some(table[0])
    else FindEntry(table[1..], typed)
  }

  ghost predicate SomeEntryStartsWith(table: seq<ComposeSequence>, typed: seq<uint32>) {
    exists i :: 0 <= i < |table| && typed <= Typed(table[i].keys)
  }

  /** Some entry that begins with the same key sorts above what was typed. */
  ghost predicate SharesFirstKeyAbove(table: seq<ComposeSequence>, typed: seq<uint32>) {
    exists i :: 0 <= i < |table| && typed != [] && table[i].keys[0] == typed[0]
                && AboveTyped(table[i], typed)
  }

  ghost predicate AboveTyped(e: ComposeSequence, typed: seq<uint32>) {
    |typed| <= 5 && Lex.Less(Pad(typed), e.keys)
  }

  function Pad(typed: seq<uint32>): (keys: seq<uint32>)
    requires |typed| <= 5
    ensures |keys| == 5
  {
    typed + seq(5 - |typed|, _ => 0)
  }

  datatype Outcome = Outcome(pending: seq<uint32>, commit: Option<ComposeSequence>, accepted: bool)

  function Extend(pending: seq<uint32>, code: uint32): seq<uint32> {
    (if |pending| == MAX_COMPOSE_LEN then [] else pending) + (if code == 0 then [] else [code])
  }

  /** Commit an entry, wait inside an entry, or reject. */
  ghost function Decide(table: seq<ComposeSequence>, typed: seq<uint32>): Outcome {
    var entry := FindEntry(table, typed);
    if entry.Some? then Outcome([], entry, true)
    else if SomeEntryStartsWith(table, typed) then Outcome(typed, None, true)
    else Outcome([], None, SharesFirstKeyAbove(table, typed))
  }

  /** What one key event does. */
  ghost function Automaton(table: seq<ComposeSequence>, pending: seq<uint32>, key: Key): Outcome {
    if Ignored(key) then Outcome(pending, None, false)
    else Decide(table, Extend(pending, key.code))
  }

  /** Releases, keys with Control or Alt down, and the modifier keys by their codes change nothing and
      are not taken in; the bits are those of src/scim_event.h:51-72. */
  lemma {:induction false} IgnoredEvent(table: seq<ComposeSequence>, pending: seq<uint32>, key: Key)
    requires || 15 in key.mask || 2 in key.mask || 3 in key.mask
             || key.code % 0x1_0000 in {0xFE03, 0xFF7E, 0xFFE1, 0xFFE2, 0xFFE3, 0xFFE4, 0xFFE5, 0xFFE6, 0xFFE7,
                                        0xFFE8, 0xFFE9, 0xFFEA, 0xFFEB, 0xFFEC, 0xFFED, 0xFFEE}
    ensures Automaton(table, pending, key) == Outcome(pending, None, false)
  {
    BitsTell(key);
    if key.code % 0x1_0000 in {0xFE03, 0xFF7E, 0xFFE1, 0xFFE2, 0xFFE3, 0xFFE4, 0xFFE5, 0xFFE6, 0xFFE7,
                               0xFFE8, 0xFFE9, 0xFFEA, 0xFFEB, 0xFFEC, 0xFFED, 0xFFEE} {
      ModifierListed(key.code % 0x1_0000);
    }
  }

  lemma {:induction false} ModifierListed(code: int)
    ensures code in IGNORED_CODES <==>
            code in {0xFE03, 0xFF7E, 0xFFE1, 0xFFE2, 0xFFE3, 0xFFE4, 0xFFE5, 0xFFE6, 0xFFE7,
                     0xFFE8, 0xFFE9, 0xFFEA, 0xFFEB, 0xFFEC, 0xFFED, 0xFFEE}
  {
  }

  /** Any other key is put behind the pending ones, and they are looked up; a code of 0 adds nothing, and
      five pending keys make room first. */
  lemma {:induction false} TakenEvent(table: seq<ComposeSequence>, pending: seq<uint32>, key: Key)
    requires 15 !in key.mask && 2 !in key.mask && 3 !in key.mask
    requires key.code % 0x1_0000 !in {0xFE03, 0xFF7E, 0xFFE1, 0xFFE2, 0xFFE3, 0xFFE4, 0xFFE5, 0xFFE6, 0xFFE7,
                                      0xFFE8, 0xFFE9, 0xFFEA, 0xFFEB, 0xFFEC, 0xFFED, 0xFFEE}
    ensures key.code != 0 && |pending| < 5 ==> Automaton(table, pending, key) == Decide(table, pending + [key.code])
    ensures key.code != 0 && |pending| == 5 ==> Automaton(table, pending, key) == Decide(table, [key.code])
    ensures key.code == 0 && |pending| < 5 ==> Automaton(table, pending, key) == Decide(table, pending)
  {
    ModifierListed(key.code % 0x1_0000);
    assert pending + [] == pending && [] + [key.code] == [key.code];
  }

  /** A complete entry is committed, a beginning of one waits, and anything else drops the pending keys. */
  lemma {:induction false} DecidedBy(table: seq<ComposeSequence>, typed: seq<uint32>)
    ensures var outcome := Decide(table, typed);
            if exists e :: e in table && Typed(e.keys) == typed
            then outcome.commit.Some? && outcome.commit.value in table && Typed(outcome.commit.value.keys) == typed
                 && outcome.pending == [] && outcome.accepted
            else if exists e :: e in table && typed <= Typed(e.keys) then outcome == Outcome(typed, None, true)
            else outcome.pending == [] && outcome.commit.None?
  {
    hide Typed;
    if e :| e in table && typed <= Typed(e.keys) {
      var i :| 0 <= i < |table| && table[i] == e;
      assert typed <= Typed(table[i].keys);
    }
  }

  // ----- the sorted table answers the automaton's questions with one search -----

  lemma PaddedTyped(keys: seq<uint32>)
    requires |keys| == 5 && Padded(keys)
    ensures Pad(Typed(keys)) == keys
  {
  }

  lemma {:induction false} TypedPrefix(typed: seq<uint32>, rest: seq<uint32>)
    requires 0 !in typed
    requires rest == [] || rest[0] == 0
    ensures Typed(typed + rest) == typed
  {
    if typed == [] {
      assert typed + rest == rest;
    } else {
      assert (typed + rest)[1..] == typed[1..] + rest;
      TypedPrefix(typed[1..], rest);
    }
  }

  /** An array beginning with what was typed is not below it: its remaining keys face zeros. */
  lemma {:induction false} NotBelowPrefix(keys: seq<uint32>, pad: seq<uint32>, n: nat)
    requires |keys| == |pad| && n <= |keys| && keys[..n] == pad[..n]
    requires forall i :: n <= i < |pad| ==> pad[i] == 0
    ensures !Lex.Less(keys, pad)
  {
    if keys == [] {
    } else {
      if n > 0 {
        assert keys[0] == keys[..n][0] == pad[..n][0];
        assert keys[1..][..n - 1] == keys[..n][1..] == pad[..n][1..] == pad[1..][..n - 1];
      }
      NotBelowPrefix(keys[1..], pad[1..], if n > 0 then n - 1 else 0);
    }
  }

  lemma TablePartitioned(table: seq<ComposeSequence>, pad: seq<uint32>)
    requires WellFormed(table) && |pad| == 5
    ensures Search.Partitioned(table, pad, LessByKeys)
  {
    forall i, j | 0 <= i < j < |table| && LessByKeys(table[j], pad) ensures LessByKeys(table[i], pad) {
      Lex.Transitive(table[i].keys, table[j].keys, pad);
    }
  }

  /** Everything before `pos` is below the buffer and `pos` is not. */
  ghost predicate Lands(table: seq<ComposeSequence>, typed: seq<uint32>, pos: nat) {
    && |typed| <= 5 && 0 !in typed && pos <= |table|
    && (forall i :: 0 <= i < pos ==> Lex.Less(table[i].keys, Pad(typed)))
    && (pos < |table| ==> !Lex.Less(table[pos].keys, Pad(typed)))
  }

  /** `lower_bound` lands on an entry that has the buffer as a prefix exactly when there is one,
      on the buffer itself when that is an entry, and on an entry with the same first key exactly
      when some entry above the buffer has it. */
  lemma {:induction false} PrefixSearch(table: seq<ComposeSequence>, typed: seq<uint32>, pos: nat)
    requires WellFormed(table) && |typed| <= 5 && 0 !in typed
    requires pos == Search.FirstNotLess(table, Pad(typed), LessByKeys)
    ensures SomeEntryStartsWith(table, typed) <==> pos < |table| && typed <= table[pos].keys
    ensures FindEntry(table, typed) ==
            if pos < |table| && table[pos].keys == Pad(typed) then Some(table[pos]) else None
    ensures !SomeEntryStartsWith(table, typed) ==>
            (SharesFirstKeyAbove(table, typed) <==>
             pos < |table| && typed != [] && table[pos].keys[0] == typed[0])
  {
    assert Lands(table, typed, pos) by {
      forall i | 0 <= i < pos ensures Lex.Less(table[i].keys, Pad(typed)) {
        assert LessByKeys(table[i], Pad(typed));
      }
    }
    FoundPrefix(table, typed, pos);
    FoundEntry(table, typed, pos);
    if !SomeEntryStartsWith(table, typed) {
      SharedFirstKey(table, typed, pos);
    }
  }

  /** An entry not below the buffer that shares its first `k` keys makes the search land on one
      that shares them too. */
  lemma LandsBefore(table: seq<ComposeSequence>, typed: seq<uint32>, pos: nat, i: nat, k: nat)
    requires WellFormed(table) && Lands(table, typed, pos) && i < |table| && k <= |typed|
    requires table[i].keys[..k] == typed[..k]
    requires !Lex.Less(table[i].keys, Pad(typed))
    ensures pos <= i && table[pos].keys[..k] == typed[..k]
  {
    var pad := Pad(typed);
    assert pad[..k] == typed[..k];
    Lex.Trichotomy(table[pos].keys, table[i].keys);
    Lex.Squeezed(pad, table[pos].keys, table[i].keys, k);
  }

  /** For a padded entry, its keys and the keys that are typed for it say the same. */
  lemma TypedOrKeys(e: ComposeSequence, typed: seq<uint32>)
    requires Padded(e.keys) && |typed| <= 5 && 0 !in typed
    ensures typed <= Typed(e.keys) <==> typed <= e.keys
    ensures Typed(e.keys) == typed <==> e.keys == Pad(typed)
  {
    PaddedTyped(e.keys);
    TypedPrefix(typed, seq(5 - |typed|, _ => 0));
    var n := |Typed(e.keys)|;
    assert n < |typed| ==> typed[n] != 0;
  }

  lemma FoundPrefix(table: seq<ComposeSequence>, typed: seq<uint32>, pos: nat)
    requires WellFormed(table) && Lands(table, typed, pos)
    ensures SomeEntryStartsWith(table, typed) <==> pos < |table| && typed <= table[pos].keys
  {
    if SomeEntryStartsWith(table, typed) {
      var i :| 0 <= i < |table| && typed <= Typed(table[i].keys);
      assert table[i] in table;
      TypedOrKeys(table[i], typed);
      NotBelowPrefix(table[i].keys, Pad(typed), |typed|);
      LandsBefore(table, typed, pos, i, |typed|);
    }
    if pos < |table| {
      assert table[pos] in table;
      TypedOrKeys(table[pos], typed);
    }
  }

  lemma {:induction false} FoundEntry(table: seq<ComposeSequence>, typed: seq<uint32>, pos: nat)
    requires WellFormed(table) && Lands(table, typed, pos)
    ensures FindEntry(table, typed) ==
            if pos < |table| && table[pos].keys == Pad(typed) then Some(table[pos]) else None
  {
    var found := FindEntry(table, typed);
    if found.Some? {
      TypedOrKeys(found.value, typed);
      var i :| 0 <= i < |table| && table[i] == found.value;
      Lex.Trichotomy(table[i].keys, Pad(typed));
      LandsBefore(table, typed, pos, i, |typed|);
    } else if pos < |table| {
      assert table[pos] in table;
      TypedOrKeys(table[pos], typed);
    }
  }

  lemma SharedFirstKey(table: seq<ComposeSequence>, typed: seq<uint32>, pos: nat)
    requires WellFormed(table) && Lands(table, typed, pos)
    requires !SomeEntryStartsWith(table, typed)
    ensures SharesFirstKeyAbove(table, typed) <==>
            pos < |table| && typed != [] && table[pos].keys[0] == typed[0]
  {
    if SharesFirstKeyAbove(table, typed) {
      var i :| 0 <= i < |table| && typed != [] && table[i].keys[0] == typed[0] && AboveTyped(table[i], typed);
      Lex.Trichotomy(table[i].keys, Pad(typed));
      assert table[i].keys[..1] == typed[..1];
      LandsBefore(table, typed, pos, i, 1);
      assert table[pos].keys[..1][0] == typed[..1][0];
    }
    if pos < |table| && typed != [] && table[pos].keys[0] == typed[0] {
      FoundPrefix(table, typed, pos);
      Lex.Trichotomy(table[pos].keys, Pad(typed));
      assert AboveTyped(table[pos], typed);
    }
  }

  /** The scan stopped at a key that differs, or there was no entry to scan. */
  lemma {:induction false} Rejected(table: seq<ComposeSequence>, typed: seq<uint32>, pos: nat, n: nat)
    requires WellFormed(table) && |typed| <= 5 && 0 !in typed
    requires pos == Search.FirstNotLess(table, Pad(typed), LessByKeys)
    requires pos < |table| ==>
             n < |typed| && table[pos].keys[..n] == typed[..n] && table[pos].keys[n] != typed[n]
    requires pos == |table| ==> n == 0
    ensures Decide(table, typed) == Outcome([], None, n != 0)
  {
    PrefixSearch(table, typed, pos);
    if pos < |table| {
      assert Pad(typed)[n] == typed[n];
      if n > 0 {
        assert table[pos].keys[0] == table[pos].keys[..n][0] == typed[..n][0];
      }
    }
  }

  /** The scan passed all the pending keys. */
  lemma {:induction false} Matched(table: seq<ComposeSequence>, typed: seq<uint32>, pos: nat)
    requires WellFormed(table) && |typed| <= 5 && 0 !in typed
    requires pos == Search.FirstNotLess(table, Pad(typed), LessByKeys)
    requires pos < |table| && table[pos].keys[..|typed|] == typed
    ensures Decide(table, typed) ==
            if |typed| == 5 || table[pos].keys[|typed|] == 0
            then Outcome([], Some(table[pos]), true) else Outcome(typed, None, true)
  {
    PrefixSearch(table, typed, pos);
    var keys := table[pos].keys;
    assert table[pos] in table;
    if |typed| == 5 || keys[|typed|] == 0 {
      TypedPrefix(typed, keys[|typed|..]);
      assert keys == typed + keys[|typed|..];
      TypedOrKeys(table[pos], typed);
    } else {
      assert Pad(typed)[|typed|] == 0;
    }
  }

  // ----- the engine -----

  class ComposeKeyInstance {
    const table: seq<ComposeSequence>
    const composeBuffer: array<uint32>
    var committed: seq<uint32>

    ghost predicate Valid()
      reads this, composeBuffer
    {
      && WellFormed(table)
      && composeBuffer.Length == BUFFER_LEN
      && |Pending()| <= MAX_COMPOSE_LEN
      && forall i :: |Pending()| <= i < BUFFER_LEN ==> composeBuffer[i] == 0
    }

    /** The keys waiting in the buffer. */
    ghost function Pending(): seq<uint32>
      reads this, composeBuffer
    {
      Typed(composeBuffer[..])
    }

    constructor (table: seq<ComposeSequence>)
      requires WellFormed(table)
      ensures Valid() && fresh(composeBuffer)
      ensures this.table == table && Pending() == [] && committed == []
    {
      this.table := table;
      composeBuffer := new uint32[BUFFER_LEN](_ => 0);
      committed := [];
    }

    method Reset()
      requires composeBuffer.Length == BUFFER_LEN && WellFormed(table)
      modifies composeBuffer
      ensures Valid() && Pending() == []
    {
      composeBuffer[0], composeBuffer[1], composeBuffer[2], composeBuffer[3] := 0, 0, 0, 0;
      composeBuffer[4], composeBuffer[5], composeBuffer[6], composeBuffer[7] := 0, 0, 0, 0;
    }

    /** Each key event does to the buffer, the committed text and the caller's result what the
        reference automaton says. */
    method ProcessKeyEvent(key: Key) returns (accepted: bool)
      requires Valid()
      modifies this`committed, composeBuffer
      ensures Valid()
      ensures Performed(Automaton(table, old(Pending()), key), old(committed), accepted)
    {
      if key.IsRelease() { return false; }

      var modifier := Search.BinarySearch(IGNORED_CODES, key.code % 0x1_0000);
      if modifier { return false; }

      if key.IsControlDown() || key.IsAltDown() { return false; }

      AppendCode(key.code);
      accepted := MatchBuffer();
    }

    /** The new state and the result are those of `outcome`. */
    ghost predicate Performed(outcome: Outcome, committedBefore: seq<uint32>, accepted: bool)
      reads this, composeBuffer
    {
      && Pending() == outcome.pending
      && accepted == outcome.accepted
      && committed == committedBefore + if outcome.commit.Some? then [outcome.commit.value.unicode] else []
    }

    /** Put the key behind the pending ones, after dropping them when the buffer is full. */
    method AppendCode(code: uint32)
      requires Valid()
      modifies composeBuffer
      ensures Valid() && Pending() == Extend(old(Pending()), code)
    {
      ghost var pending := Pending();
      var nCompose := 0;
      while nCompose < MAX_COMPOSE_LEN && composeBuffer[nCompose] != 0
        invariant 0 <= nCompose <= |pending|
      {
        assert composeBuffer[..][nCompose] != 0;
        nCompose := nCompose + 1;
      }

      if nCompose == MAX_COMPOSE_LEN {
        Reset();
        nCompose := 0;
      }

      composeBuffer[nCompose] := code;
      ghost var typed := Extend(pending, code);
      ghost var zeros := seq(BUFFER_LEN - |typed|, _ => 0);
      assert composeBuffer[..] == typed + zeros;
      TypedPrefix(typed, zeros);
    }

    /** Scan the pending keys against an entry, up to the first difference. */
    method CompareWith(entry: ComposeSequence) returns (nCompose: nat, same: bool)
      requires Valid()
      ensures nCompose <= |Pending()| && entry.keys[..nCompose] == Pending()[..nCompose]
      ensures same ==> nCompose == |Pending()|
      ensures !same ==> nCompose < |Pending()| && entry.keys[nCompose] != Pending()[nCompose]
    {
      ghost var typed := Pending();
      nCompose := 0;
      while nCompose < MAX_COMPOSE_LEN && composeBuffer[nCompose] != 0
        invariant 0 <= nCompose <= |typed|
        invariant entry.keys[..nCompose] == typed[..nCompose]
      {
        if composeBuffer[nCompose] != entry.keys[nCompose] {
          return nCompose, false;
        }
        nCompose := nCompose + 1;
      }
      same := true;
    }

    /** Look the buffer up: commit, keep waiting, or reject. */
    method MatchBuffer() returns (accepted: bool)
      requires Valid()
      modifies this`committed, composeBuffer
      ensures Valid()
      ensures Performed(Decide(table, old(Pending())), old(committed), accepted)
    {
      ghost var typed := Pending();
      var buffer := composeBuffer[..MAX_COMPOSE_LEN];
      assert buffer == Pad(typed);
      TablePartitioned(table, buffer);
      var it := Search.LowerBound(table, buffer, LessByKeys);

      if it == |table| {
        Rejected(table, typed, it, 0);
        Reset();
        return false;
      }

      var nCompose, same := CompareWith(table[it]);
      if !same {
        Rejected(table, typed, it, nCompose);
        Reset();
        return nCompose != 0;
      }
      assert typed[..nCompose] == typed;
      Matched(table, typed, it);
      if nCompose == MAX_COMPOSE_LEN || table[it].keys[nCompose] == 0 {
        committed := committed + [table[it].unicode];
        Reset();
      }
      return true;
    }
  }
}
