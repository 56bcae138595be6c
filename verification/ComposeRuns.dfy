/** What the Compose engine does over whole runs of key events (src/scim_compose_key.cpp). */
module ComposeRuns {
  import opened Common
  import opened KeyEvents
  import opened ComposeKey
  import Lex

  /** The keys left pending, the entries committed and the results returned so far. */
  datatype Run = Run(pending: seq<uint32>, commits: seq<ComposeSequence>, accepted: seq<bool>)

  ghost function RunFrom(table: seq<ComposeSequence>, start: seq<uint32>, events: seq<Key>): Run
    decreases |events|
  {
    if events == [] then Run(start, [], [])
    else
      var before := RunFrom(table, start, events[..|events| - 1]);
      var outcome := Automaton(table, before.pending, events[|events| - 1]);
      Run(outcome.pending,
          if outcome.commit.Some? then before.commits + [outcome.commit.value] else before.commits,
          before.accepted + [outcome.accepted])
  }

  /** The text committed for a list of entries. */
  function Text(commits: seq<ComposeSequence>): seq<uint32> {
    if commits == [] then [] else Text(commits[..|commits| - 1]) + [commits[|commits| - 1].unicode]
  }

  lemma {:induction false} TextIs(commits: seq<ComposeSequence>)
    ensures |Text(commits)| == |commits|
    ensures forall i :: 0 <= i < |commits| ==> Text(commits)[i] == commits[i].unicode
  {
    if commits == [] {
    } else {
      TextIs(commits[..|commits| - 1]);
    }
  }

  lemma RunStep(table: seq<ComposeSequence>, start: seq<uint32>, events: seq<Key>, i: nat)
    requires i < |events|
    ensures var before, after := RunFrom(table, start, events[..i]), RunFrom(table, start, events[..i + 1]);
            var outcome := Automaton(table, before.pending, events[i]);
            && after.pending == outcome.pending
            && after.accepted == before.accepted + [outcome.accepted]
            && Text(after.commits) ==
               Text(before.commits) + if outcome.commit.Some? then [outcome.commit.value.unicode] else []
  {
    assert events[..i + 1][..i] == events[..i];
  }

  /** Any list of key events given to an engine is answered as the reference automaton answers it. */
  method Feed(engine: ComposeKeyInstance, events: seq<Key>) returns (accepted: seq<bool>)
    requires engine.Valid()
    modifies engine`committed, engine.composeBuffer
    ensures engine.Valid()
    ensures var run := RunFrom(engine.table, old(engine.Pending()), events);
            && engine.Pending() == run.pending
            && engine.committed == old(engine.committed) + Text(run.commits)
            && accepted == run.accepted
    ensures var commits := RunFrom(engine.table, old(engine.Pending()), events).commits;
            |engine.committed| == |old(engine.committed)| + |commits| &&
            forall i :: 0 <= i < |commits| ==> engine.committed[|old(engine.committed)| + i] == commits[i].unicode
  {
    accepted := [];
    assert events[..0] == [];
    for i := 0 to |events|
      invariant engine.Valid()
      invariant var run := RunFrom(engine.table, old(engine.Pending()), events[..i]);
                && engine.Pending() == run.pending
                && engine.committed == old(engine.committed) + Text(run.commits)
                && accepted == run.accepted
    {
      hide RunFrom, Automaton, Text, Typed, WellFormed;
      RunStep(engine.table, old(engine.Pending()), events, i);
      var result := engine.ProcessKeyEvent(events[i]);
      accepted := accepted + [result];
    }
    assert events[..|events|] == events;
    TextIs(RunFrom(engine.table, old(engine.Pending()), events).commits);
  }

  // ----- reachable states -----

  /** A state the engine can wait in: nothing typed, or a proper beginning of some entry; and no
      entry is a beginning of what was typed. */
  ghost predicate Waiting(table: seq<ComposeSequence>, pending: seq<uint32>) {
    && (pending != [] ==> SomeEntryStartsWith(table, pending))
    && forall e :: e in table ==> !(Typed(e.keys) <= pending)
  }

  lemma WaitingIsShort(table: seq<ComposeSequence>, pending: seq<uint32>)
    requires WellFormed(table) && Waiting(table, pending)
    ensures |pending| <= 4 && 0 !in pending
    ensures FindEntry(table, pending).None?
  {
  }

  lemma {:induction false} StepKeepsWaiting(table: seq<ComposeSequence>, pending: seq<uint32>, key: Key)
    requires WellFormed(table) && Waiting(table, pending)
    ensures Waiting(table, Automaton(table, pending, key).pending)
  {
    WaitingIsShort(table, pending);
    var typed := Extend(pending, key.code);
    if !Ignored(key) && FindEntry(table, typed).None? && SomeEntryStartsWith(table, typed) {
      forall e | e in table ensures !(Typed(e.keys) <= typed) {
        assert Typed(e.keys) <= typed ==> Typed(e.keys) <= pending;
      }
    }
  }

  /** In every reachable state the buffer is empty or a proper beginning, of one to four keys, of
      some entry, and no entry is a beginning of it; so it is never full. */
  lemma {:induction false} ReachableStates(table: seq<ComposeSequence>, start: seq<uint32>, events: seq<Key>)
    requires WellFormed(table) && Waiting(table, start)
    ensures var pending := RunFrom(table, start, events).pending;
            Waiting(table, pending) && |pending| <= 4
    decreases |events|
  {
    if events == [] {
      WaitingIsShort(table, start);
    } else {
      var before := events[..|events| - 1];
      ReachableStates(table, start, before);
      StepKeepsWaiting(table, RunFrom(table, start, before).pending, events[|events| - 1]);
      WaitingIsShort(table, RunFrom(table, start, events).pending);
    }
  }

  // ----- shadowed entries -----

  /** No other entry is complete before this one is. */
  ghost predicate Unshadowed(table: seq<ComposeSequence>, e: ComposeSequence) {
    forall f :: f in table ==> !(Typed(f.keys) < Typed(e.keys))
  }

  lemma {:induction false} CommitsAreUnshadowed(table: seq<ComposeSequence>, start: seq<uint32>, events: seq<Key>)
    requires WellFormed(table) && Waiting(table, start)
    ensures forall e :: e in RunFrom(table, start, events).commits ==> e in table && Unshadowed(table, e)
    decreases |events|
  {
    if events == [] {
    } else {
      var before := events[..|events| - 1];
      CommitsAreUnshadowed(table, start, before);
      ReachableStates(table, start, before);
      var pending := RunFrom(table, start, before).pending;
      var outcome := Automaton(table, pending, events[|events| - 1]);
      if outcome.commit.Some? {
        var e := outcome.commit.value;
        assert Typed(e.keys) == Extend(pending, events[|events| - 1].code);
        forall f | f in table ensures !(Typed(f.keys) < Typed(e.keys)) {
          assert Typed(f.keys) < Typed(e.keys) ==> Typed(f.keys) <= pending;
        }
      }
    }
  }

  /** In the table of the source "Multi_key quotedbl apostrophe" is an entry, so the entries that go on
      from it, as with "space", are never committed (src/scim_compose_key_data.h:2378-2379). */
  lemma ShadowedBySource(table: seq<ComposeSequence>, e: ComposeSequence, f: ComposeSequence, events: seq<Key>)
    requires WellFormed(table) && e in table && f in table
    requires e.keys == [0xFF20, 0x22, 0x27, 0, 0] && f.keys == [0xFF20, 0x22, 0x27, 0x20, 0]
    ensures f !in RunFrom(table, [], events).commits
  {
    TypedPrefix([0xFF20, 0x22, 0x27], [0, 0]);
    TypedPrefix([0xFF20, 0x22, 0x27, 0x20], [0]);
    assert e.keys == [0xFF20, 0x22, 0x27] + [0, 0] && f.keys == [0xFF20, 0x22, 0x27, 0x20] + [0];
    assert Typed(e.keys) < Typed(f.keys);
    CommitsAreUnshadowed(table, [], events);
  }

  // ----- what was typed -----

  /** The key codes the engine takes in: presses that are not ignored, the code 0 left out. */
  ghost function TypedCodes(events: seq<Key>): seq<uint32>
    decreases |events|
  {
    if events == [] then []
    else
      var key := events[|events| - 1];
      TypedCodes(events[..|events| - 1]) + (if Ignored(key) || key.code == 0 then [] else [key.code])
  }

  ghost predicate Suffix(s: seq<uint32>, t: seq<uint32>) {
    |s| <= |t| && t[|t| - |s|..] == s
  }

  /** The entry the last of the events commits, if it commits one. */
  ghost function LastCommit(table: seq<ComposeSequence>, events: seq<Key>): Option<ComposeSequence>
    requires events != []
  {
    Automaton(table, RunFrom(table, [], events[..|events| - 1]).pending, events[|events| - 1]).commit
  }

  lemma {:induction false} SuffixStep(table: seq<ComposeSequence>, pending: seq<uint32>, codes: seq<uint32>, key: Key)
    requires |pending| <= 4 && Suffix(pending, codes)
    ensures var outcome := Automaton(table, pending, key);
            var more := if Ignored(key) || key.code == 0 then [] else [key.code];
            && Suffix(outcome.pending, codes + more)
            && (outcome.commit.Some? ==> Suffix(Typed(outcome.commit.value.keys), codes + more))
  {
    var more := if Ignored(key) || key.code == 0 then [] else [key.code];
    assert (codes + more)[|codes| - |pending|..] == codes[|codes| - |pending|..] + more;
    assert Suffix(pending + more, codes + more);
    assert (codes + more)[|codes + more|..] == [];
    assert !Ignored(key) ==> Extend(pending, key.code) == pending + more;
    assert Ignored(key) ==> pending + more == pending;
  }

  /** The pending keys are the last ones typed, and an entry is committed only right behind its own keys. */
  lemma {:induction false} PendingWasTyped(table: seq<ComposeSequence>, events: seq<Key>)
    requires WellFormed(table)
    ensures Suffix(RunFrom(table, [], events).pending, TypedCodes(events))
    ensures events != [] ==>
            var commit := LastCommit(table, events);
            commit.Some? ==> Suffix(Typed(commit.value.keys), TypedCodes(events))
    decreases |events|
  {
    if events == [] {
    } else {
      var before := events[..|events| - 1];
      PendingWasTyped(table, before);
      ReachableStates(table, [], before);
      SuffixStep(table, RunFrom(table, [], before).pending, TypedCodes(before), events[|events| - 1]);
    }
  }

  /** What is pending once `codes`, a beginning of the entry's keys, are typed. */
  function PendingOf(e: ComposeSequence, codes: seq<uint32>): seq<uint32> {
    if codes == Typed(e.keys) then [] else codes
  }

  /** One event further into an unshadowed entry. */
  lemma TypingStep(table: seq<ComposeSequence>, e: ComposeSequence, codes: seq<uint32>, key: Key, more: seq<uint32>)
    requires WellFormed(table) && e in table && Unshadowed(table, e)
    requires more == if Ignored(key) || key.code == 0 then [] else [key.code]
    requires codes + more <= Typed(e.keys)
    ensures Automaton(table, PendingOf(e, codes), key) ==
            Outcome(PendingOf(e, codes + more),
                    if more != [] && codes + more == Typed(e.keys) then Some(e) else None, !Ignored(key))
  {
    if Ignored(key) {
      assert codes + more == codes;
    } else {
      assert codes == Typed(e.keys) ==> |more| == 0;
      var typed := Extend(PendingOf(e, codes), key.code);
      assert typed == PendingOf(e, codes) + more;
      var i :| 0 <= i < |table| && table[i] == e;
      assert typed <= Typed(table[i].keys);
      if typed == Typed(e.keys) {
        OneEntryPerKeys(table, e, FindEntry(table, typed));
      } else {
        assert typed == PendingOf(e, codes + more);
      }
    }
  }

  /** For each event, whether the engine takes it in. */
  ghost function TakenIn(events: seq<Key>): seq<bool>
    decreases |events|
  {
    if events == [] then [] else TakenIn(events[..|events| - 1]) + [!Ignored(events[|events| - 1])]
  }

  /** Typing an unshadowed entry from a reset state, whatever ignored events come in between, waits
      through its keys, commits exactly that entry at its last key and takes in every key. */
  lemma {:induction false} TypingCommits(table: seq<ComposeSequence>, e: ComposeSequence, events: seq<Key>)
    requires WellFormed(table) && e in table && Unshadowed(table, e)
    requires TypedCodes(events) <= Typed(e.keys)
    ensures RunFrom(table, [], events) ==
            Run(PendingOf(e, TypedCodes(events)),
                if TypedCodes(events) == Typed(e.keys) then [e] else [],
                TakenIn(events))
    decreases |events|
  {
    if events == [] {
      assert Typed(e.keys) != [];
    } else {
      var before, key := events[..|events| - 1], events[|events| - 1];
      var codes, more := TypedCodes(before), if Ignored(key) || key.code == 0 then [] else [key.code];
      assert TypedCodes(events) == codes + more;
      TypingCommits(table, e, before);
      TypingStep(table, e, codes, key, more);
      assert more == [] ==> codes + more == codes;
      assert more != [] ==> |codes| < |Typed(e.keys)|;
    }
  }

  /** An entry's keys are not another entry's. */
  lemma OneEntryPerKeys(table: seq<ComposeSequence>, e: ComposeSequence, found: Option<ComposeSequence>)
    requires WellFormed(table) && e in table
    requires found == FindEntry(table, Typed(e.keys))
    ensures found == Some(e)
  {
    var f := found.value;
    var i :| 0 <= i < |table| && table[i] == e;
    var j :| 0 <= j < |table| && table[j] == f;
    PaddedTyped(e.keys);
    PaddedTyped(f.keys);
    Lex.Trichotomy(e.keys, f.keys);
  }

  // ----- which entries can ever be committed -----

  ghost predicate Typable(e: ComposeSequence) {
    forall c :: c in Typed(e.keys) ==> c % 0x1_0000 !in IGNORED_CODES
  }

  ghost function Presses(codes: seq<uint32>): seq<Key> {
    seq(|codes|, i requires 0 <= i < |codes| => Key(codes[i], {}))
  }

  lemma {:induction false} PressesType(codes: seq<uint32>)
    requires forall c :: c in codes ==> c != 0 && c % 0x1_0000 !in IGNORED_CODES
    ensures TypedCodes(Presses(codes)) == codes
  {
    if codes == [] {
    } else {
      var front := codes[..|codes| - 1];
      assert forall c :: c in front ==> c in codes;
      PressesType(front);
      assert Presses(codes)[..|codes| - 1] == Presses(front);
      assert codes == front + [codes[|codes| - 1]];
      assert !Ignored(Key(codes[|codes| - 1], {}));
    }
  }

  lemma {:induction false} TakenCodesAreNotIgnored(events: seq<Key>)
    ensures forall c :: c in TypedCodes(events) ==> c % 0x1_0000 !in IGNORED_CODES
    decreases |events|
  {
    if events == [] {
    } else {
      TakenCodesAreNotIgnored(events[..|events| - 1]);
    }
  }

  lemma {:induction false} CommitsAreTypable(table: seq<ComposeSequence>, events: seq<Key>)
    requires WellFormed(table)
    ensures forall e :: e in RunFrom(table, [], events).commits ==> Typable(e)
    decreases |events|
  {
    if events == [] {
    } else {
      CommitsAreTypable(table, events[..|events| - 1]);
      PendingWasTyped(table, events);
      TakenCodesAreNotIgnored(events);
    }
  }

  /** An entry can be committed by some run from a reset state exactly when no other entry is a
      beginning of it and none of its keys is an ignored one. */
  lemma Committable(table: seq<ComposeSequence>, e: ComposeSequence)
    requires WellFormed(table) && e in table
    ensures (exists events :: e in RunFrom(table, [], events).commits) <==> Unshadowed(table, e) && Typable(e)
  {
    if events :| e in RunFrom(table, [], events).commits {
      CommitsAreUnshadowed(table, [], events);
      CommitsAreTypable(table, events);
    }
    if Unshadowed(table, e) && Typable(e) {
      var codes := Typed(e.keys);
      PressesType(codes);
      TypingCommits(table, e, Presses(codes));
      assert e in RunFrom(table, [], Presses(codes)).commits;
    }
  }

  // ----- rejected keys -----

  ghost predicate IsRejected(table: seq<ComposeSequence>, pending: seq<uint32>, key: Key) {
    var typed := Extend(pending, key.code);
    !Ignored(key) && FindEntry(table, typed).None? && !SomeEntryStartsWith(table, typed)
  }

  /** A key rejected while nothing is pending goes on to the application. */
  lemma {:induction false} RejectedFirstKey(table: seq<ComposeSequence>, key: Key)
    requires WellFormed(table) && IsRejected(table, [], key)
    ensures !Automaton(table, [], key).accepted
  {
    hide Typed, Lex.Less;
    var typed := Extend([], key.code);
    assert typed == if key.code == 0 then [] else [key.code];
    forall i | 0 <= i < |table| && typed != [] ensures table[i].keys[0] != typed[0] {
      assert table[i] in table;
      FirstKeyTyped(table[i]);
      assert !(typed <= Typed(table[i].keys));
    }
  }

  lemma FirstKeyTyped(e: ComposeSequence)
    requires Typed(e.keys) != []
    ensures Typed(e.keys)[0] == e.keys[0]
  {
  }

  /** The comment in the source says that a rejected key is forwarded if it is the first one and taken
      in otherwise. The code does so exactly when it is the first one or some entry with the same
      first key sorts above what was typed. */
  lemma {:induction false} CommentRule(table: seq<ComposeSequence>, pending: seq<uint32>, key: Key)
    requires WellFormed(table) && IsRejected(table, pending, key)
    ensures Automaton(table, pending, key).accepted == (pending != []) <==>
            pending == [] || SharesFirstKeyAbove(table, Extend(pending, key.code))
  {
    hide WellFormed, SharesFirstKeyAbove, SomeEntryStartsWith;
    if pending == [] {
      RejectedFirstKey(table, key);
    }
  }

  const DEAD_HORN: uint32 := 0xFE62

  /** Entries that start with the dead horn go on with a key not above "u". */
  ghost predicate OnlyUpToU(table: seq<ComposeSequence>) {
    forall f :: f in table && f.keys[0] == DEAD_HORN ==> 0 < f.keys[1] <= 0x75
  }

  lemma {:induction false} HornWaits(table: seq<ComposeSequence>, e: ComposeSequence)
    requires e in table && e.keys == [DEAD_HORN, 0x75, 0, 0, 0] && OnlyUpToU(table)
    ensures FindEntry(table, [DEAD_HORN]).None? && SomeEntryStartsWith(table, [DEAD_HORN])
  {
    hide Typed, FindEntry;
    forall f | f in table ensures Typed(f.keys) != [DEAD_HORN] {
      assert |Typed(f.keys)| == 1 ==> f.keys[1] == 0 && Typed(f.keys)[0] == f.keys[0];
    }
    TypedPrefix([DEAD_HORN, 0x75], [0, 0, 0]);
    assert e.keys == [DEAD_HORN, 0x75] + [0, 0, 0];
    var i :| 0 <= i < |table| && table[i] == e;
    assert [DEAD_HORN] <= Typed(table[i].keys);
  }

  lemma {:induction false} ZBehindHorn(table: seq<ComposeSequence>)
    requires OnlyUpToU(table)
    ensures var typed := [DEAD_HORN, 0x7A];
            FindEntry(table, typed).None? && !SomeEntryStartsWith(table, typed) && !SharesFirstKeyAbove(table, typed)
  {
    hide Typed, FindEntry, Lex.Less;
    var typed := [DEAD_HORN, 0x7A];
    forall f | f in table ensures !(typed <= Typed(f.keys)) {
      assert |Typed(f.keys)| >= 2 ==> Typed(f.keys)[0] == f.keys[0] && Typed(f.keys)[1] == f.keys[1];
    }
    forall f | f in table && f.keys[0] == DEAD_HORN ensures !AboveTyped(f, typed) {
      SecondKeyDecides(Pad(typed), f.keys);
    }
  }

  lemma SecondKeyDecides(a: seq<uint32>, b: seq<uint32>)
    requires |a| == |b| == 5 && a[0] == b[0] && a[1] > b[1]
    ensures !Lex.Less(a, b)
  {
  }

  lemma NotIgnored()
    ensures !Ignored(Key(DEAD_HORN, {})) && !Ignored(Key(0x7A, {}))
  {
  }

  /** The rule fails in the table of the source: "u" is the last key that can follow the dead horn
      (src/scim_compose_key_data.h:2308-2311). With the horn waiting, a "z" drops it and is forwarded. */
  lemma {:induction false} CommentRuleFails(table: seq<ComposeSequence>, e: ComposeSequence)
    requires WellFormed(table) && e in table && e.keys == [DEAD_HORN, 0x75, 0, 0, 0]
    requires OnlyUpToU(table)
    ensures Automaton(table, [], Key(DEAD_HORN, {})) == Outcome([DEAD_HORN], None, true)
    ensures Automaton(table, [DEAD_HORN], Key(0x7A, {})) == Outcome([], None, false)
  {
    hide WellFormed, OnlyUpToU, FindEntry, SomeEntryStartsWith, SharesFirstKeyAbove, Ignored;
    HornWaits(table, e);
    ZBehindHorn(table);
    NotIgnored();
    assert Extend([], DEAD_HORN) == [DEAD_HORN] && Extend([DEAD_HORN], 0x7A) == [DEAD_HORN, 0x7A];
  }

  /** A "T" behind the dead horn is no entry either, but "u" sorts above it: it is taken in. */
  lemma {:induction false} CommentRuleHolds(table: seq<ComposeSequence>, e: ComposeSequence)
    requires WellFormed(table) && e in table && e.keys == [DEAD_HORN, 0x75, 0, 0, 0]
    requires forall f :: f in table && f.keys[0] == DEAD_HORN ==> f.keys[1] != 0x54
    ensures Automaton(table, [DEAD_HORN], Key(0x54, {})) == Outcome([], None, true)
  {
    hide WellFormed, Typed;
    var typed := Extend([DEAD_HORN], 0x54);
    assert typed == [DEAD_HORN, 0x54];
    forall f | f in table ensures !(typed <= Typed(f.keys)) {
      assert |Typed(f.keys)| >= 2 ==> Typed(f.keys)[0] == f.keys[0] && Typed(f.keys)[1] == f.keys[1];
    }
    TakenEvent(table, [DEAD_HORN], Key(0x54, {}));
    var i :| 0 <= i < |table| && table[i] == e;
    assert AboveTyped(table[i], typed) by {
      SecondKeyAscends(Pad(typed), e.keys);
    }
  }

  lemma SecondKeyAscends(a: seq<uint32>, b: seq<uint32>)
    requires |a| == |b| == 5 && a[0] == b[0] && a[1] < b[1]
    ensures Lex.Less(a, b)
  {
  }
}
