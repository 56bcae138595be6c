/** The factory repository of the backend and how an input context cycles through it
    (src/scim_backend.cpp:64-71, 149-164, 237-312). */
module Backend {
  import opened Common
  import Strings

  /** What the backend asks of a factory. An empty `encodings` answer means none is valid. */
  datatype Factory = Factory(uuid: string, language: string, name: string, encodings: set<string>)

  /** `IMEngineFactoryPointerLess` */
  predicate FactoryLess(a: Factory, b: Factory) {
    || Strings.StrLess(a.language, b.language)
    || (a.language == b.language && Strings.StrLess(a.name, b.name))
  }

  predicate ValidFor(f: Factory, encoding: string) {
    encoding == [] || encoding in f.encodings
  }

  predicate Speaks(f: Factory, language: string) {
    language == [] || f.language == language
  }

  /** No two factories of the list have one uuid. */
  ghost predicate DistinctUuids(fs: seq<Factory>) {
    forall i, j :: 0 <= i < j < |fs| ==> fs[i].uuid != fs[j].uuid
  }

  // ----- the cycle of a language -----

  /** The factories of the language, in the order of the list. */
  function Matching(fs: seq<Factory>, language: string): (ms: seq<Factory>)
    ensures |ms| <= |fs|
    ensures forall f :: f in ms <==> f in fs && Speaks(f, language)
  {
    if fs == [] then []
    else
      var before, last := Matching(fs[..|fs| - 1], language), fs[|fs| - 1];
      assert fs == fs[..|fs| - 1] + [last];
      if Speaks(last, language) then before + [last] else before
  }

  /** Where a factory stands: how many of the language come before it. */
  function Rank(fs: seq<Factory>, language: string, pos: nat): nat
    requires pos <= |fs|
  {
    |Matching(fs[..pos], language)|
  }

  function PositionOf(fs: seq<Factory>, uuid: string): (pos: nat)
    ensures pos <= |fs| && (pos < |fs| ==> fs[pos].uuid == uuid)
    ensures forall i :: 0 <= i < pos ==> fs[i].uuid != uuid
  {
    if fs == [] || fs[0].uuid == uuid then 0 else 1 + PositionOf(fs[1..], uuid)
  }

  /** The place so many steps on in a cycle of `m` places. */
  function Place(i: nat, steps: nat, m: nat): nat
    requires i < m && steps <= m
  {
    if i + steps < m then i + steps else i + steps - m
  }

  /** The next factory: one place on in the cycle of the language, counted from the factories of the
      language before the current one; without any, the first factory of all. */
  function Next(fs: seq<Factory>, language: string, uuid: string): Option<Factory> {
    var pos, ms := PositionOf(fs, uuid), Matching(fs, language);
    if pos == |fs| then None
    else if ms == [] then Some(fs[0])
    else
      var place := Rank(fs, language, pos) + if Speaks(fs[pos], language) then 1 else 0;
      Some(ms[if place < |ms| then place else 0])
  }

  /** The previous factory: one place back in the cycle; without any of the language, the last of all. */
  function Previous(fs: seq<Factory>, language: string, uuid: string): Option<Factory> {
    var pos, ms := PositionOf(fs, uuid), Matching(fs, language);
    if pos == |fs| then None
    else if ms == [] then Some(fs[|fs| - 1])
    else
      var place := Rank(fs, language, pos);
      MatchingSplit(fs, language, pos);
      Some(ms[if place > 0 then place - 1 else |ms| - 1])
  }

  // ----- matching factories and their ranks -----

  lemma MatchingStep(fs: seq<Factory>, language: string, i: nat)
    requires i < |fs|
    ensures Matching(fs[..i + 1], language) ==
            if Speaks(fs[i], language) then Matching(fs[..i], language) + [fs[i]] else Matching(fs[..i], language)
  {
    assert fs[..i + 1][..i] == fs[..i];
  }

  /** The factories of the language in a beginning of the list are a beginning of the cycle. */
  lemma {:induction false} MatchingSplit(fs: seq<Factory>, language: string, pos: nat)
    requires pos <= |fs|
    ensures Matching(fs[..pos], language) <= Matching(fs, language)
    decreases |fs| - pos
  {
    hide Matching, Speaks;
    if pos == |fs| {
      assert fs[..pos] == fs;
    } else {
      MatchingStep(fs, language, pos);
      MatchingSplit(fs, language, pos + 1);
    }
  }

  /** A factory of the language stands in the cycle at its rank. */
  lemma {:induction false} AtRank(fs: seq<Factory>, language: string, pos: nat)
    requires pos < |fs| && Speaks(fs[pos], language)
    ensures Rank(fs, language, pos) < |Matching(fs, language)|
    ensures Matching(fs, language)[Rank(fs, language, pos)] == fs[pos]
  {
    hide Matching;
    MatchingStep(fs, language, pos);
    MatchingSplit(fs, language, pos + 1);
  }

  /** And every place of the cycle is the rank of a listed factory. */
  lemma PlaceOf(fs: seq<Factory>, language: string, i: nat) returns (pos: nat)
    requires i < |Matching(fs, language)|
    ensures pos < |fs| && Speaks(fs[pos], language)
    ensures fs[pos] == Matching(fs, language)[i] && Rank(fs, language, pos) == i
  {
    assert fs[..|fs|] == fs;
    pos := PlaceWithin(fs, language, |fs|, i);
  }

  lemma {:induction false} PlaceWithin(fs: seq<Factory>, language: string, n: nat, i: nat) returns (pos: nat)
    requires n <= |fs| && i < |Matching(fs[..n], language)|
    ensures pos < n && Speaks(fs[pos], language)
    ensures fs[pos] == Matching(fs[..n], language)[i] && Rank(fs, language, pos) == i
    decreases n
  {
    hide Matching, Speaks;
    MatchingNothing(fs, language);
    MatchingStep(fs, language, n - 1);
    if i < |Matching(fs[..n - 1], language)| {
      pos := PlaceWithin(fs, language, n - 1, i);
    } else {
      pos := n - 1;
    }
  }

  lemma PositionIs(fs: seq<Factory>, pos: nat)
    requires DistinctUuids(fs) && pos < |fs|
    ensures PositionOf(fs, fs[pos].uuid) == pos
  {
  }

  // ----- the list of the factories -----

  ghost predicate IsSorted(fs: seq<Factory>) {
    forall i, j :: 0 <= i < j < |fs| ==> !FactoryLess(fs[j], fs[i])
  }

  /** The languages of a sorted list never descend, nor the names within one language. */
  lemma {:induction false} SortedMeans(fs: seq<Factory>)
    ensures IsSorted(fs) <==>
            forall i, j :: 0 <= i < j < |fs| ==>
              && !Strings.StrLess(fs[j].language, fs[i].language)
              && (fs[i].language == fs[j].language ==> !Strings.StrLess(fs[j].name, fs[i].name))
  {
    hide Strings.StrLess;
    forall i, j | 0 <= i < j < |fs|
      ensures !FactoryLess(fs[j], fs[i]) <==>
              && !Strings.StrLess(fs[j].language, fs[i].language)
              && (fs[i].language == fs[j].language ==> !Strings.StrLess(fs[j].name, fs[i].name))
    {
    }
  }

  /** The factories of the repository that are valid for the encoding, in the order of `keys`. */
  function Offered(repository: map<string, Factory>, keys: seq<string>, encoding: string): seq<Factory>
    requires forall k :: k in keys ==> k in repository
  {
    if keys == [] then []
    else
      var before, f := Offered(repository, keys[..|keys| - 1], encoding), repository[keys[|keys| - 1]];
      if ValidFor(f, encoding) then before + [f] else before
  }

  lemma {:induction false} OfferedAre(repository: map<string, Factory>, keys: seq<string>, encoding: string)
    requires Distinct(keys) && forall k :: k in keys ==> k in repository && repository[k].uuid == k
    ensures var fs := Offered(repository, keys, encoding);
            && (forall f :: f in fs <==> f.uuid in keys && repository[f.uuid] == f && ValidFor(f, encoding))
            && DistinctUuids(fs)
  {
    if keys == [] {
    } else {
      var front, last := keys[..|keys| - 1], keys[|keys| - 1];
      OfferedAre(repository, front, encoding);
      assert keys == front + [last];
      assert last !in front;
    }
  }

  lemma SameElements(a: seq<Factory>, b: seq<Factory>)
    requires multiset(a) == multiset(b)
    ensures forall f :: f in a <==> f in b
  {
    forall f ensures f in a <==> f in b {
      assert f in a <==> f in multiset(a);
      assert f in b <==> f in multiset(b);
    }
  }

  lemma SameUuids(a: seq<Factory>, b: seq<Factory>)
    requires multiset(a) == multiset(b) && DistinctUuids(b)
    ensures DistinctUuids(a)
  {
    forall i, j | 0 <= i < j < |a| ensures a[i].uuid != a[j].uuid {
      SameElements(a, b);
      assert a[i] in b && a[j] in b;
      if a[i] == a[j] {
        TwiceIn(a, i, j);
        OnceIn(b, a[i]);
        assert false;
      }
    }
  }

  lemma TwiceIn(a: seq<Factory>, i: nat, j: nat)
    requires i < j < |a| && a[i] == a[j]
    ensures multiset(a)[a[i]] >= 2
  {
    assert a == a[..j] + a[j..];
    assert a[..j][i] == a[i] && a[j..][0] == a[i];
    assert a[i] in a[..j] && a[i] in a[j..];
  }

  lemma {:induction false} OnceIn(b: seq<Factory>, f: Factory)
    requires DistinctUuids(b) && f in b
    ensures multiset(b)[f] == 1
  {
    var n := |b| - 1;
    assert b == b[..n] + [b[n]];
    if b[n] == f {
      assert f !in b[..n];
    } else {
      OnceIn(b[..n], f);
    }
  }

  lemma MatchingNothing(fs: seq<Factory>, language: string)
    ensures Matching(fs[..0], language) == []
  {
  }

  function First(ms: seq<Factory>): Option<Factory> {
    if ms == [] then None else Some(ms[0])
  }

  function Last(ms: seq<Factory>): Option<Factory> {
    if ms == [] then None else Some(ms[|ms| - 1])
  }

  lemma FoundAt(fs: seq<Factory>, uuid: string, pos: nat)
    requires pos < |fs| && fs[pos].uuid == uuid && forall i :: 0 <= i < pos ==> fs[i].uuid != uuid
    ensures PositionOf(fs, uuid) == pos
  {
  }

  lemma NotFound(fs: seq<Factory>, uuid: string)
    requires forall i :: 0 <= i < |fs| ==> fs[i].uuid != uuid
    ensures PositionOf(fs, uuid) == |fs|
  {
  }

  // ----- the two walks -----

  /** The loops of `get_next_factory` over a list. */
  method WalkNext(factories: seq<Factory>, language: string, uuid: string) returns (next: Option<Factory>)
    ensures next == Next(factories, language, uuid)
  {
    hide Matching;
    var langFirst: Option<Factory> := None;
    MatchingNothing(factories, language);
    for it := 0 to |factories|
      invariant forall i :: 0 <= i < it ==> factories[i].uuid != uuid
      invariant langFirst == First(Matching(factories[..it], language))
    {
      MatchingStep(factories, language, it);
      if Speaks(factories[it], language) && langFirst.None? {
        langFirst := Some(factories[it]);
      }
      if factories[it].uuid == uuid {
        FoundAt(factories, uuid, it);
        next := NextBehind(factories, language, it);
        if next.Some? { return next; }
        if langFirst.Some? { return langFirst; }
        return Some(factories[0]);
      }
    }
    NotFound(factories, uuid);
    next := None;
  }

  /** The inner loop: the first factory of the language behind `it`. */
  method NextBehind(factories: seq<Factory>, language: string, it: nat) returns (next: Option<Factory>)
    requires it < |factories|
    ensures var ms, place := Matching(factories, language), |Matching(factories[..it + 1], language)|;
            && place <= |ms| && Matching(factories[..it + 1], language) <= ms
            && next == if place < |ms| then Some(ms[place]) else None
  {
    hide Matching;
    MatchingSplit(factories, language, it + 1);
    for itl := it + 1 to |factories|
      invariant Matching(factories[..itl], language) == Matching(factories[..it + 1], language)
    {
      MatchingStep(factories, language, itl);
      if Speaks(factories[itl], language) {
        AtRank(factories, language, itl);
        return Some(factories[itl]);
      }
    }
    assert factories[..|factories|] == factories;
    next := None;
  }

  /** The loops of `get_previous_factory` over a list. */
  method WalkPrevious(factories: seq<Factory>, language: string, uuid: string) returns (previous: Option<Factory>)
    ensures previous == Previous(factories, language, uuid)
  {
    hide Matching;
    var langLast: Option<Factory> := None;
    MatchingNothing(factories, language);
    for it := 0 to |factories|
      invariant langLast == Last(Matching(factories[..it], language))
    {
      MatchingStep(factories, language, it);
      if Speaks(factories[it], language) {
        langLast := Some(factories[it]);
      }
    }
    assert factories[..|factories|] == factories;
    for it := 0 to |factories|
      invariant forall i :: 0 <= i < it ==> factories[i].uuid != uuid
    {
      if factories[it].uuid == uuid {
        FoundAt(factories, uuid, it);
        previous := PreviousBefore(factories, language, it);
        if previous.Some? { return previous; }
        if langLast.Some? { return langLast; }
        return Some(factories[|factories| - 1]);
      }
    }
    NotFound(factories, uuid);
    previous := None;
  }

  /** The inner loop: the last factory of the language before `it`. */
  method PreviousBefore(factories: seq<Factory>, language: string, it: nat) returns (previous: Option<Factory>)
    requires it < |factories|
    ensures var ms, place := Matching(factories, language), Rank(factories, language, it);
            && place <= |ms|
            && previous == if place > 0 then Some(ms[place - 1]) else None
  {
    hide Matching;
    MatchingSplit(factories, language, it);
    var itl := it;
    while itl != 0
      invariant 0 <= itl <= it
      invariant Matching(factories[..itl], language) == Matching(factories[..it], language)
    {
      MatchingStep(factories, language, itl - 1);
      if Speaks(factories[itl - 1], language) {
        AtRank(factories, language, itl - 1);
        return Some(factories[itl - 1]);
      }
      itl := itl - 1;
    }
    MatchingNothing(factories, language);
    previous := None;
  }

  // ----- the backend -----

  class BackEnd {
    var repository: map<string, Factory>
    /** The order in which the container passes its keys. */
    const order: map<string, Factory> -> seq<string>
    /** `std::sort` with `IMEngineFactoryPointerLess`, which may leave ties in any order. */
    const sort: seq<Factory> -> seq<Factory>

    ghost predicate Valid()
      reads this`repository
    {
      && (forall m :: Enumerates(order(m), m.Keys))
      && (forall s :: IsSorted(sort(s)) && multiset(sort(s)) == multiset(s))
      && (forall u :: u in repository ==> repository[u].uuid == u && u != [])
    }

    constructor (order: map<string, Factory> -> seq<string>, sort: seq<Factory> -> seq<Factory>)
      requires forall m :: Enumerates(order(m), m.Keys)
      requires forall s :: IsSorted(sort(s)) && multiset(sort(s)) == multiset(s)
      ensures Valid() && repository == map[]
    {
      repository := map[];
      this.order, this.sort := order, sort;
    }

    method Clear()
      requires Valid()
      modifies this`repository
      ensures Valid() && repository == map[]
    {
      repository := map[];
    }

    /** The first factory registered under a uuid stays. */
    method AddFactory(factory: Option<Factory>) returns (added: bool)
      requires Valid()
      modifies this`repository
      ensures Valid()
      ensures added <==> factory.Some? && factory.value.uuid != [] && factory.value.uuid !in old(repository)
      ensures repository == if added then old(repository)[factory.value.uuid := factory.value] else old(repository)
    {
      added := false;
      if factory.Some? {
        var uuid := factory.value.uuid;
        if |uuid| != 0 && uuid !in repository {
          repository := repository[uuid := factory.value];
          added := true;
        }
      }
    }

    /** The list that next and previous walk. */
    ghost function Listing(encoding: string): seq<Factory>
      requires Valid()
      reads this`repository
    {
      sort(Offered(repository, order(repository), encoding))
    }

    method GetFactoriesForEncoding(encoding: string) returns (factories: seq<Factory>)
      requires Valid()
      ensures factories == Listing(encoding) && IsSorted(factories) && DistinctUuids(factories)
      ensures forall f :: f in factories <==>
                f.uuid in repository && repository[f.uuid] == f && (encoding == "" || encoding in f.encodings)
      ensures forall i, j :: 0 <= i < j < |factories| ==>
                && !Strings.StrLess(factories[j].language, factories[i].language)
                && (factories[i].language == factories[j].language ==>
                    !Strings.StrLess(factories[j].name, factories[i].name))
    {
      factories := [];
      var keys := order(repository);
      assert Enumerates(keys, repository.Keys);
      for i := 0 to |keys|
        invariant factories == Offered(repository, keys[..i], encoding)
      {
        assert keys[..i + 1][..i] == keys[..i];
        var f := repository[keys[i]];
        if |encoding| == 0 || encoding in f.encodings {
          factories := factories + [f];
        }
      }
      assert keys[..|keys|] == keys;
      OfferedAre(repository, keys, encoding);
      SameElements(sort(factories), factories);
      SameUuids(sort(factories), factories);
      SortedMeans(sort(factories));
      factories := sort(factories);
    }

    method GetNextFactory(language: string, encoding: string, uuid: string) returns (next: Option<Factory>)
      requires Valid()
      ensures next == Next(Listing(encoding), language, uuid)
    {
      var factories := GetFactoriesForEncoding(encoding);
      next := WalkNext(factories, language, uuid);
    }

    method GetPreviousFactory(language: string, encoding: string, uuid: string) returns (previous: Option<Factory>)
      requires Valid()
      ensures previous == Previous(Listing(encoding), language, uuid)
    {
      var factories := GetFactoriesForEncoding(encoding);
      previous := WalkPrevious(factories, language, uuid);
    }
  }

  // ----- cycling -----

  lemma {:induction false} StepFrom(fs: seq<Factory>, language: string, pos: nat)
    requires DistinctUuids(fs) && pos < |fs|
    ensures var ms, rank := Matching(fs, language), Rank(fs, language, pos);
            var place := rank + if Speaks(fs[pos], language) then 1 else 0;
            && rank <= |ms|
            && Next(fs, language, fs[pos].uuid) ==
               Some(if ms == [] then fs[0] else ms[if place < |ms| then place else 0])
            && Previous(fs, language, fs[pos].uuid) ==
               Some(if ms == [] then fs[|fs| - 1] else ms[if rank > 0 then rank - 1 else |ms| - 1])
  {
    hide Matching, Speaks;
    PositionIs(fs, pos);
    MatchingSplit(fs, language, pos);
  }

  // ----- what a step is, told from the list alone -----

  /** With the language "" the steps walk the whole list, from each end to the other. */
  lemma {:induction false} StepInAnyLanguage(fs: seq<Factory>, pos: nat)
    requires DistinctUuids(fs) && pos < |fs|
    ensures Next(fs, "", fs[pos].uuid) == Some(fs[if pos + 1 < |fs| then pos + 1 else 0])
    ensures Previous(fs, "", fs[pos].uuid) == Some(fs[if pos > 0 then pos - 1 else |fs| - 1])
  {
    hide Next, Previous, Matching;
    AllMatch(fs, |fs|);
    AllMatch(fs, pos);
    assert fs[..|fs|] == fs;
    StepFrom(fs, "", pos);
  }

  lemma {:induction false} AllMatch(fs: seq<Factory>, n: nat)
    requires n <= |fs|
    ensures Matching(fs[..n], "") == fs[..n]
  {
    hide Matching;
    if n == 0 {
      MatchingNothing(fs, "");
    } else {
      MatchingStep(fs, "", n - 1);
      AllMatch(fs, n - 1);
      assert fs[..n] == fs[..n - 1] + [fs[n - 1]];
    }
  }

  /** No factory of the list from `a` up to `b` has the language. */
  ghost predicate NoneSpeaks(fs: seq<Factory>, language: string, a: int, b: int) {
    0 <= a && b <= |fs| && forall i :: a <= i < b ==> fs[i].language != language
  }

  lemma {:induction false} SameRank(fs: seq<Factory>, language: string, a: nat, b: nat)
    requires language != "" && a <= b <= |fs| && NoneSpeaks(fs, language, a, b)
    ensures Rank(fs, language, a) == Rank(fs, language, b)
    decreases b - a
  {
    hide Matching;
    if a == b {
    } else {
      MatchingStep(fs, language, a);
      SameRank(fs, language, a + 1, b);
    }
  }

  /** In a language next is the first factory of it behind the current one, and with none behind it the
      first of all of them. */
  lemma {:induction false} NextInLanguage(fs: seq<Factory>, language: string, pos: nat, j: nat)
    requires DistinctUuids(fs) && pos < |fs| && j < |fs| && language != "" && fs[j].language == language
    requires if pos < j then NoneSpeaks(fs, language, pos + 1, j)
             else NoneSpeaks(fs, language, pos + 1, |fs|) && NoneSpeaks(fs, language, 0, j)
    ensures Next(fs, language, fs[pos].uuid) == Some(fs[j])
  {
    hide Next, Previous, Matching, NoneSpeaks;
    StepFrom(fs, language, pos);
    MatchingStep(fs, language, pos);
    AtRank(fs, language, j);
    if pos < j {
      SameRank(fs, language, pos + 1, j);
    } else {
      assert fs[..|fs|] == fs;
      SameRank(fs, language, pos + 1, |fs|);
      SameRank(fs, language, 0, j);
      MatchingNothing(fs, language);
    }
  }

  /** Previous is the last factory of the language before the current one, and with none before it the
      last of all of them. */
  lemma {:induction false} PreviousInLanguage(fs: seq<Factory>, language: string, pos: nat, j: nat)
    requires DistinctUuids(fs) && pos < |fs| && j < |fs| && language != "" && fs[j].language == language
    requires if j < pos then NoneSpeaks(fs, language, j + 1, pos)
             else NoneSpeaks(fs, language, 0, pos) && NoneSpeaks(fs, language, j + 1, |fs|)
    ensures Previous(fs, language, fs[pos].uuid) == Some(fs[j])
  {
    hide Next, Previous, Matching, NoneSpeaks;
    StepFrom(fs, language, pos);
    MatchingStep(fs, language, j);
    AtRank(fs, language, j);
    if j < pos {
      SameRank(fs, language, j + 1, pos);
    } else {
      assert fs[..|fs|] == fs;
      SameRank(fs, language, j + 1, |fs|);
      SameRank(fs, language, 0, pos);
      MatchingNothing(fs, language);
    }
  }

  /** Without any factory of the language next is the first factory listed, and previous the last. */
  lemma {:induction false} StepWithoutLanguage(fs: seq<Factory>, language: string, pos: nat)
    requires DistinctUuids(fs) && pos < |fs| && language != "" && NoneSpeaks(fs, language, 0, |fs|)
    ensures Next(fs, language, fs[pos].uuid) == Some(fs[0])
    ensures Previous(fs, language, fs[pos].uuid) == Some(fs[|fs| - 1])
  {
    hide Next, Previous, Matching, NoneSpeaks;
    StepFrom(fs, language, pos);
    assert fs[..|fs|] == fs;
    SameRank(fs, language, 0, |fs|);
    MatchingNothing(fs, language);
  }

  /** From the factory at a place of the cycle, next leads one place on and previous one place back. */
  lemma {:induction false} StepFromPlace(fs: seq<Factory>, language: string, i: nat)
    requires DistinctUuids(fs) && i < |Matching(fs, language)|
    ensures var ms := Matching(fs, language);
            && Next(fs, language, ms[i].uuid) == Some(ms[Place(i, 1, |ms|)])
            && Previous(fs, language, ms[i].uuid) == Some(ms[Place(i, |ms| - 1, |ms|)])
  {
    hide Matching, Next, Previous;
    var pos := PlaceOf(fs, language, i);
    StepFrom(fs, language, pos);
  }

  /** The factory reached by so many calls of next. */
  function Iterate(fs: seq<Factory>, language: string, start: Factory, steps: nat): Option<Factory> {
    if steps == 0 then Some(start)
    else
      var before := Iterate(fs, language, start, steps - 1);
      if before.None? then None else Next(fs, language, before.value.uuid)
  }

  lemma {:induction false} IterateIs(fs: seq<Factory>, language: string, i: nat, steps: nat)
    requires DistinctUuids(fs) && i < |Matching(fs, language)| && steps <= |Matching(fs, language)|
    ensures var ms := Matching(fs, language);
            Iterate(fs, language, ms[i], steps) == Some(ms[Place(i, steps, |ms|)])
  {
    hide Matching, Next;
    if steps == 0 {
    } else {
      IterateIs(fs, language, i, steps - 1);
      StepFromPlace(fs, language, Place(i, steps - 1, |Matching(fs, language)|));
    }
  }

  /** Fewer than `m` calls of next lead to the factory. */
  ghost predicate Reached(fs: seq<Factory>, language: string, start: Factory, m: nat, f: Factory) {
    exists n :: 0 <= n < m && Iterate(fs, language, start, n) == Some(f)
  }

  /** From a factory of the language, as many calls of next as the language has factories lead back to
      the start. */
  lemma {:induction false} CycleReturns(fs: seq<Factory>, language: string, start: Factory)
    requires DistinctUuids(fs) && start in fs && Speaks(start, language)
    ensures Iterate(fs, language, start, |Matching(fs, language)|) == Some(start)
  {
    hide Matching, Iterate, Speaks, DistinctUuids;
    var ms := Matching(fs, language);
    assert start in ms;
    var i :| 0 <= i < |ms| && ms[i] == start;
    IterateIs(fs, language, i, |ms|);
  }

  /** On the way they come to every factory of the language. */
  lemma {:induction false} CycleVisitsAll(fs: seq<Factory>, language: string, start: Factory, f: Factory)
    requires DistinctUuids(fs) && start in fs && Speaks(start, language)
    requires f in fs && Speaks(f, language)
    ensures Reached(fs, language, start, |Matching(fs, language)|, f)
  {
    hide Matching, Iterate, Speaks, DistinctUuids;
    var ms := Matching(fs, language);
    assert start in ms && f in ms;
    var i :| 0 <= i < |ms| && ms[i] == start;
    var j :| 0 <= j < |ms| && ms[j] == f;
    IterateIs(fs, language, i, if j >= i then j - i else j - i + |ms|);
  }

  /** And they come to none of them twice. */
  lemma {:induction false} CycleVisitsOnce(fs: seq<Factory>, language: string, start: Factory, a: nat, b: nat)
    requires DistinctUuids(fs) && start in fs && Speaks(start, language)
    requires a < b < |Matching(fs, language)|
    ensures Iterate(fs, language, start, a) != Iterate(fs, language, start, b)
  {
    hide Matching, Iterate, Speaks, DistinctUuids;
    var ms := Matching(fs, language);
    assert start in ms;
    var i :| 0 <= i < |ms| && ms[i] == start;
    IterateIs(fs, language, i, a);
    IterateIs(fs, language, i, b);
    DifferentPlaces(fs, language, Place(i, a, |ms|), Place(i, b, |ms|));
  }

  lemma {:induction false} DifferentPlaces(fs: seq<Factory>, language: string, i: nat, j: nat)
    requires DistinctUuids(fs) && i < |Matching(fs, language)| && j < |Matching(fs, language)| && i != j
    ensures Matching(fs, language)[i] != Matching(fs, language)[j]
  {
    var p := PlaceOf(fs, language, i);
    var q := PlaceOf(fs, language, j);
  }

  /** On the factories of the language previous undoes next and next undoes previous. */
  lemma NextAndPreviousUndo(fs: seq<Factory>, language: string, f: Factory)
    requires DistinctUuids(fs) && f in fs && Speaks(f, language)
    ensures var next, previous := Next(fs, language, f.uuid), Previous(fs, language, f.uuid);
            && next.Some? && Previous(fs, language, next.value.uuid) == Some(f)
            && previous.Some? && Next(fs, language, previous.value.uuid) == Some(f)
  {
    hide Matching, Next, Previous;
    var ms := Matching(fs, language);
    assert f in ms;
    var m := |ms|;
    var i :| 0 <= i < m && ms[i] == f;
    StepFromPlace(fs, language, i);
    StepFromPlace(fs, language, Place(i, 1, m));
    StepFromPlace(fs, language, Place(i, m - 1, m));
  }

  /** From a listed factory of another language one step of either enters the cycle, at two neighbours:
      the next of the previous is the next. Without any factory of the language the step goes to an end
      of the list. */
  lemma {:induction false} EntersCycle(fs: seq<Factory>, language: string, f: Factory)
    requires DistinctUuids(fs) && f in fs && !Speaks(f, language)
    ensures var ms := Matching(fs, language);
            var next, previous := Next(fs, language, f.uuid), Previous(fs, language, f.uuid);
            && next.Some? && previous.Some?
            && (if ms == [] then next.value == fs[0] && previous.value == fs[|fs| - 1]
                else next.value in ms && previous.value in ms
                     && Next(fs, language, previous.value.uuid) == next)
  {
    hide Matching, Next, Previous;
    var ms := Matching(fs, language);
    var pos :| 0 <= pos < |fs| && fs[pos] == f;
    StepFrom(fs, language, pos);
    if ms != [] {
      var r := Rank(fs, language, pos);
      StepFromPlace(fs, language, if r > 0 then r - 1 else |ms| - 1);
    }
  }

  /** A factory that is not listed has no next and no previous. */
  lemma UnlistedHasNone(fs: seq<Factory>, language: string, uuid: string)
    ensures Next(fs, language, uuid).None? <==> forall f :: f in fs ==> f.uuid != uuid
    ensures Previous(fs, language, uuid).None? <==> forall f :: f in fs ==> f.uuid != uuid
  {
  }
}
