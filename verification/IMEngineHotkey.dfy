/** The hotkeys that select an IMEngine, and their configuration (src/scim_hotkey.cpp:155-314). */
module IMEngineHotkey {
  import opened Common
  import opened KeyEvents
  import opened ConfigBase
  import opened Hotkey
  import opened KeyString
  import opened StringList
  import Numbers
  import Strings

  const PREFIX: string := "/Hotkeys/IMEngine/"
  const LIST: string := Path(PREFIX, "List")

  /** The matcher as a value: each key has the index of its IMEngine's uuid. */
  datatype Matcher = Matcher(hotkeys: map<Key, int>, uuids: seq<string>)

  /** Every index is in range and no uuid is listed twice. */
  ghost predicate Inv(m: Matcher) {
    Distinct(m.uuids) && forall k :: k in m.hotkeys ==> 0 <= m.hotkeys[k] < |m.uuids|
  }

  /** What the matcher is for: the uuid of each key. */
  function Bindings(m: Matcher): map<Key, string>
    requires Inv(m)
  {
    map k | k in m.hotkeys :: m.uuids[m.hotkeys[k]]
  }

  // ----- loading -----

  function KeyList(t: Tables, cfg: map<string, string>, uuid: string): seq<Key> {
    StringToKeyList(t, Get(cfg, Path(PREFIX, uuid), ""))
  }

  function LoadOne(t: Tables, cfg: map<string, string>, uuid: string, m: Matcher): Matcher {
    var keys := KeyList(t, cfg, uuid);
    if keys == [] then m else Matcher(BindAll(m.hotkeys, keys, |m.uuids|), m.uuids + [uuid])
  }

  function LoadAll(t: Tables, cfg: map<string, string>, uuids: seq<string>): Matcher {
    if uuids == [] then Matcher(map[], [])
    else LoadOne(t, cfg, uuids[|uuids| - 1], LoadAll(t, cfg, uuids[..|uuids| - 1]))
  }

  function ListedUuids(cfg: map<string, string>): seq<string> {
    Strings.SortedUnique(Split(Get(cfg, LIST, ""), ','))
  }

  function Load(t: Tables, cfg: map<string, string>): Matcher {
    LoadAll(t, cfg, ListedUuids(cfg))
  }

  // ----- saving -----

  /** What is written for an IMEngine whose keys are found in the order `keys`; "" is not written. */
  function KeyText(t: Tables, keys: seq<Key>): string {
    if keys == [] then "" else KeyListToString(t, keys)
  }

  /** The uuids, among the first `n`, that are saved. */
  function Kept(t: Tables, uuids: seq<string>, orders: seq<seq<Key>>, n: nat): seq<string>
    requires n <= |uuids| == |orders|
  {
    if n == 0 then []
    else
      var before := Kept(t, uuids, orders, n - 1);
      if KeyText(t, orders[n - 1]) == "" then before else before + [uuids[n - 1]]
  }

  function SaveUpTo(t: Tables, uuids: seq<string>, orders: seq<seq<Key>>, cfg: map<string, string>, n: nat)
    : map<string, string>
    requires n <= |uuids| == |orders|
  {
    if n == 0 then cfg
    else
      var before, str := SaveUpTo(t, uuids, orders, cfg, n - 1), KeyText(t, orders[n - 1]);
      if str == "" then before else before[Path(PREFIX, uuids[n - 1]) := str]
  }

  function SaveAll(t: Tables, uuids: seq<string>, orders: seq<seq<Key>>, cfg: map<string, string>)
    : map<string, string>
    requires |uuids| == |orders|
  {
    SaveUpTo(t, uuids, orders, cfg, |uuids|)[LIST := Join(Kept(t, uuids, orders, |uuids|), ',')]
  }

  ghost predicate ListsKeys(orders: seq<seq<Key>>, m: Matcher) {
    |orders| == |m.uuids| && forall i :: 0 <= i < |orders| ==> Enumerates(orders[i], KeysOf(m.hotkeys, i))
  }

  /** `cfg'` is what saving the matcher into `cfg` may give. Without uuids nothing is saved. */
  ghost predicate Saved(t: Tables, m: Matcher, cfg: map<string, string>, cfg': map<string, string>) {
    if m.uuids == [] then cfg' == cfg
    else exists orders :: ListsKeys(orders, m) && cfg' == SaveAll(t, m.uuids, orders, cfg)
  }

  // ----- the matcher -----

  class IMEngineHotkeyMatcher {
    const matcher: HotkeyMatcher
    var uuids: seq<string>

    ghost function Model(): Matcher
      reads this, matcher
    {
      Matcher(matcher.hotkeys, uuids)
    }

    ghost predicate Valid()
      reads this, matcher
    {
      Inv(Model()) && (if matcher.matched then 0 <= matcher.result < |uuids| else matcher.result == -1)
    }

    constructor ()
      ensures Valid() && fresh(matcher) && Model() == Matcher(map[], [])
    {
      matcher := new HotkeyMatcher();
      uuids := [];
    }

    method Clear()
      modifies this, matcher
      ensures Valid() && Model() == Matcher(map[], []) && !matcher.matched
    {
      matcher.Clear();
      uuids := [];
    }

    method LoadHotkeys(t: Tables, config: Config?)
      requires WellFormed(t)
      modifies this, matcher
      ensures Valid() && !matcher.matched
      ensures Model() == if config == null || !config.valid then Matcher(map[], []) else Load(t, config.entries)
    {
      hide KeyString.WellFormed, LoadAll, StringToKeyList, Strings.SortedUnique;
      Clear();
      if config == null || !config.valid { return; }

      var str := config.Read(LIST, "");
      var listed, n := SplitStringList(str, ',');
      var all := Strings.SortedUnique(listed);
      Strings.SortedUniqueAscending(listed);
      LoadNothing(t, config.entries);
      for i := 0 to |all|
        invariant Valid() && !matcher.matched
        invariant Model() == LoadAll(t, config.entries, all[..i])
        invariant forall u :: u in uuids ==> u in all[..i]
      {
        LoadStep(t, config.entries, all, i);
        assert all[i] !in all[..i];
        var keystr := config.Read(PREFIX + all[i], "");
        var keys, ok := ParseKeyList(t, keystr);
        if ok {
          BindKeepsInv(Model(), keys, all[i]);
          matcher.AddHotkeys(keys, |uuids|);
          uuids := uuids + [all[i]];
        }
      }
      assert all[..|all|] == all;
    }

    /** One pass of the saving loop: write the keys of the `i`-th IMEngine, if there are any. */
    method SaveOne(t: Tables, config: Config, i: nat) returns (keys: seq<Key>, saved: bool)
      requires WellFormed(t) && i < |uuids|
      modifies config`entries
      ensures Enumerates(keys, KeysOf(matcher.hotkeys, i))
      ensures saved <==> KeyText(t, keys) != ""
      ensures config.entries == if saved then old(config.entries)[Path(PREFIX, uuids[i]) := KeyText(t, keys)]
                                else old(config.entries)
    {
      saved := false;
      keys := matcher.FindHotkeys(i);
      if |keys| > 0 {
        var keystr, ok := PrintKeyList(t, keys);
        if ok {
          config.Write(PREFIX + uuids[i], keystr);
          saved := true;
        }
      }
    }

    method SaveHotkeys(t: Tables, config: Config?)
      requires Valid() && WellFormed(t)
      modifies if config == null then {} else {config}
      ensures config != null && config.valid ==> Saved(t, Model(), old(config.entries), config.entries)
      ensures config != null && !config.valid ==> config.entries == old(config.entries)
      ensures config != null ==> config.valid == old(config.valid)
    {
      hide KeyString.WellFormed, SaveUpTo, Kept, KeysOf, KeyText, Inv, Enumerates, Join;
      if config == null || !config.valid || |uuids| == 0 { return; }

      var kept: seq<string> := [];
      ghost var orders: seq<seq<Key>> := seq(|uuids|, _ => []);
      SaveNothing(t, uuids, orders, config.entries);
      for i := 0 to |uuids|
        invariant |orders| == |uuids| && config.valid
        invariant forall j :: 0 <= j < i ==> Enumerates(orders[j], KeysOf(matcher.hotkeys, j))
        invariant config.entries == SaveUpTo(t, uuids, orders, old(config.entries), i)
        invariant kept == Kept(t, uuids, orders, i)
      {
        var keys, saved := SaveOne(t, config, i);
        SaveStep(t, uuids, orders, keys, old(config.entries), i);
        orders := orders[i := keys];
        if saved {
          kept := kept + [uuids[i]];
        }
      }
      var list := CombineStringList(kept, ',');
      config.Write(LIST, list);
      assert ListsKeys(orders, Model());
    }

    /** Find the IMEngine in the list, or put it behind the others. */
    method EnsureUuid(uuid: string) returns (i: nat)
      requires Valid()
      modifies this`uuids
      ensures Valid() && i < |uuids| && uuids[i] == uuid
      ensures uuids == if uuid in old(uuids) then old(uuids) else old(uuids) + [uuid]
    {
      i := 0;
      while i < |uuids| && uuids[i] != uuid
        invariant i <= |uuids| && uuid !in uuids[..i]
      {
        i := i + 1;
      }
      if i == |uuids| {
        assert uuids[..i] == uuids;
        DistinctExtend(uuids, uuid);
        uuids := uuids + [uuid];
      }
    }

    method AddHotkey(key: Key, uuid: string)
      requires Valid()
      modifies this`uuids, matcher`hotkeys
      ensures Valid()
      ensures if key.IsEmpty() || uuid == [] then Model() == old(Model())
              else Bindings(Model()) == Bindings(old(Model()))[key := uuid]
    {
      if key.IsEmpty() || |uuid| == 0 { return; }
      var i := EnsureUuid(uuid);
      matcher.AddHotkey(key, i);
    }

    method AddHotkeys(keys: seq<Key>, uuid: string)
      requires Valid()
      modifies this`uuids, matcher`hotkeys
      ensures Valid()
      ensures if keys == [] || uuid == [] then Model() == old(Model())
              else forall k :: Lookup(Bindings(Model()), k) ==
                               if k in keys && !k.IsEmpty() then Some(uuid) else Lookup(Bindings(old(Model())), k)
    {
      if |keys| == 0 || |uuid| == 0 { return; }
      var i := EnsureUuid(uuid);
      matcher.AddHotkeys(keys, i);
      BoundTo(old(Model()), Model(), keys, uuid, i);
    }

    /** All keys with the uuids they select: each index is in range. */
    method GetAllHotkeys() returns (keys: seq<Key>, selected: seq<string>)
      requires Valid()
      ensures Enumerates(keys, Bindings(Model()).Keys)
      ensures |selected| == |keys| && forall i :: 0 <= i < |keys| ==> selected[i] == Bindings(Model())[keys[i]]
    {
      selected := [];
      var ids;
      keys, ids := matcher.GetAllHotkeys();
      assert forall i :: 0 <= i < |keys| ==> keys[i] in matcher.hotkeys;
      for i := 0 to |ids|
        invariant |selected| == i
        invariant forall j :: 0 <= j < i ==> selected[j] == uuids[ids[j]]
      {
        selected := selected + [uuids[ids[i]]];
      }
    }

    method PushKeyEvent(key: Key)
      requires Valid()
      modifies matcher`prevCode, matcher`matched, matcher`result
      ensures Valid() && matcher.prevCode == key.code
      ensures matcher.matched <==> key in matcher.hotkeys && (15 in key.mask ==> old(matcher.prevCode) == key.code)
      ensures matcher.matched ==> uuids[matcher.result] == Bindings(Model())[key]
    {
      matcher.PushKeyEvent(key);
    }

    method GetMatchResult() returns (uuid: string)
      requires Valid()
      ensures uuid == if matcher.matched then uuids[matcher.result] else ""
    {
      var id := matcher.result;
      if id >= 0 && id < |uuids| { return uuids[id]; }
      uuid := "";
    }
  }

  lemma LoadNothing(t: Tables, cfg: map<string, string>)
    ensures LoadAll(t, cfg, []) == Matcher(map[], [])
  {
  }

  lemma LoadStep(t: Tables, cfg: map<string, string>, uuids: seq<string>, i: nat)
    requires i < |uuids|
    ensures LoadAll(t, cfg, uuids[..i + 1]) == LoadOne(t, cfg, uuids[i], LoadAll(t, cfg, uuids[..i]))
  {
    assert uuids[..i + 1][..i] == uuids[..i];
  }

  lemma {:induction false} BindKeepsInv(m: Matcher, keys: seq<Key>, uuid: string)
    requires Inv(m) && uuid !in m.uuids
    ensures Inv(Matcher(BindAll(m.hotkeys, keys, |m.uuids|), m.uuids + [uuid]))
  {
    DistinctExtend(m.uuids, uuid);
    forall k | k in BindAll(m.hotkeys, keys, |m.uuids|)
      ensures 0 <= BindAll(m.hotkeys, keys, |m.uuids|)[k] <= |m.uuids|
    {
      BindAllAt(m.hotkeys, keys, |m.uuids|, k);
    }
  }

  /** The keys of a list bound to one uuid's index. */
  lemma {:induction false} BoundTo(m: Matcher, m': Matcher, keys: seq<Key>, uuid: string, i: nat)
    requires Inv(m) && Distinct(m'.uuids) && m.uuids <= m'.uuids && i < |m'.uuids| && m'.uuids[i] == uuid
    requires m'.hotkeys == BindAll(m.hotkeys, keys, i)
    ensures Inv(m')
    ensures forall k :: Lookup(Bindings(m'), k) ==
                        if k in keys && !k.IsEmpty() then Some(uuid) else Lookup(Bindings(m), k)
  {
    hide BindAll;
    forall k ensures Lookup(m'.hotkeys, k) ==
                     if k in keys && !k.IsEmpty() then Some(i as int) else Lookup(m.hotkeys, k) {
      BindAllAt(m.hotkeys, keys, i, k);
    }
    forall k | k in m'.hotkeys ensures 0 <= m'.hotkeys[k] < |m'.uuids| {
      assert Lookup(m'.hotkeys, k) == Some(m'.hotkeys[k]);
    }
    forall k ensures Lookup(Bindings(m'), k) ==
                     if k in keys && !k.IsEmpty() then Some(uuid) else Lookup(Bindings(m), k) {
      assert k in m'.hotkeys ==> Lookup(m'.hotkeys, k) == Some(m'.hotkeys[k]);
      assert k in m.hotkeys ==> Lookup(m.hotkeys, k) == Some(m.hotkeys[k]);
    }
  }

  lemma SaveNothing(t: Tables, uuids: seq<string>, orders: seq<seq<Key>>, cfg: map<string, string>)
    requires |uuids| == |orders|
    ensures SaveUpTo(t, uuids, orders, cfg, 0) == cfg && Kept(t, uuids, orders, 0) == []
  {
  }

  lemma {:induction false} SaveDependsOn(t: Tables, uuids: seq<string>, a: seq<seq<Key>>, b: seq<seq<Key>>,
                                         cfg: map<string, string>, n: nat)
    requires n <= |uuids| == |a| == |b| && forall i :: 0 <= i < n ==> a[i] == b[i]
    ensures SaveUpTo(t, uuids, a, cfg, n) == SaveUpTo(t, uuids, b, cfg, n)
    ensures Kept(t, uuids, a, n) == Kept(t, uuids, b, n)
  {
    hide KeyText;
    if n == 0 {
    } else {
      SaveDependsOn(t, uuids, a, b, cfg, n - 1);
    }
  }

  /** The `i`-th pass of the saving loop, which fixes the order in which the keys are listed. */
  lemma {:induction false} SaveStep(t: Tables, uuids: seq<string>, orders: seq<seq<Key>>, keys: seq<Key>,
      cfg: map<string, string>, i: nat)
    requires i < |uuids| == |orders|
    ensures var saved, str := SaveUpTo(t, uuids, orders, cfg, i), KeyText(t, keys);
            SaveUpTo(t, uuids, orders[i := keys], cfg, i + 1) ==
            if str == "" then saved else saved[Path(PREFIX, uuids[i]) := str]
    ensures var kept, str := Kept(t, uuids, orders, i), KeyText(t, keys);
            Kept(t, uuids, orders[i := keys], i + 1) == if str == "" then kept else kept + [uuids[i]]
  {
    SaveDependsOn(t, uuids, orders[i := keys], orders, cfg, i);
  }

  // ----- what loading gives -----

  /** The last of the uuids whose list has the key. */
  function LastWith(t: Tables, cfg: map<string, string>, uuids: seq<string>, key: Key): Option<string> {
    if uuids == [] then None
    else if key in KeyList(t, cfg, uuids[|uuids| - 1]) then Some(uuids[|uuids| - 1])
    else LastWith(t, cfg, uuids[..|uuids| - 1], key)
  }

  lemma ListedKeys(t: Tables, cfg: map<string, string>, uuid: string)
    ensures forall k :: k in KeyList(t, cfg, uuid) ==> k.code != 0 && Restrict(t, k) == k
  {
    ParsedKeysAreNamed(t, Split(Get(cfg, Path(PREFIX, uuid), ""), ','));
  }

  lemma {:induction false} Loaded(t: Tables, cfg: map<string, string>, uuids: seq<string>, key: Key)
    requires Distinct(uuids)
    ensures var m := LoadAll(t, cfg, uuids);
            && Inv(m) && (forall u :: u in m.uuids ==> u in uuids)
            && Lookup(Bindings(m), key) == LastWith(t, cfg, uuids, key)
  {
    if uuids == [] {
    } else {
      var front, last := uuids[..|uuids| - 1], uuids[|uuids| - 1];
      Loaded(t, cfg, front, key);
      LoadedOne(t, cfg, last, LoadAll(t, cfg, front), key);
    }
  }

  lemma LoadedOne(t: Tables, cfg: map<string, string>, uuid: string, m: Matcher, key: Key)
    requires Inv(m) && uuid !in m.uuids
    ensures var m' := LoadOne(t, cfg, uuid, m);
            && Inv(m') && (forall u :: u in m'.uuids ==> u == uuid || u in m.uuids)
            && Lookup(Bindings(m'), key) ==
               if key in KeyList(t, cfg, uuid) then Some(uuid) else Lookup(Bindings(m), key)
  {
    hide StringToKeyList;
    var keys := KeyList(t, cfg, uuid);
    BindKeepsInv(m, keys, uuid);
    ListedKeys(t, cfg, uuid);
    BindAllAt(m.hotkeys, keys, |m.uuids|, key);
  }

  lemma {:induction false} LastWithHas(t: Tables, cfg: map<string, string>, uuids: seq<string>, key: Key)
    ensures var last := LastWith(t, cfg, uuids, key);
            match last
            case Some(u) => u in uuids && key in KeyList(t, cfg, u)
            case None => forall u :: u in uuids ==> key !in KeyList(t, cfg, u)
  {
    hide KeyList;
    if uuids == [] {
    } else {
      assert uuids == uuids[..|uuids| - 1] + [uuids[|uuids| - 1]];
      LastWithHas(t, cfg, uuids[..|uuids| - 1], key);
    }
  }

  // ----- what saving wrote -----

  ghost predicate GoodUuids(uuids: seq<string>) {
    forall u :: u in uuids ==> u != [] && ',' !in u && u != "List"
  }

  lemma {:induction false} KeptAre(t: Tables, uuids: seq<string>, orders: seq<seq<Key>>, n: nat, u: string)
    requires n <= |uuids| == |orders|
    ensures u in Kept(t, uuids, orders, n) <==>
            exists i :: 0 <= i < n && uuids[i] == u && KeyText(t, orders[i]) != ""
  {
    hide KeyText;
    if n == 0 {
    } else {
      KeptAre(t, uuids, orders, n - 1, u);
    }
  }

  lemma {:induction false} SavedAt(t: Tables, uuids: seq<string>, orders: seq<seq<Key>>, cfg: map<string,
      string>, n: nat, i: nat)
    requires n <= |uuids| == |orders| && i < n && Distinct(uuids)
    requires KeyText(t, orders[i]) != ""
    ensures Lookup(SaveUpTo(t, uuids, orders, cfg, n), Path(PREFIX, uuids[i])) == Some(KeyText(t, orders[i]))
  {
    hide KeyText, Path;
    if i == n - 1 {
    } else {
      SavedAt(t, uuids, orders, cfg, n - 1, i);
      PathsDiffer(PREFIX, uuids[i], uuids[n - 1]);
    }
  }

  /** The uuids are saved in the order the matcher has them. `at` tells their places. */
  lemma {:induction false} KeptInOrder(t: Tables, uuids: seq<string>, orders: seq<seq<Key>>, n: nat)
    returns (at: seq<nat>)
    requires n <= |uuids| == |orders|
    ensures |at| == |Kept(t, uuids, orders, n)|
    ensures forall k :: 0 <= k < |at| ==> at[k] < n && Kept(t, uuids, orders, n)[k] == uuids[at[k]]
    ensures forall j, k :: 0 <= j < k < |at| ==> at[j] < at[k]
  {
    hide KeyText;
    if n == 0 {
      at := [];
    } else {
      at := KeptInOrder(t, uuids, orders, n - 1);
      if KeyText(t, orders[n - 1]) != "" {
        at := at + [n - 1];
      }
    }
  }

  /** The configuration lists the kept uuids, and for each the keys that survive. */
  lemma {:induction false} SavedConfig(t: Tables, m: Matcher, orders: seq<seq<Key>>, cfg: map<string, string>)
    requires WellFormed(t) && Inv(m) && GoodUuids(m.uuids) && ListsKeys(orders, m)
    ensures var cfg' := SaveAll(t, m.uuids, orders, cfg);
            && (forall u :: u in ListedUuids(cfg') <==> u in Kept(t, m.uuids, orders, |m.uuids|))
            && forall i :: 0 <= i < |m.uuids| && KeyText(t, orders[i]) != "" ==>
                 KeyList(t, cfg', m.uuids[i]) == Surviving(t, orders[i])
  {
    hide SaveUpTo, KeysOf, StringToKeyList, Surviving, Kept, KeyListToString, Strings.SortedUnique, Split, Join;
    var n, cfg' := |m.uuids|, SaveAll(t, m.uuids, orders, cfg);
    var kept := Kept(t, m.uuids, orders, n);
    forall u | u in kept ensures u != [] && ',' !in u {
      KeptAre(t, m.uuids, orders, n, u);
      var i :| 0 <= i < n && m.uuids[i] == u && KeyText(t, orders[i]) != "";
      assert m.uuids[i] in m.uuids;
    }
    assert kept != [] ==> kept[|kept| - 1] in kept;
    RoundTrip(kept, ',');
    assert Split(Get(cfg', LIST, ""), ',') == kept;
    forall i | 0 <= i < n && KeyText(t, orders[i]) != ""
      ensures KeyList(t, cfg', m.uuids[i]) == Surviving(t, orders[i])
    {
      SavedAt(t, m.uuids, orders, cfg, n, i);
      PathsDiffer(PREFIX, m.uuids[i], "List");
      assert m.uuids[i] in m.uuids;
      KeyListRoundTrip(t, orders[i]);
    }
  }

  // ----- the round trip -----

  /** Which keys an IMEngine's list holds after saving. */
  lemma SavedKeys(t: Tables, m: Matcher, orders: seq<seq<Key>>, cfg: map<string, string>, i: nat)
    requires WellFormed(t) && Inv(m) && GoodUuids(m.uuids) && ListsKeys(orders, m) && i < |m.uuids|
    requires forall k :: k in m.hotkeys ==> KeySurvives(t, k)
    ensures var cfg' := SaveAll(t, m.uuids, orders, cfg);
            && (m.uuids[i] in ListedUuids(cfg') <==> KeysOf(m.hotkeys, i) != {})
            && (m.uuids[i] in ListedUuids(cfg') ==>
                forall k :: k in KeyList(t, cfg', m.uuids[i]) <==> k in KeysOf(m.hotkeys, i))
  {
    hide KeyList, SaveAll, ListedUuids, KeyString.WellFormed, KeyListToString;
    SavedConfig(t, m, orders, cfg);
    var order := orders[i];
    assert forall k :: k in order <==> k in KeysOf(m.hotkeys, i);
    if order != [] {
      assert order[|order| - 1] in KeysOf(m.hotkeys, i);
      PrintedListNotEmpty(t, order);
      SurvivingNamed(t, order);
    }
    KeptAre(t, m.uuids, orders, |m.uuids|, m.uuids[i]);
  }

  /** Saving a matcher and loading the result into a fresh one gives the same uuid for each key, though
      the uuids are numbered anew and those without keys are gone, exactly when every bound key is
      printed and parsed as itself. A matcher without uuids is not written at all, so for it the old
      configuration must list no keys. */
  lemma {:induction false} SaveLoad(t: Tables, m: Matcher, cfg: map<string, string>, cfg': map<string, string>)
    requires WellFormed(t) && Inv(m) && GoodUuids(m.uuids)
    requires Saved(t, m, cfg, cfg')
    ensures Inv(Load(t, cfg'))
    ensures Bindings(Load(t, cfg')) == Bindings(m) <==>
            if m.uuids == [] then forall u :: u in ListedUuids(cfg) ==> KeyList(t, cfg, u) == []
            else forall k :: k in m.hotkeys ==> KeySurvives(t, k)
  {
    hide SaveAll, KeyString.WellFormed, LastWith, ListedUuids, KeyList, LoadAll;
    LoadedBindings(t, cfg');
    if m.uuids == [] {
      NoBindings(t, cfg);
    } else {
      var orders :| ListsKeys(orders, m) && cfg' == SaveAll(t, m.uuids, orders, cfg);
      SaveLoadWith(t, m, orders, cfg);
    }
  }

  lemma {:induction false} LoadedBindings(t: Tables, cfg: map<string, string>)
    ensures var m := Load(t, cfg);
            Inv(m) && forall k :: Lookup(Bindings(m), k) == LastWith(t, cfg, ListedUuids(cfg), k)
  {
    hide SaveAll, LastWith, KeyList, LoadAll;
    Strings.SortedUniqueAscending(Split(Get(cfg, LIST, ""), ','));
    Loaded(t, cfg, ListedUuids(cfg), Key(0, {}));
    forall k ensures Lookup(Bindings(Load(t, cfg)), k) == LastWith(t, cfg, ListedUuids(cfg), k) {
      Loaded(t, cfg, ListedUuids(cfg), k);
    }
  }

  /** Nothing is loaded exactly when no listed uuid has a key. */
  lemma {:induction false} NoBindings(t: Tables, cfg: map<string, string>)
    ensures Inv(Load(t, cfg))
    ensures Bindings(Load(t, cfg)) == map[] <==> forall u :: u in ListedUuids(cfg) ==> KeyList(t, cfg, u) == []
  {
    hide LastWith, ListedUuids, KeyList, LoadAll;
    LoadedBindings(t, cfg);
    var bound := Bindings(Load(t, cfg));
    if u :| u in ListedUuids(cfg) && KeyList(t, cfg, u) != [] {
      var k := KeyList(t, cfg, u)[0];
      LastWithHas(t, cfg, ListedUuids(cfg), k);
      assert Lookup(bound, k).Some?;
    } else {
      forall k ensures Lookup(bound, k) == None {
        LastWithHas(t, cfg, ListedUuids(cfg), k);
      }
      SameLookups(bound, map[]);
    }
  }

  lemma {:induction false} SaveLoadWith(t: Tables, m: Matcher, orders: seq<seq<Key>>, cfg: map<string, string>)
    requires WellFormed(t) && Inv(m) && GoodUuids(m.uuids) && ListsKeys(orders, m)
    ensures var cfg' := SaveAll(t, m.uuids, orders, cfg);
            Inv(Load(t, cfg')) &&
            (Bindings(Load(t, cfg')) == Bindings(m) <==> forall k :: k in m.hotkeys ==> KeySurvives(t, k))
  {
    hide SaveAll, KeyString.WellFormed, LastWith, ListedUuids, KeyList, LoadAll;
    var cfg' := SaveAll(t, m.uuids, orders, cfg);
    LoadedBindings(t, cfg');
    var m' := Load(t, cfg');
    if Bindings(m') == Bindings(m) {
      forall k | k in m.hotkeys ensures KeySurvives(t, k) {
        assert Lookup(Bindings(m'), k).Some?;
        LoadedSurvives(t, m, orders, cfg, k);
      }
    }
    if forall k :: k in m.hotkeys ==> KeySurvives(t, k) {
      forall k ensures Lookup(Bindings(m'), k) == Lookup(Bindings(m), k) {
        SameBinding(t, m, orders, cfg, k);
      }
      SameLookups(Bindings(m'), Bindings(m));
    }
  }

  /** Exactly the listed uuids that have a key get an index. */
  lemma {:induction false} LoadedUuids(t: Tables, cfg: map<string, string>, uuids: seq<string>)
    ensures forall u :: u in LoadAll(t, cfg, uuids).uuids <==> u in uuids && KeyList(t, cfg, u) != []
  {
    hide KeyList;
    if uuids == [] {
    } else {
      var front, last := uuids[..|uuids| - 1], uuids[|uuids| - 1];
      assert uuids == front + [last];
      LoadedUuids(t, cfg, front);
    }
  }

  /** A key listed for several uuids selects the largest of them. */
  lemma {:induction false} LargestWins(t: Tables, cfg: map<string, string>, key: Key, uuid: string)
    requires uuid in Split(Get(cfg, "/Hotkeys/IMEngine/List", ""), ',')
    requires key in StringToKeyList(t, Get(cfg, "/Hotkeys/IMEngine/" + uuid, ""))
    requires forall u :: u in Split(Get(cfg, "/Hotkeys/IMEngine/List", ""), ',') &&
                         key in StringToKeyList(t, Get(cfg, "/Hotkeys/IMEngine/" + u, "")) ==>
                         u == uuid || Strings.StrLess(u, uuid)
    ensures Inv(Load(t, cfg)) && Lookup(Bindings(Load(t, cfg)), key) == Some(uuid)
  {
    hide LoadAll, StringToKeyList, Split, Strings.SortedUnique, Strings.StrLess;
    assert LIST == "/Hotkeys/IMEngine/List";
    var listed := ListedUuids(cfg);
    LoadedBindings(t, cfg);
    Strings.SortedUniqueAscending(Split(Get(cfg, LIST, ""), ','));
    LastIsLargest(t, cfg, listed, key);
    LastWithHas(t, cfg, listed, key);
    assert uuid in listed && key in KeyList(t, cfg, uuid);
    var last := LastWith(t, cfg, listed, key).value;
    assert last in listed && key in KeyList(t, cfg, last);
    NotBothLess(uuid, last);
  }

  lemma {:induction false} NotBothLess(a: string, b: string)
    ensures !(Strings.StrLess(a, b) && Strings.StrLess(b, a))
  {
    if Strings.StrLess(a, b) && Strings.StrLess(b, a) {
      Strings.Transitive(a, b, a);
      Strings.Irreflexive(a);
    }
  }

  lemma {:induction false} LastIsLargest(t: Tables, cfg: map<string, string>, uuids: seq<string>, key: Key)
    requires Strings.Ascending(uuids)
    ensures forall u :: u in uuids && key in KeyList(t, cfg, u) ==>
              LastWith(t, cfg, uuids, key).Some? &&
              (u == LastWith(t, cfg, uuids, key).value || Strings.StrLess(u, LastWith(t, cfg, uuids, key).value))
  {
    hide KeyList, Strings.StrLess;
    if uuids == [] {
    } else {
      var front, last := uuids[..|uuids| - 1], uuids[|uuids| - 1];
      assert uuids == front + [last];
      LastIsLargest(t, cfg, front, key);
    }
  }

  /** Saving an emptied matcher removes nothing: the hotkeys saved before come back. */
  lemma {:induction false} EmptiedComesBack(t: Tables, m: Matcher, cfg: map<string, string>,
      saved: map<string, string>, savedAgain: map<string, string>)
    requires WellFormed(t) && Inv(m) && GoodUuids(m.uuids) && m.uuids != []
    requires forall k :: k in m.hotkeys ==> KeySurvives(t, k)
    requires Saved(t, m, cfg, saved) && Saved(t, Matcher(map[], []), saved, savedAgain)
    ensures Inv(Load(t, savedAgain)) && Bindings(Load(t, savedAgain)) == Bindings(m)
  {
    SaveLoad(t, m, cfg, saved);
  }

  /** With "a" listed for the uuid "u", an emptied matcher that is saved is loaded with "a" for "u". */
  lemma {:induction false} EmptiedSample(t: Tables, cfg: map<string, string>)
    requires WellFormed(t) && cfg == map[LIST := "u", Path(PREFIX, "u") := "0x0061"]
    ensures Saved(t, Matcher(map[], []), cfg, cfg)
    ensures Inv(Load(t, cfg)) && Lookup(Bindings(Load(t, cfg)), Key(0x61, {})) == Some("u")
  {
    hide KeyString.WellFormed, LastWith, LoadAll, StringToKeyList, Numbers.Hex, Strings.SortedUnique, Split, Path;
    PathsDiffer(PREFIX, "u", "List");
    Numbers.HexSamples();
    HexKeyList(t, 0x61, 4);
    assert "0x" + "0061" == "0x0061";
    RoundTrip(["u"], ',');
    assert Join(["u"], ',') == "u";
    assert Split(Get(cfg, LIST, ""), ',') == ["u"];
    Strings.SortedUniqueAscending(["u"]);
    LoadedBindings(t, cfg);
    LastWithHas(t, cfg, ListedUuids(cfg), Key(0x61, {}));
    assert "u" in ListedUuids(cfg) && KeyList(t, cfg, "u") == [Key(0x61, {})];
  }

  /** A key loaded from a saved configuration survives printing and parsing. */
  lemma {:induction false} LoadedSurvives(t: Tables, m: Matcher, orders: seq<seq<Key>>, cfg: map<string,
      string>, key: Key)
    requires WellFormed(t) && Inv(m) && GoodUuids(m.uuids) && ListsKeys(orders, m)
    requires var cfg' := SaveAll(t, m.uuids, orders, cfg); LastWith(t, cfg', ListedUuids(cfg'), key).Some?
    ensures KeySurvives(t, key)
  {
    hide SaveAll, KeyString.WellFormed, LastWith, ListedUuids, Surviving;
    var cfg' := SaveAll(t, m.uuids, orders, cfg);
    LastWithHas(t, cfg', ListedUuids(cfg'), key);
    var u := LastWith(t, cfg', ListedUuids(cfg'), key).value;
    SavedConfig(t, m, orders, cfg);
    KeptAre(t, m.uuids, orders, |m.uuids|, u);
    var i :| 0 <= i < |m.uuids| && m.uuids[i] == u && KeyText(t, orders[i]) != "";
    ListedKeys(t, cfg', u);
    SurvivingAre(t, orders[i]);
  }

  lemma SameBinding(t: Tables, m: Matcher, orders: seq<seq<Key>>, cfg: map<string, string>, key: Key)
    requires WellFormed(t) && Inv(m) && GoodUuids(m.uuids) && ListsKeys(orders, m)
    requires forall k :: k in m.hotkeys ==> KeySurvives(t, k)
    ensures var cfg' := SaveAll(t, m.uuids, orders, cfg);
            LastWith(t, cfg', ListedUuids(cfg'), key) == Lookup(Bindings(m), key)
  {
    hide SaveAll, KeyString.WellFormed, LastWith, ListedUuids, KeyList;
    var cfg' := SaveAll(t, m.uuids, orders, cfg);
    var listed := ListedUuids(cfg');
    LastWithHas(t, cfg', listed, key);
    var last := LastWith(t, cfg', listed, key);
    if last.Some? {
      SavedConfig(t, m, orders, cfg);
      KeptAre(t, m.uuids, orders, |m.uuids|, last.value);
      var i :| 0 <= i < |m.uuids| && m.uuids[i] == last.value && KeyText(t, orders[i]) != "";
      SavedKeys(t, m, orders, cfg, i);
    } else if key in m.hotkeys {
      assert key in KeysOf(m.hotkeys, m.hotkeys[key]);
      SavedKeys(t, m, orders, cfg, m.hotkeys[key]);
      assert false;
    }
  }
}
