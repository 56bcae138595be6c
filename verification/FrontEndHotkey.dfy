/** The hotkeys of the FrontEnd and their configuration (src/scim_hotkey.cpp:316-458). */
module FrontEndHotkey {
  import opened Common
  import opened KeyEvents
  import opened ConfigBase
  import opened Hotkey
  import opened KeyString
  import Numbers

  const TRIGGER: int := 1
  const SHOW_FACTORY_MENU: int := 6

  type Action = i: int | 1 <= i <= 6 witness 1

  type Six = s: seq<string> | |s| == 6 witness ["", "", "", "", "", ""]

  /** The key tables, and for each action the entry that lists its keys and the keys listed by default. */
  datatype Settings = Settings(tables: Tables, paths: Six, defaults: Six)

  ghost predicate Good(s: Settings) {
    KeyString.WellFormed(s.tables) && Distinct(s.paths)
  }

  function Path(s: Settings, i: Action): string { s.paths[i - 1] }

  lemma PathsDiffer(s: Settings, i: Action, j: Action)
    requires Distinct(s.paths) && i != j
    ensures Path(s, i) != Path(s, j)
  {
  }

  const PATHS: Six := [
    "/Hotkeys/FrontEnd/Trigger", "/Hotkeys/FrontEnd/On", "/Hotkeys/FrontEnd/Off",
    "/Hotkeys/FrontEnd/NextFactory", "/Hotkeys/FrontEnd/PreviousFactory", "/Hotkeys/FrontEnd/ShowFactoryMenu"]

  const NEXT_DEFAULT: string :=
    "Control+Alt+Down" + "," + "Control+Shift+Shift_L+KeyRelease" + "," + "Control+Shift+Shift_R+KeyRelease"
  const PREVIOUS_DEFAULT: string :=
    "Control+Alt+Up" + "," + "Control+Shift+Control_L+KeyRelease" + "," + "Control+Shift+Control_R+KeyRelease"
  const DEFAULTS: Six := ["Control+space", "", "", NEXT_DEFAULT, PREVIOUS_DEFAULT, "Control+Alt+Right"]

  /** The entries of the source are six different ones. */
  lemma SourceSettingsAreGood(t: Tables)
    requires KeyString.WellFormed(t)
    ensures Good(Settings(t, PATHS, DEFAULTS))
  {
    assert PATHS[0][18] == 'T' && PATHS[3][18] == 'N' && PATHS[4][18] == 'P' && PATHS[5][18] == 'S';
    assert PATHS[1][18] == 'O' && PATHS[2][18] == 'O' && |PATHS[1]| != |PATHS[2]|;
  }

  /** The keys the configuration lists for an action, or the default ones. */
  function KeyList(s: Settings, cfg: map<string, string>, i: Action): seq<Key> {
    StringToKeyList(s.tables, Get(cfg, Path(s, i), s.defaults[i - 1]))
  }

  /** Loading the actions from the last down to the `i`-th. */
  function LoadFrom(s: Settings, cfg: map<string, string>, i: int): map<Key, int>
    requires 1 <= i <= 7
    decreases 7 - i
  {
    if i == 7 then map[] else BindAll(LoadFrom(s, cfg, i + 1), KeyList(s, cfg, i), i)
  }

  function Load(s: Settings, cfg: map<string, string>): map<Key, int> {
    LoadFrom(s, cfg, 1)
  }

  /** Saving the actions from the first up to the `n`-th, each with its keys in the order found. */
  function SaveUpTo(s: Settings, orders: seq<seq<Key>>, cfg: map<string, string>, n: int): map<string, string>
    requires 0 <= n <= 6 && |orders| == 6
  {
    if n == 0 then cfg
    else
      var before, str := SaveUpTo(s, orders, cfg, n - 1), KeyListToString(s.tables, orders[n - 1]);
      if orders[n - 1] != [] && str != [] then before[Path(s, n) := str] else before
  }

  ghost predicate ListsKeys(orders: seq<seq<Key>>, hotkeys: map<Key, int>) {
    |orders| == 6 && forall i: Action :: Enumerates(orders[i - 1], KeysOf(hotkeys, i))
  }

  /** `cfg'` is what saving the hotkeys into `cfg` may give. */
  ghost predicate Saved(s: Settings, hotkeys: map<Key, int>, cfg: map<string, string>, cfg': map<string, string>) {
    exists orders :: ListsKeys(orders, hotkeys) && cfg' == SaveUpTo(s, orders, cfg, 6)
  }

  class FrontEndHotkeyMatcher {
    const matcher: HotkeyMatcher

    constructor ()
      ensures fresh(matcher) && matcher.hotkeys == map[]
    {
      matcher := new HotkeyMatcher();
    }

    method LoadHotkeys(s: Settings, config: Config?)
      requires Good(s)
      modifies matcher
      ensures matcher.hotkeys == if config == null || !config.valid then map[] else Load(s, config.entries)
      ensures !matcher.matched && matcher.prevCode == 0
    {
      hide LoadFrom, KeyString.WellFormed, StringToKeyList;
      matcher.Clear();
      if config == null || !config.valid { return; }

      LoadStep(s, config.entries, SHOW_FACTORY_MENU);
      var i := SHOW_FACTORY_MENU;
      while i >= TRIGGER
        invariant 0 <= i <= 6
        invariant matcher.hotkeys == LoadFrom(s, config.entries, i + 1)
        invariant !matcher.matched && matcher.prevCode == 0
      {
        var str := config.Read(s.paths[i - 1], s.defaults[i - 1]);
        var keys, ok := ParseKeyList(s.tables, str);
        LoadStep(s, config.entries, i);
        if ok {
          matcher.AddHotkeys(keys, i);
        }
        i := i - 1;
      }
    }

    method SaveHotkeys(s: Settings, config: Config?)
      requires Good(s)
      modifies if config == null then {} else {config}
      ensures config != null && config.valid ==> Saved(s, matcher.hotkeys, old(config.entries), config.entries)
      ensures config != null && !config.valid ==> config.entries == old(config.entries)
      ensures config != null ==> config.valid == old(config.valid)
    {
      hide SaveUpTo, KeyString.WellFormed, KeyListToString, KeysOf, Enumerates;
      if config == null || !config.valid { return; }

      ghost var orders: seq<seq<Key>> := seq(6, _ => []);
      SaveNothing(s, orders, config.entries);
      var i := TRIGGER;
      while i <= SHOW_FACTORY_MENU
        invariant 1 <= i <= 7 && |orders| == 6 && config.valid
        invariant forall j: Action :: j < i ==> Enumerates(orders[j - 1], KeysOf(matcher.hotkeys, j))
        invariant config.entries == SaveUpTo(s, orders, old(config.entries), i - 1)
      {
        var keys := matcher.FindHotkeys(i);
        SaveStep(s, orders, keys, old(config.entries), i);
        orders := orders[i - 1 := keys];
        if |keys| > 0 {
          var str, ok := PrintKeyList(s.tables, keys);
          if ok {
            config.Write(s.paths[i - 1], str);
          }
        }
        i := i + 1;
      }
      assert ListsKeys(orders, matcher.hotkeys);
    }

    method AddHotkey(key: Key, action: int)
      modifies matcher
      ensures matcher.hotkeys ==
              if 1 <= action <= 6 then Bind(old(matcher.hotkeys), key, action) else old(matcher.hotkeys)
    {
      if key.IsEmpty() || action < TRIGGER || action > SHOW_FACTORY_MENU { return; }
      matcher.AddHotkey(key, action);
    }
  }

  lemma LoadStep(s: Settings, cfg: map<string, string>, i: Action)
    ensures LoadFrom(s, cfg, 7) == map[]
    ensures LoadFrom(s, cfg, i) ==
            BindAll(LoadFrom(s, cfg, i + 1), StringToKeyList(s.tables, Get(cfg, s.paths[i - 1], s.defaults[i - 1])), i)
    ensures BindAll(LoadFrom(s, cfg, i + 1), [], i) == LoadFrom(s, cfg, i + 1)
  {
  }

  lemma SaveNothing(s: Settings, orders: seq<seq<Key>>, cfg: map<string, string>)
    requires |orders| == 6
    ensures SaveUpTo(s, orders, cfg, 0) == cfg
  {
  }

  /** The `i`-th pass of the saving loop, which fixes the order in which the keys are listed. */
  lemma SaveStep(s: Settings, orders: seq<seq<Key>>, keys: seq<Key>, cfg: map<string, string>, i: Action)
    requires |orders| == 6
    ensures SaveUpTo(s, orders[i - 1 := keys], cfg, i) ==
            var before, str := SaveUpTo(s, orders, cfg, i - 1), KeyListToString(s.tables, keys);
            if keys != [] && str != [] then before[s.paths[i - 1] := str] else before
  {
    hide KeyListToString;
    SaveDependsOn(s, orders[i - 1 := keys], orders, cfg, i - 1);
  }

  lemma {:induction false} SaveDependsOn(s: Settings, a: seq<seq<Key>>, b: seq<seq<Key>>, cfg: map<string,
      string>, n: int)
    requires 0 <= n <= 6 && |a| == |b| == 6 && forall i :: 0 <= i < n ==> a[i] == b[i]
    ensures SaveUpTo(s, a, cfg, n) == SaveUpTo(s, b, cfg, n)
  {
    hide KeyListToString;
    if n == 0 {
    } else {
      SaveDependsOn(s, a, b, cfg, n - 1);
    }
  }

  // ----- which action a key gets -----

  /** The first action, from the `i`-th on, whose list has the key. */
  function FirstAction(s: Settings, cfg: map<string, string>, key: Key, i: int): Option<int>
    requires 1 <= i <= 7
    decreases 7 - i
  {
    if i == 7 then None
    else if key in KeyList(s, cfg, i) then Some(i)
    else FirstAction(s, cfg, key, i + 1)
  }

  lemma {:induction false} ListedKeys(s: Settings, cfg: map<string, string>, i: Action)
    ensures forall k :: k in KeyList(s, cfg, i) ==> k.code != 0 && Restrict(s.tables, k) == k
  {
    ParsedKeysAreNamed(s.tables, StringList.Split(Get(cfg, Path(s, i), s.defaults[i - 1]), ','));
  }

  /** Loading gives each key the smallest action whose list has it. */
  lemma {:induction false} LoadedAction(s: Settings, cfg: map<string, string>, key: Key, i: int)
    requires 1 <= i <= 7
    ensures Lookup(LoadFrom(s, cfg, i), key) == FirstAction(s, cfg, key, i)
    decreases 7 - i
  {
    if i == 7 {
    } else {
      LoadedAction(s, cfg, key, i + 1);
      ListedKeys(s, cfg, i);
      BindAllAt(LoadFrom(s, cfg, i + 1), KeyList(s, cfg, i), i, key);
    }
  }

  lemma {:induction false} FirstActionIs(s: Settings, cfg: map<string, string>, key: Key, i: int, a: Action)
    requires 1 <= i <= a && key in KeyList(s, cfg, a)
    requires forall j: Action :: i <= j < a ==> key !in KeyList(s, cfg, j)
    ensures FirstAction(s, cfg, key, i) == Some(a)
    decreases a - i
  {
    if i == a {
    } else {
      FirstActionIs(s, cfg, key, i + 1, a);
    }
  }

  lemma {:induction false} FirstActionHas(s: Settings, cfg: map<string, string>, key: Key, i: int)
    requires 1 <= i <= 7
    ensures var a := FirstAction(s, cfg, key, i);
            match a
            case Some(n) => i <= n <= 6 && key in KeyList(s, cfg, n)
                            && forall j: Action :: i <= j < n ==> key !in KeyList(s, cfg, j)
            case None => forall j: Action :: i <= j ==> key !in KeyList(s, cfg, j)
    decreases 7 - i
  {
    hide KeyList;
    if i == 7 {
    } else {
      FirstActionHas(s, cfg, key, i + 1);
    }
  }

  // ----- what saving writes -----

  lemma {:induction false} SavedAt(s: Settings, orders: seq<seq<Key>>, cfg: map<string, string>, n: int, i: Action)
    requires 0 <= n <= 6 && |orders| == 6 && Distinct(s.paths)
    ensures Lookup(SaveUpTo(s, orders, cfg, n), Path(s, i)) ==
            if i <= n && orders[i - 1] != [] && KeyListToString(s.tables, orders[i - 1]) != []
            then Some(KeyListToString(s.tables, orders[i - 1])) else Lookup(cfg, Path(s, i))
  {
    hide KeyListToString;
    if n == 0 {
    } else {
      SavedAt(s, orders, cfg, n - 1, i);
      if i != n {
        PathsDiffer(s, i, n);
      }
    }
  }

  lemma {:induction false} SavedElsewhere(s: Settings, orders: seq<seq<Key>>, cfg: map<string, string>, n: int,
      path: string)
    requires 0 <= n <= 6 && |orders| == 6
    requires forall i: Action :: path != Path(s, i)
    ensures Lookup(SaveUpTo(s, orders, cfg, n), path) == Lookup(cfg, path)
  {
    hide KeyListToString;
    if n == 0 {
    } else {
      SavedElsewhere(s, orders, cfg, n - 1, path);
    }
  }

  ghost predicate AreNamed(s: Settings, keys: set<Key>) {
    forall k :: k in keys ==> k.code != 0 && Restrict(s.tables, k) == k
  }

  /** After saving hotkeys, an action with keys lists those of them that can be parsed; an action
      without keys keeps its old or default list. */
  lemma {:induction false} SavedList(s: Settings, hotkeys: map<Key, int>, cfg: map<string, string>,
      orders: seq<seq<Key>>, i: Action)
    requires Good(s) && ListsKeys(orders, hotkeys) && AreNamed(s, hotkeys.Keys)
    ensures var cfg', bound := SaveUpTo(s, orders, cfg, 6), KeysOf(hotkeys, i);
            if bound == {} then KeyList(s, cfg', i) == KeyList(s, cfg, i)
            else forall k :: k in KeyList(s, cfg', i) <==> k in bound && k.code != VOID_SYMBOL
  {
    hide KeyString.WellFormed, SaveUpTo, KeyListToString, StringToKeyList, Surviving, Restrict;
    var order := orders[i - 1];
    SavedAt(s, orders, cfg, 6, i);
    if order == [] {
      assert forall k :: k in KeysOf(hotkeys, i) ==> k in order;
    } else {
      assert forall k :: k in order <==> k in KeysOf(hotkeys, i);
      assert order[0] in order && order[|order| - 1] in order;
      PrintedListNotEmpty(s.tables, order);
      KeyListRoundTrip(s.tables, order);
      SurvivingNamed(s.tables, order);
    }
  }

  /** A loaded key has a code, only named bits, and an action whose list has it. */
  lemma {:induction false} LoadedKey(s: Settings, cfg: map<string, string>, key: Key)
    requires key in Load(s, cfg)
    ensures 1 <= Load(s, cfg)[key] <= 6 && key.code != 0 && Restrict(s.tables, key) == key
    ensures key in KeyList(s, cfg, Load(s, cfg)[key])
  {
    LoadedAction(s, cfg, key, 1);
    FirstActionHas(s, cfg, key, 1);
    ListedKeys(s, cfg, Load(s, cfg)[key]);
  }

  /** A loaded key has the first action that lists it. */
  lemma {:induction false} ListedKey(s: Settings, cfg: map<string, string>, key: Key, i: Action)
    requires key in KeyList(s, cfg, i)
    ensures key in Load(s, cfg) && 1 <= Load(s, cfg)[key] <= i
  {
    hide KeyList, LoadFrom;
    LoadedAction(s, cfg, key, 1);
    FirstActionHas(s, cfg, key, 1);
  }

  // ----- the round trips -----

  /** Each key listed by an action that has none bound is bound to an earlier action. */
  ghost predicate NoStaleKey(s: Settings, hotkeys: map<Key, int>, cfg: map<string, string>) {
    forall i: Action, k :: KeysOf(hotkeys, i) == {} && k in KeyList(s, cfg, i) ==> k in hotkeys && hotkeys[k] < i
  }

  /** Loading what was saved gives the same hotkeys exactly when each is bound to one of the six
      actions and survives printing and parsing, and no list left behind by an action without keys
      takes a key or adds one. */
  lemma {:induction false} SaveLoad(s: Settings, hotkeys: map<Key, int>, cfg: map<string, string>,
      cfg': map<string, string>)
    requires Good(s) && Saved(s, hotkeys, cfg, cfg')
    ensures Load(s, cfg') == hotkeys <==>
            && (forall k :: k in hotkeys ==> 1 <= hotkeys[k] <= 6 && KeySurvives(s.tables, k))
            && NoStaleKey(s, hotkeys, cfg)
  {
    hide SaveUpTo, KeyList, LoadFrom, NoStaleKey, Restrict, KeyString.WellFormed;
    var orders :| ListsKeys(orders, hotkeys) && cfg' == SaveUpTo(s, orders, cfg, 6);
    if Load(s, cfg') == hotkeys {
      LoadedSurvives(s, hotkeys, cfg, orders);
    }
    if (forall k :: k in hotkeys ==> 1 <= hotkeys[k] <= 6 && KeySurvives(s.tables, k)) && NoStaleKey(s, hotkeys, cfg) {
      forall k ensures Lookup(Load(s, cfg'), k) == Lookup(hotkeys, k) {
        SameBinding(s, hotkeys, cfg, orders, k);
      }
      SameLookups(Load(s, cfg'), hotkeys);
    }
  }

  /** One direction: what comes back survives, and no stale list has anything to add. */
  lemma {:induction false} LoadedSurvives(s: Settings, hotkeys: map<Key, int>, cfg: map<string, string>,
      orders: seq<seq<Key>>)
    requires Good(s) && ListsKeys(orders, hotkeys) && Load(s, SaveUpTo(s, orders, cfg, 6)) == hotkeys
    ensures forall k :: k in hotkeys ==> 1 <= hotkeys[k] <= 6 && KeySurvives(s.tables, k)
    ensures NoStaleKey(s, hotkeys, cfg)
  {
    hide SaveUpTo, KeyList, LoadFrom, Restrict, KeyString.WellFormed;
    var cfg' := SaveUpTo(s, orders, cfg, 6);
    forall k | k in hotkeys ensures 1 <= hotkeys[k] <= 6 && k.code != 0 && Restrict(s.tables, k) == k {
      LoadedKey(s, cfg', k);
    }
    forall k | k in hotkeys ensures k.code != VOID_SYMBOL {
      LoadedKey(s, cfg', k);
      assert k in KeysOf(hotkeys, hotkeys[k]);
      SavedList(s, hotkeys, cfg, orders, hotkeys[k]);
    }
    forall i: Action, k | KeysOf(hotkeys, i) == {} && k in KeyList(s, cfg, i) ensures k in hotkeys && hotkeys[k] < i {
      SavedList(s, hotkeys, cfg, orders, i);
      ListedKey(s, cfg', k, i);
      assert k !in KeysOf(hotkeys, i);
    }
  }

  /** The other: the first action that lists a key after saving is the one it is bound to. */
  lemma {:induction false} SameBinding(s: Settings, hotkeys: map<Key, int>, cfg: map<string, string>,
      orders: seq<seq<Key>>, key: Key)
    requires Good(s) && ListsKeys(orders, hotkeys) && NoStaleKey(s, hotkeys, cfg)
    requires forall k :: k in hotkeys ==> 1 <= hotkeys[k] <= 6 && KeySurvives(s.tables, k)
    ensures Lookup(Load(s, SaveUpTo(s, orders, cfg, 6)), key) == Lookup(hotkeys, key)
  {
    hide SaveUpTo, KeyList, LoadFrom, FirstAction, Restrict, KeyString.WellFormed;
    var cfg' := SaveUpTo(s, orders, cfg, 6);
    forall j: Action
      ensures key in KeyList(s, cfg', j) ==> key in hotkeys && hotkeys[key] <= j
      ensures key in hotkeys && hotkeys[key] == j ==> key in KeyList(s, cfg', j)
    {
      SavedList(s, hotkeys, cfg, orders, j);
      assert key in hotkeys && hotkeys[key] == j ==> key in KeysOf(hotkeys, j);
      assert key in KeysOf(hotkeys, j) ==> hotkeys[key] == j;
    }
    LoadedAction(s, cfg', key, 1);
    if key in hotkeys {
      FirstActionIs(s, cfg', key, 1, hotkeys[key]);
    } else {
      FirstActionHas(s, cfg', key, 1);
    }
  }

  /** For hotkeys that were loaded from the same configuration no stale list matters: they are a
      fixpoint of saving and loading exactly when none of them is VoidSymbol, which cannot be parsed. */
  lemma {:induction false} LoadSaveLoad(s: Settings, cfg: map<string, string>, cfg': map<string, string>)
    requires Good(s) && Saved(s, Load(s, cfg), cfg, cfg')
    ensures Load(s, cfg') == Load(s, cfg) <==> forall k :: k in Load(s, cfg) ==> k.code != VOID_SYMBOL
  {
    hide KeyList, LoadFrom, Saved, Restrict, KeyString.WellFormed;
    var m := Load(s, cfg);
    SaveLoad(s, m, cfg, cfg');
    forall k | k in m ensures 1 <= m[k] <= 6 && (KeySurvives(s.tables, k) <==> k.code != VOID_SYMBOL) {
      LoadedKey(s, cfg, k);
    }
    forall i: Action, k | KeysOf(m, i) == {} && k in KeyList(s, cfg, i) ensures k in m && m[k] < i {
      ListedKey(s, cfg, k, i);
      assert k !in KeysOf(m, i);
    }
  }

  /** A hotkey on VoidSymbol can be loaded, from its hexadecimal code, and is lost by saving. */
  lemma {:induction false} VoidSymbolIsLost(s: Settings, cfg: map<string, string>, cfg': map<string, string>)
    requires Good(s) && Lookup(cfg, Path(s, TRIGGER)) == Some("0xffffff")
    requires Saved(s, Load(s, cfg), cfg, cfg')
    ensures Lookup(Load(s, cfg), Key(VOID_SYMBOL, {})) == Some(TRIGGER)
    ensures Lookup(Load(s, cfg'), Key(VOID_SYMBOL, {})) != Some(TRIGGER)
  {
    hide SaveUpTo, LoadFrom, Restrict, KeyString.WellFormed, StringToKeyList, Numbers.Hex;
    var m, key := Load(s, cfg), Key(VOID_SYMBOL, {});
    Numbers.HexSamples();
    HexKeyList(s.tables, VOID_SYMBOL, 6);
    assert "0x" + "ffffff" == "0xffffff";
    ListedKey(s, cfg, key, TRIGGER);
    var orders :| ListsKeys(orders, m) && cfg' == SaveUpTo(s, orders, cfg, 6);
    forall k | k in m ensures k.code != 0 && Restrict(s.tables, k) == k {
      LoadedKey(s, cfg, k);
    }
    SavedList(s, m, cfg, orders, TRIGGER);
    assert key in KeysOf(m, TRIGGER);
    if Lookup(Load(s, cfg'), key) == Some(TRIGGER) {
      LoadedKey(s, cfg', key);
    }
  }

  lemma {:induction false} SaveEmptied(s: Settings, orders: seq<seq<Key>>, cfg: map<string, string>, n: int)
    requires 0 <= n <= 6 && |orders| == 6 && forall i :: 0 <= i < n ==> orders[i] == []
    ensures SaveUpTo(s, orders, cfg, n) == cfg
  {
    hide KeyListToString;
    if n == 0 {
    } else {
      SaveEmptied(s, orders, cfg, n - 1);
    }
  }

  lemma FirstIsIn(keys: seq<Key>)
    ensures keys == [] || keys[0] in keys
  {
  }

  /** Saving a matcher whose hotkeys were all removed writes nothing, so loading gives them again. */
  lemma {:induction false} EmptiedComesBack(s: Settings, cfg: map<string, string>, cfg': map<string, string>)
    ensures Saved(s, map[], cfg, cfg') <==> cfg' == cfg
  {
    hide SaveUpTo;
    forall orders | ListsKeys(orders, map[]) ensures SaveUpTo(s, orders, cfg, 6) == cfg {
      forall i | 0 <= i < 6 ensures orders[i] == [] {
        var a: Action := i + 1;
        assert Enumerates(orders[a - 1], KeysOf(map[], a));
        FirstIsIn(orders[i]);
      }
      SaveEmptied(s, orders, cfg, 6);
    }
    var none: seq<seq<Key>> := [[], [], [], [], [], []];
    assert ListsKeys(none, map[]);
  }

  /** With "a" listed for the first action, a matcher without hotkeys is saved, and "a" comes back. */
  lemma {:induction false} EmptiedSample(s: Settings, cfg: map<string, string>, cfg': map<string, string>)
    requires Good(s) && Lookup(cfg, Path(s, TRIGGER)) == Some("0x0061")
    requires Saved(s, map[], cfg, cfg')
    ensures Lookup(Load(s, cfg'), Key(0x61, {})) == Some(TRIGGER)
    ensures !NoStaleKey(s, map[], cfg)
  {
    hide LoadFrom, KeyString.WellFormed, StringToKeyList, Numbers.Hex, Saved;
    EmptiedComesBack(s, cfg, cfg');
    Numbers.HexSamples();
    HexKeyList(s.tables, 0x61, 4);
    assert "0x" + "0061" == "0x0061";
    ListedKey(s, cfg, Key(0x61, {}), TRIGGER);
    var none: map<Key, int>, i: Action := map[], TRIGGER;
    assert KeysOf(none, i) == {} && Key(0x61, {}) in KeyList(s, cfg, i) && Key(0x61, {}) !in none;
  }

  // ----- the defaults of the source -----

  const SHIFT := MaskName({0}, "Shift")
  const CONTROL := MaskName({2}, "Control")
  const ALT := MaskName({3}, "Alt")
  const RELEASE := MaskName({15}, "KeyRelease")

  ghost predicate HasDefaultNames(t: Tables) {
    && KeyString.WellFormed(t)
    && SHIFT in t.masks && CONTROL in t.masks && ALT in t.masks && RELEASE in t.masks
    && KeyName(0x20, "space") in t.byName && KeyName(0xFF52, "Up") in t.byName
    && KeyName(0xFF53, "Right") in t.byName && KeyName(0xFF54, "Down") in t.byName
    && KeyName(0xFFE1, "Shift_L") in t.byName && KeyName(0xFFE2, "Shift_R") in t.byName
    && KeyName(0xFFE3, "Control_L") in t.byName && KeyName(0xFFE4, "Control_R") in t.byName
  }

  /** "Control+Alt+...", and "Control+Shift+...+KeyRelease". */
  lemma {:induction false} ChordsOfDefaults(t: Tables, e: KeyName)
    requires HasDefaultNames(t) && e in t.byName && e.value != 0
    ensures var text := "Control+Alt+" + e.name;
            StringToKey(t, text) == (Key(e.value, {2, 3}), true) && ',' !in text
    ensures var text := "Control+Shift+" + e.name + "+KeyRelease";
            StringToKey(t, text) == (Key(e.value, {0, 2, 15}), true) && ',' !in text
    ensures var text := "Control+" + e.name;
            StringToKey(t, text) == (Key(e.value, {2}), true) && ',' !in text
  {
    hide StringToKey, KeyString.WellFormed, StringList.Join;
    ChordIsRead(t, [CONTROL, ALT], e, []);
    ChordIsRead(t, [CONTROL, SHIFT], e, [RELEASE]);
    ChordIsRead(t, [CONTROL], e, []);
    ThreeTexts(e.name);
    assert Chord([CONTROL, ALT], e, []) == ["Control", "Alt", e.name];
    assert Chord([CONTROL, SHIFT], e, [RELEASE]) == ["Control", "Shift", e.name, "KeyRelease"];
    assert Chord([CONTROL], e, []) == ["Control", e.name];
    assert Bits([RELEASE]) == {15} && Bits([ALT]) == {3} && Bits([SHIFT]) == {0} && Bits([CONTROL]) == {2};
    assert [CONTROL, ALT][1..] == [ALT] && [CONTROL, SHIFT][1..] == [SHIFT];
    assert Bits([CONTROL, ALT]) + Bits([]) == {2, 3} && Bits([CONTROL, SHIFT]) + Bits([RELEASE]) == {0, 2, 15};
  }

  lemma {:induction false} ThreeTexts(name: string)
    ensures StringList.Join(["Control", name], '+') == "Control+" + name
    ensures StringList.Join(["Control", "Alt", name], '+') == "Control+Alt+" + name
    ensures StringList.Join(["Control", "Shift", name, "KeyRelease"], '+') == "Control+Shift+" + name + "+KeyRelease"
  {
    hide StringList.Join;
    JoinTwo("Control", name);
    assert "Control" + ['+'] + name == "Control+" + name;
    JoinFour("Control", "Alt", name, name);
    assert "Control" + ['+'] + "Alt" + ['+'] + name == "Control+Alt+" + name;
    JoinFour("Control", "Shift", name, "KeyRelease");
    assert "Control" + ['+'] + "Shift" + ['+'] + name + ['+'] + "KeyRelease"
        == "Control+Shift+" + name + "+KeyRelease";
  }

  /** Three texts joined by commas. */
  lemma {:induction false} ThreeKeys(t: Tables, a: string, b: string, c: string, keys: seq<Key>)
    requires |keys| == 3 && a != [] && b != [] && c != [] && ',' !in a && ',' !in b && ',' !in c
    requires StringToKey(t, a) == (keys[0], true) && StringToKey(t, b) == (keys[1], true)
    requires StringToKey(t, c) == (keys[2], true)
    ensures StringToKeyList(t, a + "," + b + "," + c) == keys
  {
    hide StringToKey, StringToKeyList, StringList.Join;
    TextsAreRead(t, [a, b, c], keys);
    StringList.JoinSnoc([a], b, ',');
    StringList.JoinSnoc([a, b], c, ',');
    assert [a] + [b] == [a, b] && [a, b] + [c] == [a, b, c];
    JoinOne(a);
    assert a + [','] + b + [','] + c == a + "," + b + "," + c;
  }

  lemma JoinOne(a: string)
    ensures StringList.Join([a], ',') == a
  {
  }

  lemma {:induction false} DefaultKeys(t: Tables)
    requires HasDefaultNames(t)
    ensures StringToKeyList(t, "Control+space") == [Key(0x20, {2})]
    ensures StringToKeyList(t, NEXT_DEFAULT) ==
            [Key(0xFF54, {2, 3}), Key(0xFFE1, {0, 2, 15}), Key(0xFFE2, {0, 2, 15})]
    ensures StringToKeyList(t, PREVIOUS_DEFAULT) ==
            [Key(0xFF52, {2, 3}), Key(0xFFE3, {0, 2, 15}), Key(0xFFE4, {0, 2, 15})]
    ensures StringToKeyList(t, "Control+Alt+Right") == [Key(0xFF53, {2, 3})]
    ensures StringToKeyList(t, "") == []
  {
    hide StringToKey, StringToKeyList, KeyString.WellFormed, StringList.Join, NEXT_DEFAULT, PREVIOUS_DEFAULT;
    ChordsOfDefaults(t, KeyName(0x20, "space"));
    ChordsOfDefaults(t, KeyName(0xFF53, "Right"));
    OneText(t, "Control+" + "space", Key(0x20, {2}));
    OneText(t, "Control+Alt+" + "Right", Key(0xFF53, {2, 3}));
    assert "Control+" + "space" == "Control+space" && "Control+Alt+" + "Right" == "Control+Alt+Right";
    ChordsOfDefaults(t, KeyName(0xFF54, "Down"));
    ChordsOfDefaults(t, KeyName(0xFFE1, "Shift_L"));
    ChordsOfDefaults(t, KeyName(0xFFE2, "Shift_R"));
    ThreeKeys(t, "Control+Alt+" + "Down", "Control+Shift+" + "Shift_L" + "+KeyRelease",
              "Control+Shift+" + "Shift_R" + "+KeyRelease",
              [Key(0xFF54, {2, 3}), Key(0xFFE1, {0, 2, 15}), Key(0xFFE2, {0, 2, 15})]);
    ChordsOfDefaults(t, KeyName(0xFF52, "Up"));
    ChordsOfDefaults(t, KeyName(0xFFE3, "Control_L"));
    ChordsOfDefaults(t, KeyName(0xFFE4, "Control_R"));
    ThreeKeys(t, "Control+Alt+" + "Up", "Control+Shift+" + "Control_L" + "+KeyRelease",
              "Control+Shift+" + "Control_R" + "+KeyRelease",
              [Key(0xFF52, {2, 3}), Key(0xFFE3, {0, 2, 15}), Key(0xFFE4, {0, 2, 15})]);
    DefaultTexts();
    NoText(t);
  }

  lemma {:induction false} OneText(t: Tables, text: string, key: Key)
    requires text != [] && ',' !in text && StringToKey(t, text) == (key, true)
    ensures StringToKeyList(t, text) == [key]
  {
    hide StringToKey, StringToKeyList, StringList.Join;
    TextsAreRead(t, [text], [key]);
    JoinOne(text);
  }

  lemma {:induction false} NoText(t: Tables)
    ensures StringToKeyList(t, "") == []
  {
    hide StringToKey;
    StringList.RoundTrip([], ',');
  }

  lemma {:induction false} DefaultTexts()
    ensures NEXT_DEFAULT == "Control+Alt+" + "Down" + "," + ("Control+Shift+" + "Shift_L" + "+KeyRelease") + "," +
                            ("Control+Shift+" + "Shift_R" + "+KeyRelease")
    ensures PREVIOUS_DEFAULT == "Control+Alt+" + "Up" + "," + ("Control+Shift+" + "Control_L" + "+KeyRelease") + "," +
                            ("Control+Shift+" + "Control_R" + "+KeyRelease")
  {
    assert "Control+Shift+" + "Shift_L" + "+KeyRelease" == "Control+Shift+Shift_L+KeyRelease";
    assert "Control+Shift+" + "Shift_R" + "+KeyRelease" == "Control+Shift+Shift_R+KeyRelease";
    assert "Control+Shift+" + "Control_L" + "+KeyRelease" == "Control+Shift+Control_L+KeyRelease";
    assert "Control+Shift+" + "Control_R" + "+KeyRelease" == "Control+Shift+Control_R+KeyRelease";
    assert "Control+Alt+" + "Down" == "Control+Alt+Down" && "Control+Alt+" + "Up" == "Control+Alt+Up";
  }

  /** Without a configuration Control+space is the trigger, and Control+Alt with Down, Up and Right select
      the next factory, the previous one and the factory menu. */
  lemma {:induction false} DefaultActions(t: Tables)
    requires HasDefaultNames(t)
    ensures var hotkeys := Load(Settings(t, PATHS, DEFAULTS), map[]);
            && Lookup(hotkeys, Key(0x20, {2})) == Some(1)
            && Lookup(hotkeys, Key(0xFF54, {2, 3})) == Some(4)
            && Lookup(hotkeys, Key(0xFF52, {2, 3})) == Some(5)
            && Lookup(hotkeys, Key(0xFF53, {2, 3})) == Some(6)
  {
    hide LoadFrom, StringToKeyList, HasDefaultNames, PATHS, NEXT_DEFAULT, PREVIOUS_DEFAULT, FirstAction;
    var s := Settings(t, PATHS, DEFAULTS);
    DefaultKeys(t);
    DefaultLists(t);
    FirstActionIs(s, map[], Key(0x20, {2}), 1, 1);
    FirstActionIs(s, map[], Key(0xFF54, {2, 3}), 1, 4);
    FirstActionIs(s, map[], Key(0xFF52, {2, 3}), 1, 5);
    FirstActionIs(s, map[], Key(0xFF53, {2, 3}), 1, 6);
    LoadedAction(s, map[], Key(0x20, {2}), 1);
    LoadedAction(s, map[], Key(0xFF54, {2, 3}), 1);
    LoadedAction(s, map[], Key(0xFF52, {2, 3}), 1);
    LoadedAction(s, map[], Key(0xFF53, {2, 3}), 1);
  }

  lemma DefaultLists(t: Tables)
    ensures var s := Settings(t, PATHS, DEFAULTS);
            && KeyList(s, map[], 1) == StringToKeyList(t, "Control+space")
            && KeyList(s, map[], 2) == KeyList(s, map[], 3) == StringToKeyList(t, "")
            && KeyList(s, map[], 4) == StringToKeyList(t, NEXT_DEFAULT)
            && KeyList(s, map[], 5) == StringToKeyList(t, PREVIOUS_DEFAULT)
            && KeyList(s, map[], 6) == StringToKeyList(t, "Control+Alt+Right")
  {
    hide StringToKeyList, NEXT_DEFAULT, PREVIOUS_DEFAULT, PATHS;
  }

  /** A key listed in the entry of an action alone selects that action. */
  lemma {:induction false} EntriesOfSource(t: Tables, cfg: map<string, string>, i: Action)
    requires KeyString.WellFormed(t)
    requires Lookup(cfg, "/Hotkeys/FrontEnd/Trigger") == Some(if i == 1 then "0x0061" else "")
    requires Lookup(cfg, "/Hotkeys/FrontEnd/On") == Some(if i == 2 then "0x0061" else "")
    requires Lookup(cfg, "/Hotkeys/FrontEnd/Off") == Some(if i == 3 then "0x0061" else "")
    requires Lookup(cfg, "/Hotkeys/FrontEnd/NextFactory") == Some(if i == 4 then "0x0061" else "")
    requires Lookup(cfg, "/Hotkeys/FrontEnd/PreviousFactory") == Some(if i == 5 then "0x0061" else "")
    requires Lookup(cfg, "/Hotkeys/FrontEnd/ShowFactoryMenu") == Some(if i == 6 then "0x0061" else "")
    ensures Lookup(Load(Settings(t, PATHS, DEFAULTS), cfg), Key(0x61, {})) == Some(i as int)
  {
    hide LoadFrom, StringToKeyList, KeyString.WellFormed, DEFAULTS, FirstAction, Numbers.Hex;
    var s, key := Settings(t, PATHS, DEFAULTS), Key(0x61, {});
    Numbers.HexSamples();
    HexKeyList(t, 0x61, 4);
    assert "0x" + "0061" == "0x0061";
    NoText(t);
    forall j: Action ensures Lookup(cfg, Path(s, j)) == Some(if i == j then "0x0061" else "") {
    }
    hide PATHS;
    FirstActionIs(s, cfg, key, 1, i);
    LoadedAction(s, cfg, key, 1);
  }

  /** The same without any configuration: the first action's default key cannot be removed. */
  lemma {:induction false} DefaultComesBack(t: Tables, cfg': map<string, string>)
    requires HasDefaultNames(t)
    requires Saved(Settings(t, PATHS, DEFAULTS), map[], map[], cfg')
    ensures Lookup(Load(Settings(t, PATHS, DEFAULTS), cfg'), Key(0x20, {2})) == Some(1)
  {
    hide LoadFrom, HasDefaultNames, Saved, PATHS, NEXT_DEFAULT, PREVIOUS_DEFAULT;
    EmptiedComesBack(Settings(t, PATHS, DEFAULTS), map[], cfg');
    DefaultActions(t);
  }
}
