/** The hotkey matcher (src/scim_hotkey.cpp:46-153). */
module Hotkey {
  import opened Common
  import opened KeyEvents

  function Bind(hotkeys: map<Key, int>, key: Key, id: int): map<Key, int> {
    if key.IsEmpty() then hotkeys else hotkeys[key := id]
  }

  function BindAll(hotkeys: map<Key, int>, keys: seq<Key>, id: int): map<Key, int> {
    if keys == [] then hotkeys
    else Bind(BindAll(hotkeys, keys[..|keys| - 1], id), keys[|keys| - 1], id)
  }

  lemma {:induction false} BindAllAt(hotkeys: map<Key, int>, keys: seq<Key>, id: int, key: Key)
    ensures Lookup(BindAll(hotkeys, keys, id), key) ==
            if key in keys && key != Key(0, {}) then Some(id) else Lookup(hotkeys, key)
  {
    if keys == [] {
    } else {
      assert keys == keys[..|keys| - 1] + [keys[|keys| - 1]];
      BindAllAt(hotkeys, keys[..|keys| - 1], id, key);
    }
  }

  /** The keys bound to an id. */
  function KeysOf(hotkeys: map<Key, int>, id: int): set<Key> {
    set k | k in hotkeys && hotkeys[k] == id
  }

  class HotkeyMatcher {
    var hotkeys: map<Key, int>
    var prevCode: uint32
    var matched: bool
    var result: int

    constructor ()
      ensures hotkeys == map[] && prevCode == 0 && !matched && result == -1
    {
      hotkeys, prevCode, matched, result := map[], 0, false, -1;
    }

    method AddHotkey(key: Key, id: int)
      modifies this`hotkeys
      ensures hotkeys == Bind(old(hotkeys), key, id)
    {
      if !key.IsEmpty() {
        hotkeys := hotkeys[key := id];
      }
    }

    method AddHotkeys(keys: seq<Key>, id: int)
      modifies this`hotkeys
      ensures hotkeys == BindAll(old(hotkeys), keys, id)
    {
      for i := 0 to |keys|
        invariant hotkeys == BindAll(old(hotkeys), keys[..i], id)
      {
        assert keys[..i + 1][..i] == keys[..i];
        if !keys[i].IsEmpty() {
          hotkeys := hotkeys[keys[i] := id];
        }
      }
      assert keys[..|keys|] == keys;
    }

    /** All bound keys, in the order the container passes them, and their ids. */
    method GetAllHotkeys() returns (keys: seq<Key>, ids: seq<int>)
      ensures Enumerates(keys, hotkeys.Keys)
      ensures |ids| == |keys| && forall i :: 0 <= i < |keys| ==> ids[i] == hotkeys[keys[i]]
    {
      keys, ids := [], [];
      var todo := hotkeys.Keys;
      while todo != {}
        invariant todo <= hotkeys.Keys && Enumerates(keys, hotkeys.Keys - todo)
        invariant |ids| == |keys| && forall i :: 0 <= i < |keys| ==> keys[i] in hotkeys && ids[i] == hotkeys[keys[i]]
      {
        var k :| k in todo;
        todo := todo - {k};
        DistinctExtend(keys, k);
        keys, ids := keys + [k], ids + [hotkeys[k]];
      }
    }

    /** The keys bound to an id, in the order the container passes them. */
    method FindHotkeys(id: int) returns (keys: seq<Key>)
      ensures Enumerates(keys, KeysOf(hotkeys, id))
    {
      keys := [];
      var todo := hotkeys.Keys;
      while todo != {}
        invariant todo <= hotkeys.Keys && Enumerates(keys, KeysOf(hotkeys, id) - todo)
      {
        var k :| k in todo;
        todo := todo - {k};
        if hotkeys[k] == id {
          DistinctExtend(keys, k);
          keys := keys + [k];
        }
      }
    }

    /** A bound key matches; a bound release matches only when the event before it had its code. */
    method PushKeyEvent(key: Key)
      modifies this`prevCode, this`matched, this`result
      ensures prevCode == key.code
      ensures matched <==> key in hotkeys && (15 in key.mask ==> old(prevCode) == key.code)
      ensures result == if matched then hotkeys[key] else -1
    {
      BitsTell(key);
      if key in hotkeys && (!key.IsRelease() || prevCode == key.code) {
        matched, result := true, hotkeys[key];
      } else {
        matched, result := false, -1;
      }
      prevCode := key.code;
    }

    method Reset()
      modifies this`prevCode, this`matched, this`result
      ensures prevCode == 0 && !matched && result == -1
    {
      prevCode, matched, result := 0, false, -1;
    }

    method Clear()
      modifies this
      ensures hotkeys == map[] && prevCode == 0 && !matched && result == -1
    {
      hotkeys := map[];
      Reset();
    }
  }
}
