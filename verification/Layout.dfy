/** Mapping a key event from one keyboard layout to another, through the US layout
    (src/scim_event.cpp:212-259). */
module Layout {
  import opened Common
  import opened KeyEvents
  import Search

  datatype Pair = Pair(first: uint16, second: uint16)

  const UNKNOWN: int := 0
  const NUM_LAYOUTS: int := 39

  /** A key event with the layout it was typed on. */
  datatype KeyEvent = KeyEvent(key: Key, layout: uint16)

  /** The tables of one layout: to US and from US, for the four states of Shift and CapsLock. */
  datatype Tables = Tables(normal: seq<Pair>, normalInvert: seq<Pair>,
                           caps: seq<Pair>, capsInvert: seq<Pair>,
                           shift: seq<Pair>, shiftInvert: seq<Pair>,
                           capsShift: seq<Pair>, capsShiftInvert: seq<Pair>)

  predicate FirstLess(p: Pair, from: int) { p.first < from }

  /** What the search needs; a code may be listed twice. */
  ghost predicate Sorted(t: seq<Pair>) {
    forall i, j :: 0 <= i < j < |t| ==> t[i].first <= t[j].first
  }

  /** The second part of the first pair for the code, or the code itself. */
  function Remap(from: uint16, t: seq<Pair>): (to: uint16)
    ensures Pair(from, to) in t || (to == from && forall p :: p in t ==> p.first != from)
  {
    if t == [] then from
    else if t[0].first == from then t[0].second
    else Remap(from, t[1..])
  }

  lemma {:induction false} RemapAt(from: uint16, t: seq<Pair>, i: nat)
    requires i <= |t| && forall k :: 0 <= k < i ==> t[k].first != from
    requires i < |t| ==> t[i].first == from || forall k :: i <= k < |t| ==> t[k].first != from
    ensures Remap(from, t) == if i < |t| && t[i].first == from then t[i].second else from
  {
    if i > 0 {
      RemapAt(from, t[1..], i - 1);
    } else if t != [] && t[0].first != from {
      RemapAt(from, t[1..], 0);
    }
  }

  method RemapKeycode(from: uint16, t: seq<Pair>) returns (to: uint16)
    requires Sorted(t)
    ensures to == Remap(from, t)
  {
    if |t| == 0 { return from; }
    var it := Search.LowerBound<Pair, int>(t, from, FirstLess);
    assert forall k :: 0 <= k < it ==> FirstLess(t[k], from);
    RemapAt(from, t, it);
    if it < |t| && t[it].first == from { return t[it].second; }
    to := from;
  }

  /** The two tables of a layout that apply under the mask. */
  function ToUS(m: Tables, mask: Mask): seq<Pair> {
    if CAPS_LOCK_MASK <= mask then (if SHIFT_MASK <= mask then m.capsShift else m.caps)
    else if SHIFT_MASK <= mask then m.shift else m.normal
  }

  function FromUS(m: Tables, mask: Mask): seq<Pair> {
    if CAPS_LOCK_MASK <= mask then (if SHIFT_MASK <= mask then m.capsShiftInvert else m.capsInvert)
    else if SHIFT_MASK <= mask then m.shiftInvert else m.normalInvert
  }

  ghost predicate AllSorted(maps: seq<Tables>) {
    forall m, mask :: m in maps ==> Sorted(ToUS(m, mask)) && Sorted(FromUS(m, mask))
  }

  predicate Mappable(evt: KeyEvent, newLayout: int) {
    && evt.layout != UNKNOWN && newLayout != UNKNOWN && evt.layout != newLayout
    && evt.layout < NUM_LAYOUTS && 0 <= newLayout < NUM_LAYOUTS
    && evt.key.code <= 0xFFFF
  }

  function MapToLayout(maps: seq<Tables>, evt: KeyEvent, newLayout: int): KeyEvent
    requires |maps| == NUM_LAYOUTS
  {
    if !Mappable(evt, newLayout) then evt
    else
      var us := Remap(evt.key.code, ToUS(maps[evt.layout], evt.key.mask));
      KeyEvent(Key(Remap(us, FromUS(maps[newLayout], evt.key.mask)), evt.key.mask), newLayout)
  }

  method MapEvent(maps: seq<Tables>, evt: KeyEvent, newLayout: int) returns (mapped: KeyEvent)
    requires |maps| == NUM_LAYOUTS && AllSorted(maps)
    ensures mapped == MapToLayout(maps, evt, newLayout)
  {
    if evt.layout == UNKNOWN || newLayout == UNKNOWN || evt.layout == newLayout ||
       evt.layout >= NUM_LAYOUTS || newLayout >= NUM_LAYOUTS || newLayout < 0 || evt.key.code > 0xFFFF {
      return evt;
    }
    var from, to, mask := maps[evt.layout], maps[newLayout], evt.key.mask;
    assert Sorted(ToUS(from, mask)) && Sorted(FromUS(to, mask));
    var newCode: uint16 := evt.key.code;
    var state := mask * (CAPS_LOCK_MASK + SHIFT_MASK);
    assert 0 in state <==> SHIFT_MASK <= mask;
    assert 1 in state <==> CAPS_LOCK_MASK <= mask;
    if state == {} {
      newCode := RemapKeycode(newCode, from.normal);
      newCode := RemapKeycode(newCode, to.normalInvert);
    } else if state == CAPS_LOCK_MASK {
      newCode := RemapKeycode(newCode, from.caps);
      newCode := RemapKeycode(newCode, to.capsInvert);
    } else if state == SHIFT_MASK {
      newCode := RemapKeycode(newCode, from.shift);
      newCode := RemapKeycode(newCode, to.shiftInvert);
    } else {
      newCode := RemapKeycode(newCode, from.capsShift);
      newCode := RemapKeycode(newCode, to.capsShiftInvert);
    }
    mapped := KeyEvent(Key(newCode, mask), newLayout);
  }

  // ----- which tables apply, told by the bits of the mask (bit 0 is Shift, bit 1 CapsLock) -----

  /** An event is kept exactly when one of the layouts is unknown or out of range, both are the same, or
      the code has more than 16 bits; any other event gets the new layout and keeps its mask. */
  lemma {:induction false} KeptOrMapped(maps: seq<Tables>, evt: KeyEvent, layout: int)
    requires |maps| == 39
    ensures var mapped := MapToLayout(maps, evt, layout);
            if 1 <= evt.layout <= 38 && 1 <= layout <= 38 && evt.layout != layout && evt.key.code < 0x1_0000
            then mapped.layout == layout && mapped.key.mask == evt.key.mask
            else mapped == evt
  {
  }

  lemma {:induction false} MapPlain(maps: seq<Tables>, code: uint16, mask: Mask, from: uint16, to: uint16)
    requires |maps| == 39 && 1 <= from <= 38 && 1 <= to <= 38 && from != to
    requires 0 !in mask && 1 !in mask
    ensures MapToLayout(maps, KeyEvent(Key(code, mask), from), to).key.code ==
            Remap(Remap(code, maps[from].normal), maps[to].normalInvert)
  {
    hide Remap;
  }

  lemma {:induction false} MapUnderCapsLock(maps: seq<Tables>, code: uint16, mask: Mask, from: uint16, to: uint16)
    requires |maps| == 39 && 1 <= from <= 38 && 1 <= to <= 38 && from != to
    requires 0 !in mask && 1 in mask
    ensures MapToLayout(maps, KeyEvent(Key(code, mask), from), to).key.code ==
            Remap(Remap(code, maps[from].caps), maps[to].capsInvert)
  {
    hide Remap;
  }

  lemma {:induction false} MapUnderShift(maps: seq<Tables>, code: uint16, mask: Mask, from: uint16, to: uint16)
    requires |maps| == 39 && 1 <= from <= 38 && 1 <= to <= 38 && from != to
    requires 0 in mask && 1 !in mask
    ensures MapToLayout(maps, KeyEvent(Key(code, mask), from), to).key.code ==
            Remap(Remap(code, maps[from].shift), maps[to].shiftInvert)
  {
    hide Remap;
  }

  lemma {:induction false} MapUnderBoth(maps: seq<Tables>, code: uint16, mask: Mask, from: uint16, to: uint16)
    requires |maps| == 39 && 1 <= from <= 38 && 1 <= to <= 38 && from != to
    requires 0 in mask && 1 in mask
    ensures MapToLayout(maps, KeyEvent(Key(code, mask), from), to).key.code ==
            Remap(Remap(code, maps[from].capsShift), maps[to].capsShiftInvert)
  {
    hide Remap;
  }

  // ----- there and back -----

  ghost predicate StrictlySorted(t: seq<Pair>) {
    forall i, j :: 0 <= i < j < |t| ==> t[i].first < t[j].first
  }

  ghost predicate Covers(t: seq<Pair>, code: uint16) {
    exists i :: 0 <= i < |t| && t[i].first == code
  }

  /** Two tables that are each other's converse. The inverse lists each code once; the forward table
      only has to be sorted, as the search needs it to be, and may list a code twice. */
  ghost predicate Converse(f: seq<Pair>, g: seq<Pair>) {
    && Sorted(f) && StrictlySorted(g)
    && (forall a, b :: Pair(a, b) in f <==> Pair(b, a) in g)
  }

  /** Some pair for this second code is the first one the table has for its own first code. */
  ghost predicate ListedFirst(t: seq<Pair>, code: uint16) {
    exists i :: 0 <= i < |t| && t[i].second == code && forall j :: 0 <= j < i ==> t[j].first != t[i].first
  }

  /** A code of the layout goes to US and back as itself. */
  ghost predicate ReturnsFromUS(f: seq<Pair>, g: seq<Pair>, code: uint16) {
    Covers(f, code) || !Covers(g, code)
  }

  /** A code of US goes to the layout and back as itself. */
  ghost predicate ReturnsToUS(f: seq<Pair>, g: seq<Pair>, us: uint16) {
    if Covers(g, us) then ListedFirst(f, us) else !Covers(f, us)
  }

  lemma OnePairPerCode(t: seq<Pair>, a: uint16, b: uint16)
    requires StrictlySorted(t) && Pair(a, b) in t
    ensures Remap(a, t) == b && Covers(t, a)
  {
  }

  lemma NotCovered(t: seq<Pair>, code: uint16)
    requires !Covers(t, code)
    ensures Remap(code, t) == code
  {
  }

  lemma CoveredPair(t: seq<Pair>, code: uint16)
    requires Covers(t, code)
    ensures Pair(code, Remap(code, t)) in t
  {
  }

  /** Position of the first pair for a code. */
  ghost function FirstFor(t: seq<Pair>, code: uint16, from: nat): (i: nat)
    requires from <= |t| && exists i :: from <= i < |t| && t[i].first == code
    ensures from <= i < |t| && t[i].first == code && forall j :: from <= j < i ==> t[j].first != code
    decreases |t| - from
  {
    if t[from].first == code then from else FirstFor(t, code, from + 1)
  }

  /** The pair a search takes is the first one for its code. */
  lemma {:induction false} RemapIsFirst(t: seq<Pair>, code: uint16)
    requires Covers(t, code)
    ensures ListedFirst(t, Remap(code, t))
    ensures forall i :: 0 <= i < |t| && t[i].first == code && (forall j :: 0 <= j < i ==> t[j].first != code) ==>
              t[i].second == Remap(code, t)
  {
    hide Remap;
    var i := FirstFor(t, code, 0);
    RemapAt(code, t, i);
  }

  lemma {:induction false} FromUSAndBack(f: seq<Pair>, g: seq<Pair>, us: uint16)
    requires Converse(f, g)
    ensures Remap(Remap(us, g), f) == us <==> ReturnsToUS(f, g, us)
  {
    hide Remap;
    if Covers(g, us) {
      var x := Remap(us, g);
      CoveredPair(g, us);
      assert Pair(x, us) in f;
      RemapIsFirst(f, x);
      if ListedFirst(f, us) {
        var i :| 0 <= i < |f| && f[i].second == us && forall j :: 0 <= j < i ==> f[j].first != f[i].first;
        assert f[i] == Pair(f[i].first, us);
        OnePairPerCode(g, us, f[i].first);
      }
    } else {
      NotCovered(g, us);
      if Covers(f, us) {
        CoveredPair(f, us);
      } else {
        NotCovered(f, us);
      }
    }
  }

  lemma {:induction false} ToUSAndBack(f: seq<Pair>, g: seq<Pair>, code: uint16)
    requires Converse(f, g)
    ensures Remap(Remap(code, f), g) == code <==> ReturnsFromUS(f, g, code)
  {
    hide Remap;
    if Covers(f, code) {
      CoveredPair(f, code);
      OnePairPerCode(g, Remap(code, f), code);
    } else {
      NotCovered(f, code);
      if Covers(g, code) {
        CoveredPair(g, code);
      } else {
        NotCovered(g, code);
      }
    }
  }

  /** When the inverse table of the first layout gives the code back although another US code came
      back than the one it was mapped to: that other code also belongs to the key, or it is the code
      itself and the layout has no key for it. */
  ghost predicate ByAccident(f: seq<Pair>, g: seq<Pair>, code: uint16, other: uint16) {
    Pair(code, other) in f || (other == code && !Covers(g, code))
  }

  /** From one layout to another and back: the code returns exactly when both halves of the way
      return it, or by accident. */
  lemma {:induction false} FourRemaps(f1: seq<Pair>, g1: seq<Pair>, f2: seq<Pair>, g2: seq<Pair>, code: uint16)
    requires Converse(f1, g1) && Converse(f2, g2)
    ensures var us := Remap(code, f1);
            var other := Remap(Remap(us, g2), f2);
            Remap(other, g1) == code <==>
            if ReturnsToUS(f2, g2, us) then ReturnsFromUS(f1, g1, code) else ByAccident(f1, g1, code, other)
  {
    hide Remap, ReturnsToUS, ReturnsFromUS, Sorted;
    var us := Remap(code, f1);
    var other := Remap(Remap(us, g2), f2);
    FromUSAndBack(f2, g2, us);
    ToUSAndBack(f1, g1, code);
    if Covers(g1, other) {
      CoveredPair(g1, other);
      if Pair(code, other) in f1 {
        OnePairPerCode(g1, other, code);
      }
    } else {
      NotCovered(g1, other);
      assert Pair(code, other) in f1 ==> Pair(other, code) in g1;
    }
  }

  /** With tables that list each code once the accident is a single one: the second layout has no key
      for the US code, and its own key of that code happens to lead back. */
  lemma {:induction false} StrictTables(f1: seq<Pair>, g1: seq<Pair>, f2: seq<Pair>, g2: seq<Pair>, code: uint16)
    requires Converse(f1, g1) && Converse(f2, g2) && StrictlySorted(f1) && StrictlySorted(f2)
    ensures forall us :: ReturnsToUS(f2, g2, us) <==> Covers(g2, us) || !Covers(f2, us)
    ensures var us := Remap(code, f1);
            !ReturnsToUS(f2, g2, us) ==>
            var other := Remap(Remap(us, g2), f2);
            ByAccident(f1, g1, code, other) <==> Remap(us, f2) == code && !Covers(g1, code)
  {
    hide Remap, Sorted;
    forall us ensures ReturnsToUS(f2, g2, us) <==> Covers(g2, us) || !Covers(f2, us) {
      if Covers(g2, us) {
        CoveredPair(g2, us);
        var i :| 0 <= i < |f2| && f2[i] == Pair(Remap(us, g2), us);
      }
    }
    var us := Remap(code, f1);
    if !ReturnsToUS(f2, g2, us) {
      NotCovered(g2, us);
      var other := Remap(us, f2);
      FromUSAndBack(f2, g2, us);
      if Pair(code, other) in f1 {
        OnePairPerCode(f1, code, other);
      }
    }
  }

  /** Mapping an event to another layout and back gives the event exactly under that condition, in
      each of the four states of Shift and CapsLock; an event that cannot be mapped is kept. */
  lemma {:induction false} MapThereAndBack(maps: seq<Tables>, evt: KeyEvent, layout: int)
    requires |maps| == NUM_LAYOUTS
    requires Mappable(evt, layout) ==>
             forall l :: l == evt.layout || l == layout ==>
               Converse(ToUS(maps[l], evt.key.mask), FromUS(maps[l], evt.key.mask))
    ensures MapToLayout(maps, MapToLayout(maps, evt, layout), evt.layout) == evt <==>
            (Mappable(evt, layout) ==>
             var m1, m2, mask := maps[evt.layout], maps[layout], evt.key.mask;
             var f1, g1, f2, g2 := ToUS(m1, mask), FromUS(m1, mask), ToUS(m2, mask), FromUS(m2, mask);
             var us := Remap(evt.key.code, f1);
             var other := Remap(Remap(us, g2), f2);
             if ReturnsToUS(f2, g2, us) then ReturnsFromUS(f1, g1, evt.key.code)
             else ByAccident(f1, g1, evt.key.code, other))
  {
    hide Remap, Converse, ReturnsToUS, ReturnsFromUS, ByAccident;
    if Mappable(evt, layout) {
      var m1, m2, mask := maps[evt.layout], maps[layout], evt.key.mask;
      FourRemaps(ToUS(m1, mask), FromUS(m1, mask), ToUS(m2, mask), FromUS(m2, mask), evt.key.code);
    }
  }

  /** With tables that list each code once: the event comes back exactly when both halves of the way
      return it, or when the second layout has no key for the US code but its own key of that code is
      the typed code on US, for which the first layout has no key. */
  lemma {:induction false} MapThereAndBackStrict(maps: seq<Tables>, evt: KeyEvent, layout: int)
    requires |maps| == NUM_LAYOUTS
    requires Mappable(evt, layout) ==>
             forall l :: l == evt.layout || l == layout ==>
               Converse(ToUS(maps[l], evt.key.mask), FromUS(maps[l], evt.key.mask)) &&
               StrictlySorted(ToUS(maps[l], evt.key.mask))
    ensures MapToLayout(maps, MapToLayout(maps, evt, layout), evt.layout) == evt <==>
            (Mappable(evt, layout) ==>
             var m1, m2, mask, code := maps[evt.layout], maps[layout], evt.key.mask, evt.key.code;
             var f1, g1, f2, g2 := ToUS(m1, mask), FromUS(m1, mask), ToUS(m2, mask), FromUS(m2, mask);
             var us := Remap(code, f1);
             if Covers(g2, us) || !Covers(f2, us) then Covers(f1, code) || !Covers(g1, code)
             else Pair(us, code) in f2 && !Covers(g1, code))
  {
    hide Remap, Converse, ReturnsToUS, ByAccident, StrictlySorted, MapToLayout;
    MapThereAndBack(maps, evt, layout);
    if Mappable(evt, layout) {
      var m1, m2, mask, code := maps[evt.layout], maps[layout], evt.key.mask, evt.key.code;
      var f2 := ToUS(m2, mask);
      StrictTables(ToUS(m1, mask), FromUS(m1, mask), f2, FromUS(m2, mask), code);
      var us := Remap(code, ToUS(m1, mask));
      if Covers(f2, us) {
        CoveredPair(f2, us);
        OnePairOnly(f2, us, code);
      }
    }
  }

  lemma OnePairOnly(t: seq<Pair>, a: uint16, b: uint16)
    requires StrictlySorted(t) && Covers(t, a)
    ensures Pair(a, b) in t <==> Remap(a, t) == b
  {
    hide Remap;
    CoveredPair(t, a);
    if Pair(a, b) in t {
      OnePairPerCode(t, a, b);
    }
  }

  /** The US layout has no tables (src/scim_keyboard_layout_data.h:4158). */
  const US: uint16 := 1

  ghost predicate USHasNoTables(maps: seq<Tables>) {
    |maps| == NUM_LAYOUTS && maps[US] == Tables([], [], [], [], [], [], [], [])
  }

  /** Typed on US, to another layout and back. */
  lemma {:induction false} MapFromUSAndBack(maps: seq<Tables>, key: Key, layout: uint16)
    requires USHasNoTables(maps) && Mappable(KeyEvent(key, US), layout)
    requires Converse(ToUS(maps[layout], key.mask), FromUS(maps[layout], key.mask))
    ensures var evt := KeyEvent(key, US);
            MapToLayout(maps, MapToLayout(maps, evt, layout), US) == evt <==>
            ReturnsToUS(ToUS(maps[layout], key.mask), FromUS(maps[layout], key.mask), key.code)
  {
    hide Remap, Converse, ReturnsToUS;
    var f, g := ToUS(maps[layout], key.mask), FromUS(maps[layout], key.mask);
    assert ToUS(maps[US], key.mask) == [] == FromUS(maps[US], key.mask);
    NotCovered([], key.code);
    NotCovered([], Remap(Remap(key.code, g), f));
    FromUSAndBack(f, g, key.code);
  }

  /** Typed on another layout, to US and back. */
  lemma {:induction false} MapToUSAndBack(maps: seq<Tables>, evt: KeyEvent)
    requires USHasNoTables(maps) && Mappable(evt, US)
    requires Converse(ToUS(maps[evt.layout], evt.key.mask), FromUS(maps[evt.layout], evt.key.mask))
    ensures MapToLayout(maps, MapToLayout(maps, evt, US), evt.layout) == evt <==>
            ReturnsFromUS(ToUS(maps[evt.layout], evt.key.mask), FromUS(maps[evt.layout], evt.key.mask), evt.key.code)
  {
    hide Remap, Converse, ReturnsFromUS;
    var f, g := ToUS(maps[evt.layout], evt.key.mask), FromUS(maps[evt.layout], evt.key.mask);
    assert ToUS(maps[US], evt.key.mask) == [] == FromUS(maps[US], evt.key.mask);
    var us := Remap(evt.key.code, f);
    NotCovered([], us);
    ToUSAndBack(f, g, evt.key.code);
  }

  // ----- tables of the source (src/scim_keyboard_layout_data.h:3977-4025, 2460-2494) -----

  const UK_NORMAL := [Pair(0x23, 0x5C)]
  const UK_NORMAL_INVERT := [Pair(0x5C, 0x23)]
  const UK_SHIFT := [Pair(0x22, 0x40), Pair(0x40, 0x22), Pair(0x7E, 0x7C), Pair(0xA3, 0x23), Pair(0xAC, 0x7E)]
  const UK_SHIFT_INVERT := [Pair(0x22, 0x40), Pair(0x23, 0xA3), Pair(0x40, 0x22), Pair(0x7C, 0x7E), Pair(0x7E, 0xAC)]

  const UK: Tables := Tables(UK_NORMAL, UK_NORMAL_INVERT, UK_NORMAL, UK_NORMAL_INVERT,
                             UK_SHIFT, UK_SHIFT_INVERT, UK_SHIFT, UK_SHIFT_INVERT)

  /** Each pair of `f` has its mirror image in `g`, at the position told. */
  ghost predicate MirroredAt(f: seq<Pair>, g: seq<Pair>, at: seq<nat>) {
    |at| == |f| && forall i :: 0 <= i < |f| ==> at[i] < |g| && g[at[i]] == Pair(f[i].second, f[i].first)
  }

  lemma {:induction false} ConverseBy(f: seq<Pair>, g: seq<Pair>, inG: seq<nat>, inF: seq<nat>)
    requires Sorted(f) && StrictlySorted(g) && MirroredAt(f, g, inG) && MirroredAt(g, f, inF)
    ensures Converse(f, g)
  {
    forall a, b | Pair(a, b) in f ensures Pair(b, a) in g {
      var i :| 0 <= i < |f| && f[i] == Pair(a, b);
      assert g[inG[i]] == Pair(b, a);
    }
    forall a, b | Pair(b, a) in g ensures Pair(a, b) in f {
      var i :| 0 <= i < |g| && g[i] == Pair(b, a);
      assert f[inF[i]] == Pair(a, b);
    }
  }

  lemma {:induction false} UKNormalIsConverse()
    ensures Converse(UK_NORMAL, UK_NORMAL_INVERT) && StrictlySorted(UK_NORMAL)
  {
    hide Converse;
    ConverseBy(UK_NORMAL, UK_NORMAL_INVERT, [0], [0]);
  }

  lemma UKShiftMirrored()
    ensures StrictlySorted(UK_SHIFT) && StrictlySorted(UK_SHIFT_INVERT)
    ensures MirroredAt(UK_SHIFT, UK_SHIFT_INVERT, [2, 0, 3, 1, 4])
    ensures MirroredAt(UK_SHIFT_INVERT, UK_SHIFT, [1, 3, 0, 2, 4])
  {
  }

  lemma {:induction false} UKShiftIsConverse()
    ensures Converse(UK_SHIFT, UK_SHIFT_INVERT) && StrictlySorted(UK_SHIFT)
  {
    hide Converse, MirroredAt, UK_SHIFT, UK_SHIFT_INVERT;
    UKShiftMirrored();
    ConverseBy(UK_SHIFT, UK_SHIFT_INVERT, [2, 0, 3, 1, 4], [1, 3, 0, 2, 4]);
  }

  lemma {:induction false} UKTablesAreConverse(mask: Mask)
    ensures Converse(ToUS(UK, mask), FromUS(UK, mask)) && StrictlySorted(ToUS(UK, mask))
  {
    hide Converse, StrictlySorted, UK_NORMAL, UK_NORMAL_INVERT, UK_SHIFT, UK_SHIFT_INVERT;
    UKNormalIsConverse();
    UKShiftIsConverse();
  }

  const JAPANESE_SHIFT := [
    Pair(0x22, 0x40), Pair(0x26, 0x5E), Pair(0x27, 0x26), Pair(0x28, 0x2A), Pair(0x29, 0x28), Pair(0x2A, 0x22),
    Pair(0x2B, 0x3A), Pair(0x3D, 0x5F), Pair(0x60, 0x7B), Pair(0x7B, 0x7D), Pair(0x7D, 0x7C), Pair(0x7E, 0x29),
    Pair(0x7E, 0x2B), Pair(0xFF2A, 0x7E)]
  const JAPANESE_SHIFT_INVERT := [
    Pair(0x22, 0x2A), Pair(0x26, 0x27), Pair(0x28, 0x29), Pair(0x29, 0x7E), Pair(0x2A, 0x28), Pair(0x2B, 0x7E),
    Pair(0x3A, 0x2B), Pair(0x40, 0x22), Pair(0x5E, 0x26), Pair(0x5F, 0x3D), Pair(0x7B, 0x60), Pair(0x7C, 0x7D),
    Pair(0x7D, 0x7B), Pair(0x7E, 0xFF2A)]

  /** The layout number of the Japanese layout (src/scim_event.h:1971). Both its tables under Shift,
      with and without CapsLock, have the pairs above. */
  const JAPANESE: uint16 := 20

  ghost predicate JapaneseUnderShift(maps: seq<Tables>) {
    |maps| == NUM_LAYOUTS &&
    var m := maps[JAPANESE];
    m.shift == m.capsShift == JAPANESE_SHIFT && m.shiftInvert == m.capsShiftInvert == JAPANESE_SHIFT_INVERT
  }

  lemma {:induction false} JapaneseShiftIsSorted()
    ensures Sorted(JAPANESE_SHIFT) && StrictlySorted(JAPANESE_SHIFT_INVERT) && !StrictlySorted(JAPANESE_SHIFT)
  {
    assert JAPANESE_SHIFT[11].first == JAPANESE_SHIFT[12].first;
  }

  const IN_INVERT: seq<nat> := [7, 8, 1, 4, 2, 0, 6, 9, 10, 12, 11, 3, 5, 13]
  const IN_SHIFT: seq<nat> := [5, 2, 4, 11, 3, 12, 6, 0, 1, 7, 8, 10, 9, 13]

  lemma JapaneseMirrored()
    ensures MirroredAt(JAPANESE_SHIFT, JAPANESE_SHIFT_INVERT, IN_INVERT)
  {
  }

  lemma JapaneseMirroredBack()
    ensures MirroredAt(JAPANESE_SHIFT_INVERT, JAPANESE_SHIFT, IN_SHIFT)
  {
  }

  /** The tables list '~' twice, so they are not strictly sorted; but they are converse. */
  lemma {:induction false} JapaneseShiftIsConverse()
    ensures Converse(JAPANESE_SHIFT, JAPANESE_SHIFT_INVERT) && !StrictlySorted(JAPANESE_SHIFT)
  {
    hide Sorted, StrictlySorted, MirroredAt, Converse;
    hide JAPANESE_SHIFT, JAPANESE_SHIFT_INVERT, IN_INVERT, IN_SHIFT;
    JapaneseShiftIsSorted();
    JapaneseMirrored();
    JapaneseMirroredBack();
    ConverseBy(JAPANESE_SHIFT, JAPANESE_SHIFT_INVERT, IN_INVERT, IN_SHIFT);
  }

  /** Only the pair for "+" is not the first one for its first code. */
  lemma {:induction false} JapaneseSecondPair()
    ensures var t := JAPANESE_SHIFT;
            && t[11].first == t[12].first
            && (forall i, j :: 0 <= j < i < |t| && i != 12 ==> t[j].first != t[i].first)
            && forall i :: 0 <= i < |t| ==> (t[i].second == 0x2B <==> i == 12)
  {
  }

  lemma {:induction false} JapaneseListedFirst(us: uint16)
    requires Covers(JAPANESE_SHIFT_INVERT, us)
    ensures ListedFirst(JAPANESE_SHIFT, us) <==> us != 0x2B
  {
    hide Remap, JAPANESE_SHIFT, JAPANESE_SHIFT_INVERT;
    JapaneseSecondPair();
    JapaneseShiftIsConverse();
    CoveredPair(JAPANESE_SHIFT_INVERT, us);
    var i :| 0 <= i < |JAPANESE_SHIFT| && JAPANESE_SHIFT[i] == Pair(Remap(us, JAPANESE_SHIFT_INVERT), us);
  }

  lemma {:induction false} JapaneseCovers(code: uint16)
    ensures Covers(JAPANESE_SHIFT, code) <==>
            code in {0x22, 0x26, 0x27, 0x28, 0x29, 0x2A, 0x2B, 0x3D, 0x60, 0x7B, 0x7D, 0x7E, 0xFF2A}
    ensures Covers(JAPANESE_SHIFT_INVERT, code) <==>
            code in {0x22, 0x26, 0x28, 0x29, 0x2A, 0x2B, 0x3A, 0x40, 0x5E, 0x5F, 0x7B, 0x7C, 0x7D, 0x7E}
  {
    var f, g := JAPANESE_SHIFT, JAPANESE_SHIFT_INVERT;
    assert f[0].first == 0x22 && f[1].first == 0x26 && f[2].first == 0x27 && f[3].first == 0x28 &&
           f[4].first == 0x29 && f[5].first == 0x2A && f[6].first == 0x2B && f[7].first == 0x3D &&
           f[8].first == 0x60 && f[9].first == 0x7B && f[10].first == 0x7D && f[11].first == 0x7E &&
           f[13].first == 0xFF2A;
    assert g[0].first == 0x22 && g[1].first == 0x26 && g[2].first == 0x28 && g[3].first == 0x29 &&
           g[4].first == 0x2A && g[5].first == 0x2B && g[6].first == 0x3A && g[7].first == 0x40 &&
           g[8].first == 0x5E && g[9].first == 0x5F && g[10].first == 0x7B && g[11].first == 0x7C &&
           g[12].first == 0x7D && g[13].first == 0x7E;
  }

  /** Under Shift the keys of US come back from the Japanese layout except "+" and the four codes that
      only the Japanese tables list; the keys of the Japanese layout come back from US except the five
      codes that only their inverse lists. */
  lemma {:induction false} JapaneseShiftReturns(maps: seq<Tables>, key: Key)
    requires USHasNoTables(maps) && JapaneseUnderShift(maps)
    requires SHIFT_MASK <= key.mask && key.code <= 0xFFFF
    ensures MapToLayout(maps, MapToLayout(maps, KeyEvent(key, US), JAPANESE), US) == KeyEvent(key, US) <==>
            key.code !in {0x2B, 0x27, 0x3D, 0x60, 0xFF2A}
    ensures MapToLayout(maps, MapToLayout(maps, KeyEvent(key, JAPANESE), US), JAPANESE) == KeyEvent(key, JAPANESE) <==>
            key.code !in {0x3A, 0x40, 0x5E, 0x5F, 0x7C}
  {
    hide MapToLayout, Converse, Covers, ListedFirst, JAPANESE_SHIFT, JAPANESE_SHIFT_INVERT;
    JapaneseShiftIsConverse();
    MapFromUSAndBack(maps, key, JAPANESE);
    MapToUSAndBack(maps, KeyEvent(key, JAPANESE));
    JapaneseCovers(key.code);
    if Covers(JAPANESE_SHIFT_INVERT, key.code) {
      JapaneseListedFirst(key.code);
    }
  }

  /** A shifted US "+" becomes "~" on the Japanese layout and comes back as ")". */
  lemma {:induction false} JapaneseShiftLosesPlus(maps: seq<Tables>, mask: Mask)
    requires USHasNoTables(maps) && JapaneseUnderShift(maps) && SHIFT_MASK <= mask
    ensures MapToLayout(maps, KeyEvent(Key(0x2B, mask), 1), 20) == KeyEvent(Key(0x7E, mask), 20)
    ensures MapToLayout(maps, KeyEvent(Key(0x7E, mask), 20), 1) == KeyEvent(Key(0x29, mask), 1)
  {
    hide Remap;
    RemapAt(0x2B, JAPANESE_SHIFT_INVERT, 5);
    RemapAt(0x7E, JAPANESE_SHIFT, 11);
    NotCovered([], 0x2B);
    NotCovered([], 0x29);
  }

  // ----- the German layout, whose tables differ in each state -----

  const GERMAN: uint16 := 14

  /** On a German keyboard "y" and "z" have changed places, and "Y" and "Z" under CapsLock
      (src/scim_keyboard_layout_data.h:1827-1882). */
  lemma {:induction false} GermanYIsZ(maps: seq<Tables>)
    requires USHasNoTables(maps)
    requires StrictlySorted(maps[GERMAN].normal) && Pair(0x79, 0x7A) in maps[GERMAN].normal
    requires StrictlySorted(maps[GERMAN].normalInvert) && Pair(0x79, 0x7A) in maps[GERMAN].normalInvert
    requires StrictlySorted(maps[GERMAN].caps) && Pair(0x59, 0x5A) in maps[GERMAN].caps
    requires !Covers(maps[GERMAN].caps, 0x79) && !Covers(maps[GERMAN].normal, 0x59)
    ensures MapToLayout(maps, KeyEvent(Key(0x79, {}), 14), 1) == KeyEvent(Key(0x7A, {}), 1)
    ensures MapToLayout(maps, KeyEvent(Key(0x79, {}), 1), 14) == KeyEvent(Key(0x7A, {}), 14)
    ensures MapToLayout(maps, KeyEvent(Key(0x59, {1}), 14), 1) == KeyEvent(Key(0x5A, {1}), 1)
    ensures MapToLayout(maps, KeyEvent(Key(0x79, {1}), 14), 1) == KeyEvent(Key(0x79, {1}), 1)
    ensures MapToLayout(maps, KeyEvent(Key(0x59, {}), 14), 1) == KeyEvent(Key(0x59, {}), 1)
  {
    hide Remap, MapToLayout, StrictlySorted, Covers;
    var german := maps[GERMAN];
    OnePairPerCode(german.normal, 0x79, 0x7A);
    OnePairPerCode(german.normalInvert, 0x79, 0x7A);
    OnePairPerCode(german.caps, 0x59, 0x5A);
    NotCovered(german.caps, 0x79);
    NotCovered(german.normal, 0x59);
    NothingListed();
    MapPlain(maps, 0x79, {}, 14, 1);
    MapPlain(maps, 0x79, {}, 1, 14);
    MapPlain(maps, 0x59, {}, 14, 1);
    MapUnderCapsLock(maps, 0x59, {1}, 14, 1);
    MapUnderCapsLock(maps, 0x79, {1}, 14, 1);
    KeptOrMapped(maps, KeyEvent(Key(0x79, {}), 14), 1);
    KeptOrMapped(maps, KeyEvent(Key(0x79, {}), 1), 14);
    KeptOrMapped(maps, KeyEvent(Key(0x59, {}), 14), 1);
    KeptOrMapped(maps, KeyEvent(Key(0x59, {1}), 14), 1);
    KeptOrMapped(maps, KeyEvent(Key(0x79, {1}), 14), 1);
  }

  lemma NothingListed()
    ensures forall code: uint16 :: Remap(code, []) == code
  {
  }
}
