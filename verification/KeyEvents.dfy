/** Key events and their modifier masks (src/scim_event.h:51-74, 2088-2250). */
module KeyEvents {
  import opened Common

  /** A 16-bit mask is the set of its bits: the source only tests, joins and intersects masks. */
  type Bit = b: nat | b < 16
  type Mask = set<Bit>

  const SHIFT_MASK: Mask := {0}
  const CAPS_LOCK_MASK: Mask := {1}
  const CONTROL_MASK: Mask := {2}
  const ALT_MASK: Mask := {3}
  const RELEASE_MASK: Mask := {15}

  const VOID_SYMBOL: uint32 := 0xFF_FFFF

  /** The part of a key event that `operator ==` and `operator <` look at: the layout is not in it. */
  datatype Key = Key(code: uint32, mask: Mask) {
    predicate IsEmpty() { mask == {} && code == 0 }

    predicate IsRelease() { mask * RELEASE_MASK != {} }

    predicate IsControlDown() { mask * CONTROL_MASK != {} }

    predicate IsAltDown() { mask * ALT_MASK != {} }
  }

  /** The bits of the mask that tell a release and the modifiers; a key event without code and mask is empty. */
  lemma {:induction false} BitsTell(key: Key)
    ensures key.IsRelease() <==> 15 in key.mask
    ensures key.IsControlDown() <==> 2 in key.mask
    ensures key.IsAltDown() <==> 3 in key.mask
    ensures key.IsEmpty() <==> key == Key(0, {})
  {
    assert 15 in key.mask ==> 15 in key.mask * RELEASE_MASK;
    assert 2 in key.mask ==> 2 in key.mask * CONTROL_MASK;
    assert 3 in key.mask ==> 3 in key.mask * ALT_MASK;
  }
}
