/** Printing and parsing key events (src/scim_event.cpp:166-210, 261-338). */
module KeyString {
  import opened Common
  import opened KeyEvents
  import opened StringList
  import Numbers
  import Search
  import Strings

  datatype MaskName = MaskName(value: Mask, name: string)
  datatype KeyName = KeyName(value: uint16, name: string)

  /** `__scim_key_mask_names`, `__scim_keys_by_code` and `__scim_keys_by_name`. */
  datatype Tables = Tables(masks: seq<MaskName>, byCode: seq<KeyName>, byName: seq<KeyName>)

  const VOID_NAME: string := "VoidSymbol"

  // ----- what the tables must be like -----

  predicate LooksHex(s: string) {
    |s| >= 2 && s[0] == '0' && (s[1] == 'x' || s[1] == 'X')
  }

  ghost predicate GoodName(name: string) {
    name != [] && '+' !in name && ',' !in name && !LooksHex(name) && name != VOID_NAME
  }

  ghost predicate SingleBit(v: Mask) {
    forall a, b :: a in v && b in v ==> a == b
  }

  ghost predicate WellFormed(t: Tables) {
    && (forall m :: m in t.masks ==> SingleBit(m.value) && GoodName(m.name))
    && (forall i, j :: 0 <= i < j < |t.masks| ==> t.masks[i].name != t.masks[j].name)
    && (forall i, j :: 0 <= i < j < |t.byCode| ==> t.byCode[i].value <= t.byCode[j].value)
    && (forall i, j :: 0 <= i < j < |t.byName| ==> Strings.StrLess(t.byName[i].name, t.byName[j].name))
    && (forall e :: e in t.byCode ==> e in t.byName)
    && (forall e :: e in t.byName ==> GoodName(e.name))
    && (forall e, m :: e in t.byName && m in t.masks ==> e.name != m.name)
  }

  // ----- printing -----

  /** The mask names printed from the `i`-th on: those with a bit of the mask that no earlier name has. */
  function PrintedMasks(masks: seq<MaskName>, mask: Mask, i: nat, skip: Mask): seq<string>
    requires i <= |masks|
    decreases |masks| - i
  {
    if i == |masks| then []
    else
      var v := masks[i].value;
      var rest := PrintedMasks(masks, mask, i + 1, skip + v);
      if v * mask != {} && v * skip == {} then [masks[i].name] + rest else rest
  }

  predicate CodeLess(e: KeyName, code: int) { e.value < code }

  /** The name of the key alone, "" for the code 0 without one. */
  function CodeString(t: Tables, code: uint32): string {
    var p := Search.FirstNotLess<KeyName, int>(t.byCode, code, CodeLess);
    if code == VOID_SYMBOL then VOID_NAME
    else if code <= 0xFFFF && p < |t.byCode| && t.byCode[p].value == code && t.byCode[p].name != []
    then t.byCode[p].name
    else if code != 0 then "0x" + Numbers.Hex(code, if code <= 0xFFFF then 4 else 6)
    else ""
  }

  function CodePieces(t: Tables, code: uint32): seq<string> {
    if CodeString(t, code) == "" then [] else [CodeString(t, code)]
  }

  function Pieces(t: Tables, key: Key): seq<string> {
    PrintedMasks(t.masks, key.mask, 0, {}) + CodePieces(t, key.code)
  }

  function KeyToString(t: Tables, key: Key): string {
    Join(Pieces(t, key), '+')
  }

  lemma CodesPartitioned(t: Tables, code: int)
    requires WellFormed(t)
    ensures Search.Partitioned(t.byCode, code, CodeLess)
  {
  }

  lemma PrintedStep(masks: seq<MaskName>, mask: Mask, i: nat, skip: Mask)
    requires i < |masks|
    ensures PrintedMasks(masks, mask, i, skip) ==
            var v := masks[i].value;
            var rest := PrintedMasks(masks, mask, i + 1, skip + v);
            if v * mask != {} && v * skip == {} then [masks[i].name] + rest else rest
    ensures PrintedMasks(masks, mask, |masks|, skip) == []
  {
  }

  lemma {:induction false} PrintedAreNames(masks: seq<MaskName>, mask: Mask, i: nat, skip: Mask)
    requires i <= |masks|
    ensures forall s :: s in PrintedMasks(masks, mask, i, skip) ==> exists m :: m in masks && m.name == s
    decreases |masks| - i
  {
    if i == |masks| {
    } else {
      PrintedAreNames(masks, mask, i + 1, skip + masks[i].value);
      assert masks[i] in masks;
    }
  }

  /** The part of `get_key_string` that names the code. */
  method GetCodeString(t: Tables, code: uint32) returns (codestr: string)
    requires WellFormed(t)
    ensures codestr == CodeString(t, code)
  {
    codestr := "";
    if code == VOID_SYMBOL {
      codestr := VOID_NAME;
    } else if code <= 0xFFFF {
      CodesPartitioned(t, code);
      var it := Search.LowerBound<KeyName, int>(t.byCode, code, CodeLess);
      if it < |t.byCode| && t.byCode[it].value == code {
        codestr := t.byCode[it].name;
      }
    }
    if |codestr| == 0 && code != 0 {
      codestr := "0x" + Numbers.Hex(code, if code <= 0xFFFF then 4 else 6);
    }
  }

  lemma JoinedPieces(t: Tables, key: Key)
    ensures var names, code := PrintedMasks(t.masks, key.mask, 0, {}), CodeString(t, key.code);
            KeyToString(t, key) ==
            if names != [] && code != [] then Join(names, '+') + ("+" + code)
            else if names != [] then Join(names, '+') else code
  {
    var names, code := PrintedMasks(t.masks, key.mask, 0, {}), CodeString(t, key.code);
    if names != [] && code != [] {
      JoinSnoc(names, code, '+');
    } else if names != [] {
      assert Pieces(t, key) == names;
    } else {
      assert Pieces(t, key) == CodePieces(t, key.code);
    }
  }

  /** The loop that names the mask is at `i` and has printed `names`. */
  ghost predicate NamedUpTo(masks: seq<MaskName>, mask: Mask, names: seq<string>, i: nat, skip: Mask)
    requires i <= |masks|
  {
    names + PrintedMasks(masks, mask, i, skip) == PrintedMasks(masks, mask, 0, {})
  }

  lemma NamedStep(masks: seq<MaskName>, mask: Mask, names: seq<string>, i: nat, skip: Mask)
    requires i < |masks| && NamedUpTo(masks, mask, names, i, skip)
    ensures var v := masks[i].value;
            NamedUpTo(masks, mask, if v * mask != {} && v * skip == {} then names + [masks[i].name] else names,
                      i + 1, skip + v)
  {
  }

  lemma NamedAll(masks: seq<MaskName>, mask: Mask, names: seq<string>, skip: Mask)
    requires NamedUpTo(masks, mask, names, |masks|, skip)
    ensures names == PrintedMasks(masks, mask, 0, {})
  {
  }

  /** The loop of `get_key_string` that names the mask. */
  method GetMaskString(t: Tables, mask: Mask) returns (maskstr: string)
    requires WellFormed(t)
    ensures var names := PrintedMasks(t.masks, mask, 0, {});
            maskstr == Join(names, '+') && (maskstr == [] <==> names == [])
  {
    maskstr := "";
    var maskSkip: Mask := {};
    ghost var names: seq<string> := [];
    assert NamedUpTo(t.masks, mask, [], 0, {});
    hide NamedUpTo, PrintedMasks;
    for i := 0 to |t.masks|
      invariant NamedUpTo(t.masks, mask, names, i, maskSkip)
      invariant maskstr == Join(names, '+') && (maskstr == [] <==> names == [])
    {
      var m := t.masks[i];
      assert m in t.masks;
      NamedStep(t.masks, mask, names, i, maskSkip);
      if m.value * mask != {} && m.value * maskSkip == {} {
        if |maskstr| != 0 {
          JoinSnoc(names, m.name, '+');
          maskstr := maskstr + ("+" + m.name);
        } else {
          maskstr := maskstr + m.name;
        }
        names := names + [m.name];
      }
      maskSkip := maskSkip + m.value;
    }
    NamedAll(t.masks, mask, names, maskSkip);
  }

  method GetKeyString(t: Tables, key: Key) returns (str: string)
    requires WellFormed(t)
    ensures str == KeyToString(t, key)
  {
    var maskstr := GetMaskString(t, key.mask);
    var codestr := GetCodeString(t, key.code);
    JoinedPieces(t, key);
    if |maskstr| != 0 && |codestr| != 0 {
      return maskstr + ("+" + codestr);
    }
    if |maskstr| != 0 { return maskstr; }
    str := codestr;
  }

  // ----- parsing -----

  function FindMask(masks: seq<MaskName>, name: string): (value: Option<Mask>)
  {
    if masks == [] then None
    else if masks[0].name == name then Some(masks[0].value)
    else FindMask(masks[1..], name)
  }

  predicate NameLess(e: KeyName, name: string) { Strings.StrLess(e.name, name) }

  function ParsePiece(t: Tables, piece: string, key: Key): Key {
    match FindMask(t.masks, piece)
    case Some(value) => key.(mask := key.mask + value)
    case None =>
      var p := Search.FirstNotLess(t.byName, piece, NameLess);
      if p < |t.byName| && t.byName[p].name == piece then key.(code := t.byName[p].value)
      else if |piece| >= 6 && LooksHex(piece)
      then key.(code := Numbers.Strtol(piece[2..], Numbers.Sixteen) % 0x1_0000_0000)
      else if p < |t.byName| && t.byName[p].name == VOID_NAME then key.(code := VOID_SYMBOL)
      else key
  }

  function ParsePieces(t: Tables, pieces: seq<string>, key: Key): Key {
    if pieces == [] then key else ParsePieces(t, pieces[1..], ParsePiece(t, pieces[0], key))
  }

  /** The key, and whether it is one: the code 0 is none. */
  function StringToKey(t: Tables, str: string): (Key, bool) {
    var key := ParsePieces(t, Split(str, '+'), Key(0, {}));
    (key, key.code != 0)
  }

  lemma NamesPartitioned(t: Tables, name: string)
    requires WellFormed(t)
    ensures Search.Partitioned(t.byName, name, NameLess)
  {
    forall i, j | 0 <= i < j < |t.byName| && NameLess(t.byName[j], name) ensures NameLess(t.byName[i], name) {
      Strings.Transitive(t.byName[i].name, t.byName[j].name, name);
    }
  }

  method ParseKey(t: Tables, str: string) returns (key: Key, ok: bool)
    requires WellFormed(t)
    ensures (key, ok) == StringToKey(t, str)
  {
    key := Key(0, {});
    var list, n := SplitStringList(str, '+');
    assert list[0..] == list;
    for k := 0 to n
      invariant ParsePieces(t, list[k..], key) == ParsePieces(t, list, Key(0, {}))
    {
      assert list[k..][1..] == list[k + 1..] && list[k..][0] == list[k];
      var behind;
      key, behind := ApplyPiece(t, list[k], key);
    }
    ok := key.code != 0;
  }

  /** A piece that is no mask name and no hexadecimal code, and sorts above every key name. */
  ghost predicate IsBehindTable(t: Tables, piece: string) {
    && (forall m :: m in t.masks ==> m.name != piece)
    && !(|piece| >= 6 && LooksHex(piece))
    && (forall e :: e in t.byName ==> Strings.StrLess(e.name, piece))
  }

  /** Such a piece is the one for which the search ends behind the table and no test comes before the
      look at the entry found. */
  lemma {:induction false} SearchedBehind(t: Tables, piece: string)
    requires WellFormed(t)
    ensures IsBehindTable(t, piece) <==>
            && FindMask(t.masks, piece).None? && !(|piece| >= 6 && LooksHex(piece))
            && Search.FirstNotLess(t.byName, piece, NameLess) == |t.byName|
  {
    hide Strings.StrLess, WellFormed, LooksHex;
    var p := Search.FirstNotLess(t.byName, piece, NameLess);
    if forall m :: m in t.masks ==> m.name != piece {
      FindMaskNone(t.masks, piece);
    } else {
      FindMaskSome(t.masks, piece);
    }
    assert forall e :: e in t.byName ==> (NameLess(e, piece) <==> Strings.StrLess(e.name, piece));
    assert p < |t.byName| ==> !NameLess(t.byName[p], piece) && t.byName[p] in t.byName;
  }

  lemma {:induction false} FindMaskSome(masks: seq<MaskName>, name: string)
    requires exists m :: m in masks && m.name == name
    ensures FindMask(masks, name).Some?
  {
    if masks[0].name == name {
    } else {
      assert masks == [masks[0]] + masks[1..];
      FindMaskSome(masks[1..], name);
    }
  }

  /** The body of the parser's loop. `behind` tells that the source looks at the name behind the last
      one of the table, whatever stands there; the key is then what it is if that is not "VoidSymbol". */
  method ApplyPiece(t: Tables, piece: string, before: Key) returns (key: Key, behind: bool)
    requires WellFormed(t)
    ensures key == ParsePiece(t, piece, before)
    ensures behind <==> IsBehindTable(t, piece)
  {
    key, behind := before, false;
    SearchedBehind(t, piece);
    assert t.masks[0..] == t.masks;
    for i := 0 to |t.masks|
      invariant FindMask(t.masks[i..], piece) == FindMask(t.masks, piece)
    {
      assert t.masks[i..][1..] == t.masks[i + 1..];
      if piece == t.masks[i].name {
        return key.(mask := key.mask + t.masks[i].value), false;
      }
    }
    NamesPartitioned(t, piece);
    var p := Search.LowerBound(t.byName, piece, NameLess);
    if p < |t.byName| && t.byName[p].name == piece {
      key := key.(code := t.byName[p].value);
    } else if |piece| >= 6 && piece[0] == '0' && (piece[1] == 'x' || piece[1] == 'X') {
      key := key.(code := Numbers.Strtol(piece[2..], Numbers.Sixteen) % 0x1_0000_0000);
    } else if p == |t.byName| {
      behind := true;
    } else if t.byName[p].name == VOID_NAME {
      key := key.(code := VOID_SYMBOL);
    }
  }

  // ----- what text is printed -----

  /** A code that has a name is printed as the first of its names. */
  lemma {:induction false} NamedCodeText(t: Tables, i: nat)
    requires WellFormed(t) && i < |t.byCode| && forall j :: 0 <= j < i ==> t.byCode[j].value != t.byCode[i].value
    ensures KeyToString(t, Key(t.byCode[i].value, {})) == t.byCode[i].name
  {
    var code := t.byCode[i].value;
    var p := Search.FirstNotLess<KeyName, int>(t.byCode, code, CodeLess);
    assert t.byCode[i] in t.byName;
    assert !CodeLess(t.byCode[i], code);
    assert p <= i && t.byCode[p].value == code;
    NoMaskText(t, code);
  }

  lemma {:induction false} NoMaskText(t: Tables, code: uint32)
    ensures KeyToString(t, Key(code, {})) == CodeString(t, code)
  {
    NoMasksPrinted(t.masks, 0, {});
    assert Pieces(t, Key(code, {})) == CodePieces(t, code);
  }

  lemma {:induction false} NoMasksPrinted(masks: seq<MaskName>, i: nat, skip: Mask)
    requires i <= |masks|
    ensures PrintedMasks(masks, {}, i, skip) == []
    decreases |masks| - i
  {
    if i == |masks| {
    } else {
      NoMasksPrinted(masks, i + 1, skip + masks[i].value);
    }
  }

  /** Any other code is printed in hexadecimal, with four digits or, above 16 bits, with six or more; only
      VoidSymbol has its own text, and the code 0 none. */
  lemma {:induction false} UnnamedCodeText(t: Tables, code: uint32)
    requires WellFormed(t) && forall e :: e in t.byCode ==> e.value != code
    ensures KeyToString(t, Key(code, {})) ==
            if code == 0 then ""
            else if code == 0xFF_FFFF then "VoidSymbol"
            else if code < 0x1_0000 then "0x" + Numbers.Hex(code, 4) else "0x" + Numbers.Hex(code, 6)
  {
    hide WellFormed, Numbers.Hex;
    var p := Search.FirstNotLess<KeyName, int>(t.byCode, code, CodeLess);
    assert p < |t.byCode| ==> t.byCode[p] in t.byCode;
    NoMaskText(t, code);
  }

  /** No name before the one at the place stands for a bit of it. */
  ghost predicate NoneBefore(masks: seq<MaskName>, i: nat)
    requires i < |masks|
  {
    forall j :: 0 <= j < i ==> masks[j].value * masks[i].value == {}
  }

  /** `skip` has the bits of the names before the place. */
  ghost predicate SkipIs(masks: seq<MaskName>, i: nat, skip: Mask)
    requires i <= |masks|
  {
    forall b :: b in skip <==> exists j :: 0 <= j < i && b in masks[j].value
  }

  /** The mask names printed stand in the order of the table, and are those with a bit of the mask that
      no name before them in the table has. `at` tells their places. */
  lemma {:induction false} MaskNamesInOrder(masks: seq<MaskName>, mask: Mask) returns (at: seq<nat>)
    ensures |at| == |PrintedMasks(masks, mask, 0, {})|
    ensures forall k :: 0 <= k < |at| ==>
              at[k] < |masks| && PrintedMasks(masks, mask, 0, {})[k] == masks[at[k]].name
    ensures forall j, k :: 0 <= j < k < |at| ==> at[j] < at[k]
    ensures forall i :: 0 <= i < |masks| ==>
              (i in at <==> masks[i].value * mask != {} && NoneBefore(masks, i))
  {
    at := MaskNamesFrom(masks, mask, 0, {});
  }

  lemma {:induction false} MaskNamesFrom(masks: seq<MaskName>, mask: Mask, i: nat, skip: Mask) returns (at: seq<nat>)
    requires i <= |masks|
    requires SkipIs(masks, i, skip)
    ensures var names := PrintedMasks(masks, mask, i, skip);
            |at| == |names| && forall k :: 0 <= k < |at| ==> i <= at[k] < |masks| && names[k] == masks[at[k]].name
    ensures forall j, k :: 0 <= j < k < |at| ==> at[j] < at[k]
    ensures forall n :: i <= n < |masks| ==>
              (n in at <==> masks[n].value * mask != {} && NoneBefore(masks, n))
    decreases |masks| - i
  {
    hide NoneBefore, PrintedMasks;
    PrintedStepAt(masks, mask, i, skip);
    if i == |masks| {
      at := [];
    } else {
      var v := masks[i].value;
      SkippedSoFar(masks, i, skip);
      var rest := MaskNamesFrom(masks, mask, i + 1, skip + v);
      at := if v * mask != {} && v * skip == {} then [i] + rest else rest;
    }
  }

  lemma {:induction false} SkippedSoFar(masks: seq<MaskName>, i: nat, skip: Mask)
    requires i < |masks| && SkipIs(masks, i, skip)
    ensures masks[i].value * skip == {} <==> NoneBefore(masks, i)
    ensures SkipIs(masks, i + 1, skip + masks[i].value)
  {
    var v := masks[i].value;
    if v * skip != {} {
      var b :| b in v * skip;
      var j :| 0 <= j < i && b in masks[j].value;
      assert b in masks[j].value * v;
    } else {
      forall j | 0 <= j < i ensures masks[j].value * v == {} {
        forall b ensures b !in masks[j].value * v {
          assert b in masks[j].value && b in v ==> b in v * skip;
        }
      }
    }
  }

  lemma PrintedStepAt(masks: seq<MaskName>, mask: Mask, i: nat, skip: Mask)
    requires i <= |masks|
    ensures PrintedMasks(masks, mask, i, skip) ==
            if i == |masks| then []
            else
              var v := masks[i].value;
              var rest := PrintedMasks(masks, mask, i + 1, skip + v);
              if v * mask != {} && v * skip == {} then [masks[i].name] + rest else rest
  {
  }

  // ----- a printed key is parsed back -----

  /** All bits that have a name, from the `i`-th name on. */
  function NamedBits(masks: seq<MaskName>, i: nat): Mask
    requires i <= |masks|
    decreases |masks| - i
  {
    if i == |masks| then {} else masks[i].value + NamedBits(masks, i + 1)
  }

  function Restrict(t: Tables, key: Key): Key {
    Key(key.code, key.mask * NamedBits(t.masks, 0))
  }

  /** The keys whose printed form is a key again. */
  predicate Survives(key: Key) {
    key.code != 0 && key.code != VOID_SYMBOL
  }

  /** A key that is printed and parsed as itself. */
  ghost predicate KeySurvives(t: Tables, key: Key) {
    Survives(key) && Restrict(t, key) == key
  }

  lemma MaskBits(v: Mask, mask: Mask, skip: Mask, rest: Mask, acc: Mask)
    requires SingleBit(v)
    ensures v * mask != {} && v * skip == {} ==>
            (acc + v) + (mask * rest - (skip + v)) == acc + (mask * (v + rest) - skip)
    ensures !(v * mask != {} && v * skip == {}) ==>
            acc + (mask * rest - (skip + v)) == acc + (mask * (v + rest) - skip)
  {
    if v * mask == {} {
      assert forall x :: x in v && x in mask ==> x in v * mask;
    } else if v * skip != {} {
      assert v <= skip;
    } else {
      assert v <= mask;
    }
  }

  lemma {:induction false} FindMaskAt(masks: seq<MaskName>, i: nat)
    requires i < |masks|
    requires forall a, b :: 0 <= a < b < |masks| ==> masks[a].name != masks[b].name
    ensures FindMask(masks, masks[i].name) == Some(masks[i].value)
  {
    if i == 0 {
    } else {
      FindMaskAt(masks[1..], i - 1);
    }
  }

  lemma {:induction false} FindMaskNone(masks: seq<MaskName>, name: string)
    requires forall m :: m in masks ==> m.name != name
    ensures FindMask(masks, name) == None
  {
    if masks == [] {
    } else {
      assert masks[0] in masks;
      FindMaskNone(masks[1..], name);
    }
  }

  lemma ParseFirst(t: Tables, piece: string, rest: seq<string>, key: Key)
    ensures ParsePieces(t, [piece] + rest, key) == ParsePieces(t, rest, ParsePiece(t, piece, key))
  {
  }

  lemma MaskPiece(t: Tables, i: nat, key: Key)
    requires WellFormed(t) && i < |t.masks|
    ensures ParsePiece(t, t.masks[i].name, key) == key.(mask := key.mask + t.masks[i].value)
  {
    FindMaskAt(t.masks, i);
  }

  /** The printed mask names put back the bits of the mask that have a name: a name is left out only
      when an earlier one put back its bit. */
  lemma {:induction false} ParsePrintedMasks(t: Tables, mask: Mask, i: nat, skip: Mask, rest: seq<string>, acc: Mask)
    requires WellFormed(t) && i <= |t.masks|
    ensures ParsePieces(t, PrintedMasks(t.masks, mask, i, skip) + rest, Key(0, acc)) ==
            ParsePieces(t, rest, Key(0, acc + (mask * NamedBits(t.masks, i) - skip)))
    decreases |t.masks| - i
  {
    hide ParsePieces, ParsePiece, PrintedMasks;
    if i == |t.masks| {
      PrintedNothing(t.masks, mask, skip, rest);
      assert acc + (mask * {} - skip) == acc;
    } else {
      var m := t.masks[i];
      assert m in t.masks;
      PrintedStep(t.masks, mask, i, skip);
      MaskBits(m.value, mask, skip, NamedBits(t.masks, i + 1), acc);
      var others := PrintedMasks(t.masks, mask, i + 1, skip + m.value);
      if m.value * mask != {} && m.value * skip == {} {
        assert [m.name] + others + rest == [m.name] + (others + rest);
        MaskPiece(t, i, Key(0, acc));
        ParseFirst(t, m.name, others + rest, Key(0, acc));
        ParsePrintedMasks(t, mask, i + 1, skip + m.value, rest, acc + m.value);
      } else {
        ParsePrintedMasks(t, mask, i + 1, skip + m.value, rest, acc);
      }
    }
  }

  lemma PrintedNothing(masks: seq<MaskName>, mask: Mask, skip: Mask, rest: seq<string>)
    ensures PrintedMasks(masks, mask, |masks|, skip) + rest == rest
  {
  }

  /** The search by name finds an entry that is there. */
  lemma FindName(t: Tables, e: KeyName)
    requires WellFormed(t) && e in t.byName
    ensures var p := Search.FirstNotLess(t.byName, e.name, NameLess);
            p < |t.byName| && t.byName[p] == e
  {
    var p := Search.FirstNotLess(t.byName, e.name, NameLess);
    var j :| 0 <= j < |t.byName| && t.byName[j] == e;
    Strings.Irreflexive(e.name);
    assert !NameLess(t.byName[j], e.name);
    assert p <= j;
    if p < j { assert false; }
  }

  lemma ParseHex(t: Tables, code: uint32, width: nat, key: Key)
    requires WellFormed(t) && width >= 4
    ensures ParsePiece(t, "0x" + Numbers.Hex(code, width), key) == key.(code := code)
  {
    hide Numbers.Hex, Numbers.Strtol, SingleBit, Strings.StrLess, FindMask, NameLess;
    var piece := "0x" + Numbers.Hex(code, width);
    FindMaskNone(t.masks, piece);
    Numbers.HexRoundTrip(code, width);
    assert piece[2..] == Numbers.Hex(code, width);
  }

  lemma ParseName(t: Tables, e: KeyName, key: Key)
    requires WellFormed(t) && e in t.byName
    ensures ParsePiece(t, e.name, key) == key.(code := e.value)
  {
    FindMaskNone(t.masks, e.name);
    FindName(t, e);
  }

  lemma ParseVoid(t: Tables, key: Key)
    requires WellFormed(t)
    ensures ParsePiece(t, VOID_NAME, key) == key
  {
    FindMaskNone(t.masks, VOID_NAME);
  }

  lemma {:induction false} ParseCode(t: Tables, code: uint32, mask: Mask)
    requires WellFormed(t)
    ensures ParsePieces(t, CodePieces(t, code), Key(0, mask)) ==
            Key(if code == VOID_SYMBOL then 0 else code, mask)
  {
    hide ParsePiece;
    var piece := CodeString(t, code);
    var p := Search.FirstNotLess<KeyName, int>(t.byCode, code, CodeLess);
    if piece != "" {
      ParseFirst(t, piece, [], Key(0, mask));
      assert [piece] + [] == [piece];
      if code == VOID_SYMBOL {
        ParseVoid(t, Key(0, mask));
      } else if code <= 0xFFFF && p < |t.byCode| && t.byCode[p].value == code {
        assert t.byCode[p] in t.byCode;
        ParseName(t, t.byCode[p], Key(0, mask));
      } else {
        ParseHex(t, code, if code <= 0xFFFF then 4 else 6, Key(0, mask));
      }
    }
  }

  ghost predicate GoodPiece(s: string) {
    s != [] && '+' !in s && ',' !in s
  }

  lemma CodePieceIsGood(t: Tables, code: uint32)
    requires WellFormed(t)
    ensures CodeString(t, code) == [] || GoodPiece(CodeString(t, code))
  {
    var p := Search.FirstNotLess<KeyName, int>(t.byCode, code, CodeLess);
    assert p < |t.byCode| ==> t.byCode[p] in t.byCode;
    var width := if code <= 0xFFFF then 4 else 6;
    Numbers.HexRoundTrip(code, width);
    HexIsGood(Numbers.Hex(code, width));
  }

  lemma HexIsGood(digits: string)
    requires Numbers.AllDigits(digits, Numbers.Sixteen)
    ensures GoodPiece("0x" + digits)
  {
  }

  lemma PiecesAreGood(t: Tables, key: Key)
    requires WellFormed(t)
    ensures forall s :: s in Pieces(t, key) ==> GoodPiece(s)
    ensures Joinable(Pieces(t, key), '+')
  {
    PrintedAreNames(t.masks, key.mask, 0, {});
    CodePieceIsGood(t, key.code);
    var pieces := Pieces(t, key);
    forall s | s in pieces ensures GoodPiece(s) {
      if s in PrintedMasks(t.masks, key.mask, 0, {}) {
        var m :| m in t.masks && m.name == s;
      }
    }
    assert pieces != [] ==> pieces[|pieces| - 1] in pieces;
  }

  /** Parsing a printed key gives its code and the named bits of its mask, exactly when the code is
      neither 0 nor VoidSymbol; those two never give a key. */
  lemma KeyRoundTrip(t: Tables, key: Key)
    requires WellFormed(t)
    ensures Survives(key) ==> StringToKey(t, KeyToString(t, key)) == (Restrict(t, key), true)
    ensures !Survives(key) ==> !StringToKey(t, KeyToString(t, key)).1
  {
    hide PrintedMasks, CodePieces, ParsePieces, NamedBits, Split, Join;
    var pieces := Pieces(t, key);
    PiecesAreGood(t, key);
    RoundTrip(pieces, '+');
    ParsePrintedMasks(t, key.mask, 0, {}, CodePieces(t, key.code), {});
    var bits := NamedBits(t.masks, 0);
    assert {} + (key.mask * bits - {}) == key.mask * bits;
    ParseCode(t, key.code, key.mask * bits);
  }

  /** A piece of at least six characters that begins with "0x" or "0X" and is no name is a hexadecimal
      code; any other piece that is no name changes nothing. */
  lemma {:induction false} UnnamedPiece(t: Tables, piece: string, key: Key)
    requires WellFormed(t)
    requires (forall m :: m in t.masks ==> m.name != piece) && forall e :: e in t.byName ==> e.name != piece
    ensures ParsePiece(t, piece, key) ==
            if |piece| >= 6 && piece[0] == '0' && (piece[1] == 'x' || piece[1] == 'X')
            then key.(code := Numbers.Strtol(piece[2..], Numbers.Sixteen) % 0x1_0000_0000)
            else key
  {
    hide Numbers.Strtol, Strings.StrLess;
    FindMaskNone(t.masks, piece);
    var p := Search.FirstNotLess(t.byName, piece, NameLess);
    assert p < |t.byName| ==> t.byName[p] in t.byName;
  }

  /** Parsing a printed key looks behind the table for the piece "VoidSymbol" at most. */
  lemma {:induction false} PrintedIsInTable(t: Tables, key: Key, piece: string)
    requires WellFormed(t) && piece in Pieces(t, key)
    ensures IsBehindTable(t, piece) ==> key.code == VOID_SYMBOL && piece == VOID_NAME
  {
    hide Strings.StrLess, PrintedMasks;
    PrintedAreNames(t.masks, key.mask, 0, {});
    var p := Search.FirstNotLess<KeyName, int>(t.byCode, key.code, CodeLess);
    if piece !in PrintedMasks(t.masks, key.mask, 0, {}) && key.code != VOID_SYMBOL {
      if key.code <= 0xFFFF && p < |t.byCode| && t.byCode[p].value == key.code {
        assert t.byCode[p] in t.byCode;
        Strings.Irreflexive(piece);
      } else {
        Numbers.HexRoundTrip(key.code, if key.code <= 0xFFFF then 4 else 6);
      }
    }
  }

  // ----- lists of keys -----

  function KeyStrings(t: Tables, keys: seq<Key>): seq<string> {
    if keys == [] then []
    else
      var before, str := KeyStrings(t, keys[..|keys| - 1]), KeyToString(t, keys[|keys| - 1]);
      if str == [] then before else before + [str]
  }

  function KeyListToString(t: Tables, keys: seq<Key>): string {
    Join(KeyStrings(t, keys), ',')
  }

  function ParsedKeys(t: Tables, strs: seq<string>): seq<Key> {
    if strs == [] then []
    else
      var before, parsed := ParsedKeys(t, strs[..|strs| - 1]), StringToKey(t, strs[|strs| - 1]);
      if parsed.1 then before + [parsed.0] else before
  }

  function StringToKeyList(t: Tables, str: string): seq<Key> {
    ParsedKeys(t, Split(str, ','))
  }

  method PrintKeyList(t: Tables, keys: seq<Key>) returns (str: string, ok: bool)
    requires WellFormed(t)
    ensures str == KeyListToString(t, keys) && ok == (str != [])
  {
    var strlist: seq<string> := [];
    for i := 0 to |keys|
      invariant strlist == KeyStrings(t, keys[..i])
    {
      assert keys[..i + 1][..i] == keys[..i];
      var s := GetKeyString(t, keys[i]);
      if |s| != 0 {
        strlist := strlist + [s];
      }
    }
    assert keys[..|keys|] == keys;
    str := CombineStringList(strlist, ',');
    ok := |str| != 0;
  }

  method ParseKeyList(t: Tables, str: string) returns (keys: seq<Key>, ok: bool)
    requires WellFormed(t)
    ensures keys == StringToKeyList(t, str) && ok == (keys != [])
  {
    var strlist, n := SplitStringList(str, ',');
    keys := [];
    for i := 0 to n
      invariant keys == ParsedKeys(t, strlist[..i])
    {
      assert strlist[..i + 1][..i] == strlist[..i];
      var key, good := ParseKey(t, strlist[i]);
      if good {
        keys := keys + [key];
      }
    }
    assert strlist[..n] == strlist;
    ok := |keys| > 0;
  }

  lemma KeyStringHasNoComma(t: Tables, key: Key)
    requires WellFormed(t)
    ensures ',' !in KeyToString(t, key)
    ensures KeyToString(t, key) == [] ==> !StringToKey(t, []).1
  {
    PiecesAreGood(t, key);
    JoinAvoids(Pieces(t, key), '+', ',');
  }

  /** The keys of a list that survive, with the named bits of their masks. */
  function Surviving(t: Tables, keys: seq<Key>): seq<Key> {
    if keys == [] then []
    else
      var before, last := Surviving(t, keys[..|keys| - 1]), keys[|keys| - 1];
      if Survives(last) then before + [Restrict(t, last)] else before
  }

  lemma ParsedAppend(t: Tables, strs: seq<string>, str: string)
    ensures ParsedKeys(t, strs + [str]) ==
            var before, parsed := ParsedKeys(t, strs), StringToKey(t, str);
            if parsed.1 then before + [parsed.0] else before
  {
  }

  lemma {:induction false} ParsedStrings(t: Tables, keys: seq<Key>)
    requires WellFormed(t)
    ensures ParsedKeys(t, KeyStrings(t, keys)) == Surviving(t, keys)
    ensures forall s :: s in KeyStrings(t, keys) ==> s != [] && ',' !in s
  {
    hide StringToKey, KeyToString, Restrict;
    if keys == [] {
    } else {
      var front, last := keys[..|keys| - 1], keys[|keys| - 1];
      ParsedStrings(t, front);
      KeyRoundTrip(t, last);
      var str := KeyToString(t, last);
      KeyStringHasNoComma(t, last);
      if str == [] {
        assert !Survives(last);
      } else {
        ParsedAppend(t, KeyStrings(t, front), str);
      }
    }
  }

  lemma {:induction false} KeyListIsJoin(t: Tables, keys: seq<Key>)
    requires forall s :: s in KeyStrings(t, keys) ==> s != [] && ',' !in s
    ensures StringToKeyList(t, KeyListToString(t, keys)) ==
            ParsedKeys(t, Split(Join(KeyStrings(t, keys), ','), ','))
    ensures Joinable(KeyStrings(t, keys), ',')
  {
    var strs := KeyStrings(t, keys);
    assert strs != [] ==> strs[|strs| - 1] in strs;
  }

  /** A printed list of keys is parsed into the keys that survive, in order, whatever else it held. */
  lemma KeyListRoundTrip(t: Tables, keys: seq<Key>)
    requires WellFormed(t)
    ensures StringToKeyList(t, KeyListToString(t, keys)) == Surviving(t, keys)
  {
    hide *;
    ParsedStrings(t, keys);
    KeyListIsJoin(t, keys);
    RoundTrip(KeyStrings(t, keys), ',');
  }

  /** The hexadecimal form of a code is read as the key of that code alone. */
  lemma {:induction false} HexKeyList(t: Tables, code: uint32, width: nat)
    requires WellFormed(t) && width >= 4 && code != 0
    ensures StringToKeyList(t, "0x" + Numbers.Hex(code, width)) == [Key(code, {})]
  {
    hide ParsePiece, Split, WellFormed, Numbers.Hex;
    var piece := "0x" + Numbers.Hex(code, width);
    Numbers.HexRoundTrip(code, width);
    HexIsGood(Numbers.Hex(code, width));
    RoundTrip([piece], ',');
    RoundTrip([piece], '+');
    assert Join([piece], ',') == piece && Join([piece], '+') == piece;
    ParseHex(t, code, width, Key(0, {}));
    ParseFirst(t, piece, [], Key(0, {}));
    ParsedAppend(t, [], piece);
    assert [piece] + [] == [piece] == [] + [piece];
  }

  // ----- texts of keys with modifiers -----

  function Names(ms: seq<MaskName>): (names: seq<string>)
    ensures |names| == |ms| && forall i :: 0 <= i < |ms| ==> names[i] == ms[i].name
  {
    seq(|ms|, i requires 0 <= i < |ms| => ms[i].name)
  }

  function Bits(ms: seq<MaskName>): Mask {
    if ms == [] then {} else ms[0].value + Bits(ms[1..])
  }

  lemma {:induction false} MasksAreRead(t: Tables, ms: seq<MaskName>, rest: seq<string>, key: Key)
    requires WellFormed(t) && forall m :: m in ms ==> m in t.masks
    ensures ParsePieces(t, Names(ms) + rest, key) == ParsePieces(t, rest, key.(mask := key.mask + Bits(ms)))
  {
    hide ParsePieces, ParsePiece, WellFormed;
    if ms == [] {
      assert Names(ms) + rest == rest;
      assert key.mask + {} == key.mask;
    } else {
      assert ms[0] in ms;
      var i :| 0 <= i < |t.masks| && t.masks[i] == ms[0];
      assert Names(ms) + rest == [ms[0].name] + (Names(ms[1..]) + rest);
      ParseFirst(t, ms[0].name, Names(ms[1..]) + rest, key);
      MaskPiece(t, i, key);
      MasksAreRead(t, ms[1..], rest, key.(mask := key.mask + ms[0].value));
      assert key.mask + ms[0].value + Bits(ms[1..]) == key.mask + Bits(ms);
    }
  }

  /** The pieces of a key: modifiers, the key's name, and modifiers behind it. */
  function Chord(ms: seq<MaskName>, e: KeyName, rs: seq<MaskName>): seq<string> {
    Names(ms) + ([e.name] + Names(rs))
  }

  /** Whatever modifiers are named, in whatever order, the text is read as the code of the key with all
      their bits. */
  lemma {:induction false} ChordIsRead(t: Tables, ms: seq<MaskName>, e: KeyName, rs: seq<MaskName>)
    requires WellFormed(t) && e in t.byName && e.value != 0
    requires forall m :: m in ms + rs ==> m in t.masks
    ensures var text := Join(Chord(ms, e, rs), '+');
            StringToKey(t, text) == (Key(e.value, Bits(ms) + Bits(rs)), true) && ',' !in text
  {
    hide ParsePieces, ParsePiece, Split, Join, Names, Bits;
    var pieces := Chord(ms, e, rs);
    ChordIsGood(t, ms, e, rs);
    RoundTrip(pieces, '+');
    JoinAvoids(pieces, '+', ',');
    assert forall m :: m in ms ==> m in ms + rs;
    assert forall m :: m in rs ==> m in ms + rs;
    MasksAreRead(t, ms, [e.name] + Names(rs), Key(0, {}));
    ParseFirst(t, e.name, Names(rs), Key(0, {} + Bits(ms)));
    ParseName(t, e, Key(0, {} + Bits(ms)));
    MasksAreRead(t, rs, [], Key(e.value, {} + Bits(ms)));
    assert Names(rs) + [] == Names(rs);
    NothingToRead(t, Key(e.value, {} + Bits(ms) + Bits(rs)));
    assert {} + Bits(ms) + Bits(rs) == Bits(ms) + Bits(rs);
  }

  lemma NothingToRead(t: Tables, key: Key)
    ensures ParsePieces(t, [], key) == key
  {
  }

  lemma {:induction false} ChordIsGood(t: Tables, ms: seq<MaskName>, e: KeyName, rs: seq<MaskName>)
    requires WellFormed(t) && e in t.byName && forall m :: m in ms + rs ==> m in t.masks
    ensures Joinable(Chord(ms, e, rs), '+') && forall s :: s in Chord(ms, e, rs) ==> ',' !in s
  {
    hide Join;
    var pieces := Chord(ms, e, rs);
    forall i | 0 <= i < |pieces| ensures GoodPiece(pieces[i]) {
      if i < |ms| {
        assert pieces[i] == ms[i].name && ms[i] in ms + rs;
      } else if i == |ms| {
        assert pieces[i] == e.name;
      } else {
        assert pieces[i] == rs[i - |ms| - 1].name && rs[i - |ms| - 1] in ms + rs;
      }
    }
  }

  /** A list of texts, each of which is a key, is read as the list of these keys. */
  lemma {:induction false} KeysAreRead(t: Tables, texts: seq<string>, keys: seq<Key>)
    requires |texts| == |keys| && forall i :: 0 <= i < |texts| ==> StringToKey(t, texts[i]) == (keys[i], true)
    ensures ParsedKeys(t, texts) == keys
  {
    hide StringToKey;
    if texts == [] {
    } else {
      var n := |texts| - 1;
      KeysAreRead(t, texts[..n], keys[..n]);
      assert keys == keys[..n] + [keys[n]];
    }
  }

  lemma {:induction false} TextsAreRead(t: Tables, texts: seq<string>, keys: seq<Key>)
    requires |texts| == |keys| && forall i :: 0 <= i < |texts| ==> StringToKey(t, texts[i]) == (keys[i], true)
    requires forall i :: 0 <= i < |texts| ==> texts[i] != [] && ',' !in texts[i]
    ensures StringToKeyList(t, Join(texts, ',')) == keys
  {
    hide StringToKey, ParsedKeys;
    RoundTrip(texts, ',');
    KeysAreRead(t, texts, keys);
  }

  /** A key with a named code is printed as its modifiers and the first name of the code. */
  lemma {:induction false} ChordText(t: Tables, mask: Mask, i: nat)
    requires WellFormed(t) && i < |t.byCode| && forall j :: 0 <= j < i ==> t.byCode[j].value != t.byCode[i].value
    ensures KeyToString(t, Key(t.byCode[i].value, mask)) ==
            Join(PrintedMasks(t.masks, mask, 0, {}) + [t.byCode[i].name], '+')
  {
    hide PrintedMasks, CodeString, WellFormed;
    NamedCodeText(t, i);
    NoMaskText(t, t.byCode[i].value);
    NameNotEmpty(t, i);
  }

  lemma NameNotEmpty(t: Tables, i: nat)
    requires WellFormed(t) && i < |t.byCode|
    ensures t.byCode[i].name != []
  {
    assert t.byCode[i] in t.byName;
  }

  // ----- what parsing can give -----

  lemma {:induction false} FoundMaskIsNamed(masks: seq<MaskName>, i: nat, name: string)
    requires i <= |masks|
    ensures var found := FindMask(masks[i..], name);
            found.Some? ==> found.value <= NamedBits(masks, i)
    decreases |masks| - i
  {
    if i == |masks| {
    } else {
      assert masks[i..][1..] == masks[i + 1..];
      FoundMaskIsNamed(masks, i + 1, name);
    }
  }

  lemma PieceMaskIsNamed(t: Tables, piece: string, key: Key)
    requires key.mask <= NamedBits(t.masks, 0)
    ensures ParsePiece(t, piece, key).mask <= NamedBits(t.masks, 0)
  {
    FoundMaskIsNamed(t.masks, 0, piece);
    assert t.masks[0..] == t.masks;
  }

  lemma {:induction false} ParsedMaskIsNamed(t: Tables, pieces: seq<string>, key: Key)
    requires key.mask <= NamedBits(t.masks, 0)
    ensures ParsePieces(t, pieces, key).mask <= NamedBits(t.masks, 0)
  {
    if pieces == [] {
    } else {
      PieceMaskIsNamed(t, pieces[0], key);
      ParsedMaskIsNamed(t, pieces[1..], ParsePiece(t, pieces[0], key));
    }
  }

  /** A parsed key has a code and only named bits in its mask. */
  lemma {:induction false} ParsedKeysAreNamed(t: Tables, strs: seq<string>)
    ensures forall key :: key in ParsedKeys(t, strs) ==> key.code != 0 && Restrict(t, key) == key
  {
    if strs == [] {
    } else {
      ParsedKeysAreNamed(t, strs[..|strs| - 1]);
      ParsedMaskIsNamed(t, Split(strs[|strs| - 1], '+'), Key(0, {}));
    }
  }

  // ----- which keys of a list are printed and parsed -----

  /** A list with a key that has a code is printed as some text. */
  lemma PrintedListNotEmpty(t: Tables, keys: seq<Key>)
    requires WellFormed(t) && keys != [] && keys[|keys| - 1].code != 0
    ensures KeyListToString(t, keys) != []
  {
  }

  lemma {:induction false} SurvivingAre(t: Tables, keys: seq<Key>)
    ensures forall k :: k in Surviving(t, keys) <==> exists o :: o in keys && Survives(o) && Restrict(t, o) == k
  {
    if keys == [] {
    } else {
      var front, last := keys[..|keys| - 1], keys[|keys| - 1];
      assert keys == front + [last];
      SurvivingAre(t, front);
    }
  }

  lemma {:induction false} SurvivingNamed(t: Tables, keys: seq<Key>)
    requires forall k :: k in keys ==> Restrict(t, k) == k
    ensures forall k :: k in Surviving(t, keys) <==> k in keys && Survives(k)
  {
    SurvivingAre(t, keys);
  }

  // ----- the mask names of the source, with a few of its key names -----

  const MASK_NAMES: seq<MaskName> := [
    MaskName({0}, "Shift"), MaskName({1}, "CapsLock"), MaskName({2}, "Control"), MaskName({3}, "Alt"),
    MaskName({4}, "Meta"), MaskName({5}, "Super"), MaskName({6}, "Hyper"), MaskName({7}, "NumLock"),
    MaskName({14}, "QuirkKanaRo"), MaskName({15}, "KeyRelease")]

  /** The code 0x27 has two names: the first is printed, both are parsed. */
  const SAMPLE_TABLES: Tables := Tables(
    MASK_NAMES,
    [KeyName(0x20, "space"), KeyName(0x27, "apostrophe"), KeyName(0x27, "quoteright")],
    [KeyName(0x27, "apostrophe"), KeyName(0x27, "quoteright"), KeyName(0x20, "space")])

  const MASK_BITS: seq<Bit> := [0, 1, 2, 3, 4, 5, 6, 7, 14, 15]

  lemma MaskNameBits()
    ensures |MASK_NAMES| == |MASK_BITS|
    ensures forall i :: 0 <= i < |MASK_NAMES| ==> MASK_NAMES[i].value == {MASK_BITS[i]}
    ensures forall i, j :: 0 <= j < i < |MASK_BITS| ==> MASK_BITS[j] < MASK_BITS[i]
  {
  }

  /** With the mask names of the source each bit of the mask is printed, in the order of the bits. */
  lemma {:induction false} BitsInOrder(mask: Mask, places: seq<nat>)
    requires forall j, k :: 0 <= j < k < |places| ==> places[j] < places[k]
    requires forall i :: 0 <= i < |MASK_BITS| ==> (i in places <==> MASK_BITS[i] in mask)
    requires forall k :: 0 <= k < |places| ==> places[k] < |MASK_BITS|
    ensures |PrintedMasks(MASK_NAMES, mask, 0, {})| == |places| <= |MASK_NAMES| == |MASK_BITS|
    ensures forall k :: 0 <= k < |places| ==>
              PrintedMasks(MASK_NAMES, mask, 0, {})[k] == MASK_NAMES[places[k]].name
  {
    hide PrintedMasks, MASK_NAMES, MASK_BITS;
    MaskNameBits();
    var at := MaskNamesInOrder(MASK_NAMES, mask);
    forall i | 0 <= i < |MASK_NAMES| ensures i in at <==> i in places {
      OneBit(MASK_BITS[i], mask);
      assert NoneBefore(MASK_NAMES, i);
    }
    SameAscending(at, places, |MASK_NAMES|);
  }

  lemma OneBit(b: Bit, mask: Mask)
    ensures {b} * mask != {} <==> b in mask
  {
    assert b in mask ==> b in {b} * mask;
  }

  ghost predicate AscendingBelow(a: seq<nat>, n: nat) {
    (forall j, k :: 0 <= j < k < |a| ==> a[j] < a[k]) && forall k :: 0 <= k < |a| ==> a[k] < n
  }

  lemma {:induction false} SameAscending(a: seq<nat>, b: seq<nat>, n: nat)
    requires AscendingBelow(a, n) && AscendingBelow(b, n)
    requires forall i :: 0 <= i < n ==> (i in a <==> i in b)
    ensures a == b && |a| <= n
  {
    hide AscendingBelow;
    if n == 0 {
      AtMost(a, n);
      AtMost(b, n);
    } else if n - 1 in a {
      DropLargest(a, n);
      DropLargest(b, n);
      var a', b' := a[..|a| - 1], b[..|b| - 1];
      forall i | 0 <= i < n - 1 ensures i in a' <==> i in b' {
        assert i in a <==> i in b;
      }
      SameAscending(a', b', n - 1);
    } else {
      NotLargest(a, n);
      NotLargest(b, n);
      SameAscending(a, b, n - 1);
    }
  }

  lemma AtMost(a: seq<nat>, n: nat)
    requires AscendingBelow(a, n)
    ensures |a| <= n
  {
    if |a| > 0 {
      PlacesGrow(a, n, |a| - 1);
    }
  }

  lemma {:induction false} PlacesGrow(a: seq<nat>, n: nat, k: nat)
    requires AscendingBelow(a, n) && k < |a|
    ensures a[k] >= k
  {
    if k == 0 {
    } else {
      PlacesGrow(a, n, k - 1);
    }
  }

  lemma NotLargest(a: seq<nat>, n: nat)
    requires n > 0 && AscendingBelow(a, n) && n - 1 !in a
    ensures AscendingBelow(a, n - 1)
  {
  }

  lemma {:induction false} DropLargest(a: seq<nat>, n: nat)
    requires n > 0 && AscendingBelow(a, n) && n - 1 in a
    ensures a != [] && a == a[..|a| - 1] + [n - 1]
    ensures AscendingBelow(a[..|a| - 1], n - 1)
    ensures forall i :: 0 <= i < n - 1 ==> (i in a[..|a| - 1] <==> i in a)
  {
    var i :| 0 <= i < |a| && a[i] == n - 1;
    assert a[|a| - 1] <= a[i];
    assert i == |a| - 1;
    assert a == a[..|a| - 1] + [n - 1];
  }

  lemma {:induction false} ControlIsPrinted()
    ensures PrintedMasks(MASK_NAMES, {2}, 0, {}) == ["Control"]
  {
    hide PrintedMasks;
    BitsInOrder({2}, [2]);
  }

  lemma {:induction false} FourArePrinted()
    ensures PrintedMasks(MASK_NAMES, {15, 3, 2, 0}, 0, {}) == ["Shift", "Control", "Alt", "KeyRelease"]
  {
    hide PrintedMasks;
    BitsInOrder({15, 3, 2, 0}, [0, 2, 3, 9]);
  }

  /** The default key of the first FrontEnd action is printed as the text it is read from. */
  lemma {:induction false} ControlSpaceText(t: Tables, i: nat)
    requires WellFormed(t) && t.masks == MASK_NAMES
    requires i < |t.byCode| && t.byCode[i] == KeyName(0x20, "space")
    requires forall j :: 0 <= j < i ==> t.byCode[j].value != 0x20
    ensures KeyToString(t, Key(0x20, {2})) == "Control+space"
    ensures KeyToString(t, Key(0x20, {15, 3, 2, 0})) == "Shift+Control+Alt+KeyRelease+space"
  {
    hide WellFormed, PrintedMasks, MASK_NAMES, Join;
    ControlIsPrinted();
    FourArePrinted();
    ChordText(t, {2}, i);
    ChordText(t, {15, 3, 2, 0}, i);
    assert ["Control"] + ["space"] == ["Control", "space"];
    JoinedTexts();
  }

  lemma {:induction false} JoinedTexts()
    ensures Join(["Control", "space"], '+') == "Control+space"
    ensures Join(["Shift", "Control", "Alt", "KeyRelease"] + ["space"], '+') == "Shift+Control+Alt+KeyRelease+space"
  {
    hide Join;
    JoinTwo("Control", "space");
    assert "Control" + ['+'] + "space" == "Control+space";
    JoinFour("Shift", "Control", "Alt", "KeyRelease");
    JoinSnoc(["Shift", "Control", "Alt", "KeyRelease"], "space", '+');
    assert "Shift" + ['+'] + "Control" + ['+'] + "Alt" + ['+'] + "KeyRelease" == "Shift+Control+Alt+KeyRelease";
    assert "Shift+Control+Alt+KeyRelease" + ['+'] + "space" == "Shift+Control+Alt+KeyRelease+space";
  }

  lemma {:induction false} JoinTwo(a: string, b: string)
    ensures Join([a, b], '+') == a + ['+'] + b
  {
    JoinSnoc([a], b, '+');
    assert [a] + [b] == [a, b];
  }

  lemma {:induction false} JoinFour(a: string, b: string, c: string, d: string)
    ensures Join([a, b, c], '+') == a + ['+'] + b + ['+'] + c
    ensures Join([a, b, c, d], '+') == a + ['+'] + b + ['+'] + c + ['+'] + d
  {
    hide Join;
    JoinTwo(a, b);
    JoinSnoc([a, b], c, '+');
    JoinSnoc([a, b, c], d, '+');
    assert [a, b] + [c] == [a, b, c] && [a, b, c] + [d] == [a, b, c, d];
  }

  lemma {:induction false} MaskNamesAreGood()
    ensures forall m :: m in MASK_NAMES ==> SingleBit(m.value) && GoodName(m.name)
  {
    hide GoodName, MASK_NAMES, SingleBit;
    forall m | m in MASK_NAMES ensures SingleBit(m.value) && GoodName(m.name) {
      var i :| 0 <= i < |MASK_NAMES| && MASK_NAMES[i] == m;
      MaskNameBits();
      OneBitIsSingle(MASK_BITS[i]);
      MaskNameIsGood(i);
    }
  }

  lemma OneBitIsSingle(b: Bit)
    ensures SingleBit({b})
  {
  }

  lemma {:induction false} MaskNameIsGood(i: nat)
    requires i < |MASK_NAMES|
    ensures GoodName(MASK_NAMES[i].name)
  {
    hide GoodName;
    ShortNamesAreGood();
    LongNamesAreGood();
  }

  lemma ShortNamesAreGood()
    ensures GoodName("Shift") && GoodName("Alt") && GoodName("Meta") && GoodName("Super") && GoodName("Hyper")
  {
  }

  lemma LongNamesAreGood()
    ensures GoodName("CapsLock") && GoodName("Control") && GoodName("NumLock")
    ensures GoodName("QuirkKanaRo") && GoodName("KeyRelease")
  {
  }

  lemma {:induction false} KeyNamesAreGood()
    ensures forall e :: e in SAMPLE_TABLES.byName ==> GoodName(e.name)
  {
    assert GoodName("apostrophe") && GoodName("quoteright") && GoodName("space");
  }

  lemma KeyNamesAreNoMaskNames()
    ensures forall e, m :: e in SAMPLE_TABLES.byName && m in MASK_NAMES ==> e.name != m.name
  {
  }

  lemma MaskNamesDiffer()
    ensures forall i, j :: 0 <= i < j < |MASK_NAMES| ==> MASK_NAMES[i].name != MASK_NAMES[j].name
  {
  }

  lemma KeyNamesAscend()
    ensures var names := SAMPLE_TABLES.byName;
            forall i, j :: 0 <= i < j < |names| ==> Strings.StrLess(names[i].name, names[j].name)
  {
  }

  lemma KeyCodesAscend()
    ensures var codes := SAMPLE_TABLES.byCode;
            && (forall i, j :: 0 <= i < j < |codes| ==> codes[i].value <= codes[j].value)
            && (forall e :: e in codes ==> e in SAMPLE_TABLES.byName)
  {
  }

  lemma {:induction false} SampleTablesAreWellFormed()
    ensures WellFormed(SAMPLE_TABLES)
  {
    hide GoodName, SingleBit, Strings.StrLess, SAMPLE_TABLES, MASK_NAMES;
    MaskNamesAreGood();
    MaskNamesDiffer();
    KeyNamesAscend();
    KeyNamesAreGood();
    KeyNamesAreNoMaskNames();
    KeyCodesAscend();
    SampleMasks();
  }

  lemma SampleMasks()
    ensures SAMPLE_TABLES.masks == MASK_NAMES
  {
  }
}
