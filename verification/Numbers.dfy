/** The number formats of the C library that the source prints and reads: `%d`, `%0Nx` and `strtol`. */
module Numbers {
  import opened Common

  // `long` has 64 bits.
  const LONG_MAX: int := 0x7FFF_FFFF_FFFF_FFFF

  datatype Radix = Ten | Sixteen {
    function Value(): (r: nat)
      ensures r == 10 || r == 16
    {
      if Ten? then 10 else 16
    }

    /** The value `acc` with one more digit behind it. */
    function Push(acc: nat, digit: nat): nat {
      if Ten? then acc * 10 + digit else acc * 16 + digit
    }
  }

  function DigitValue(c: char): nat {
    if '0' <= c <= '9' then c as int - '0' as int
    else if 'a' <= c <= 'z' then c as int - 'a' as int + 10
    else if 'A' <= c <= 'Z' then c as int - 'A' as int + 10
    else 36
  }

  function DigitChar(d: nat): (c: char)
    requires d < 16
    ensures DigitValue(c) == d && c != 'x' && c != 'X'
  {
    if d < 10 then ('0' as int + d) as char else ('a' as int + d - 10) as char
  }

  // ----- reading -----

  predicate IsSpace(c: char) {
    c == ' ' || 9 <= c as int <= 13
  }

  function DropSpaces(s: string): string {
    if s != [] && IsSpace(s[0]) then DropSpaces(s[1..]) else s
  }

  /** Reads digits as far as they go, on top of the value `acc` read before. */
  function LeadingDigits(s: string, radix: Radix, acc: nat): nat {
    if s != [] && DigitValue(s[0]) < radix.Value()
    then LeadingDigits(s[1..], radix, radix.Push(acc, DigitValue(s[0])))
    else acc
  }

  function Saturate(v: int): int {
    if v > LONG_MAX then LONG_MAX else if v < -LONG_MAX - 1 then -LONG_MAX - 1 else v
  }

  predicate HasHexPrefix(s: string) {
    |s| > 2 && s[0] == '0' && (s[1] == 'x' || s[1] == 'X') && DigitValue(s[2]) < 16
  }

  /** `strtol`: spaces, a sign, for hexadecimal a "0x", then digits; too large a value sticks at the limit. */
  function Strtol(str: string, radix: Radix): int {
    var s := DropSpaces(str);
    var negative := s != [] && s[0] == '-';
    var unsigned := if s != [] && (s[0] == '-' || s[0] == '+') then s[1..] else s;
    var digits := if radix.Sixteen? && HasHexPrefix(unsigned) then unsigned[2..] else unsigned;
    var v: int := LeadingDigits(digits, radix, 0);
    Saturate(if negative then -v else v)
  }

  // ----- printing -----

  function Numeral(n: nat, radix: Radix): (s: string)
    ensures s != []
  {
    if n < radix.Value() then [DigitChar(n)]
    else Numeral(n / radix.Value(), radix) + [DigitChar(n % radix.Value())]
  }

  function PadZeros(s: string, width: nat): (t: string)
    ensures s != [] ==> t != []
    decreases width - |s|
  {
    if |s| < width then PadZeros(['0'] + s, width) else s
  }

  /** `%d` */
  function Decimal(n: int): string {
    if n < 0 then ['-'] + Numeral(-n, Ten) else Numeral(n, Ten)
  }

  /** `%0<width>x` */
  function Hex(n: nat, width: nat): string {
    PadZeros(Numeral(n, Sixteen), width)
  }

  // ----- what is printed is read back -----

  ghost predicate AllDigits(s: string, radix: Radix) {
    forall i :: 0 <= i < |s| ==> DigitValue(s[i]) < radix.Value()
  }

  lemma {:induction false} LeadingDigitsSnoc(s: string, c: char, radix: Radix, acc: nat)
    requires AllDigits(s, radix) && DigitValue(c) < radix.Value()
    ensures LeadingDigits(s + [c], radix, acc) == radix.Push(LeadingDigits(s, radix, acc), DigitValue(c))
  {
    if s == [] {
      assert s + [c] == [c] && [c][1..] == [];
    } else {
      assert (s + [c])[1..] == s[1..] + [c];
      LeadingDigitsSnoc(s[1..], c, radix, radix.Push(acc, DigitValue(s[0])));
    }
  }

  lemma {:induction false} NumeralValue(n: nat, radix: Radix)
    ensures AllDigits(Numeral(n, radix), radix)
    ensures LeadingDigits(Numeral(n, radix), radix, 0) == n
  {
    var last := DigitChar(n % radix.Value());
    if n < radix.Value() {
      assert Numeral(n, radix) == [] + [last];
      LeadingDigitsSnoc([], last, radix, 0);
    } else {
      NumeralValue(n / radix.Value(), radix);
      LeadingDigitsSnoc(Numeral(n / radix.Value(), radix), last, radix, 0);
    }
  }

  lemma {:induction false} PadZerosValue(s: string, width: nat)
    requires AllDigits(s, Sixteen)
    ensures AllDigits(PadZeros(s, width), Sixteen) && |PadZeros(s, width)| >= width
    ensures LeadingDigits(PadZeros(s, width), Sixteen, 0) == LeadingDigits(s, Sixteen, 0)
    decreases width - |s|
  {
    if |s| < width {
      assert (['0'] + s)[1..] == s;
      PadZerosValue(['0'] + s, width);
    }
  }

  /** A run of digits is read whole: no space, sign or prefix is taken off it. */
  lemma DigitsAreRead(s: string, radix: Radix)
    requires s != [] && AllDigits(s, radix)
    requires LeadingDigits(s, radix, 0) <= LONG_MAX
    ensures Strtol(s, radix) == LeadingDigits(s, radix, 0)
  {
  }

  lemma HexRoundTrip(n: uint32, width: nat)
    ensures Strtol(Hex(n, width), Sixteen) == n
    ensures AllDigits(Hex(n, width), Sixteen) && |Hex(n, width)| >= width && Hex(n, width) != []
  {
    NumeralValue(n, Sixteen);
    PadZerosValue(Numeral(n, Sixteen), width);
    DigitsAreRead(Hex(n, width), Sixteen);
  }

  lemma {:induction false} HexSamples()
    ensures Hex(0x61, 4) == "0061" && Hex(0xFF_FFFF, 6) == "ffffff"
  {
    assert Numeral(0xF, Sixteen) == "f";
    assert Numeral(0xFF, Sixteen) == "ff";
    assert Numeral(0xFFF, Sixteen) == "fff";
    assert Numeral(0xFFFF, Sixteen) == "ffff";
    assert Numeral(0xF_FFFF, Sixteen) == "fffff";
    assert Numeral(0x61, Sixteen) == "61";
    assert ['0'] + "61" == "061" && ['0'] + "061" == "0061";
    assert PadZeros("061", 4) == "0061";
  }

  /** Every 32-bit int is read back, the smallest one included. */
  lemma DecimalRoundTrip(n: int32)
    ensures Strtol(Decimal(n), Ten) == n && Decimal(n) != [] && ',' !in Decimal(n)
  {
    var magnitude: nat := if (n as int) < 0 then 0 - n as int else n as int;
    var digits := Numeral(magnitude, Ten);
    NumeralValue(magnitude, Ten);
    DigitsAreRead(digits, Ten);
    assert n < 0 ==> Decimal(n)[1..] == digits;
    assert AllDigits(digits, Ten) ==> ',' !in digits;
  }

  lemma {:induction false} DecimalSamples()
    ensures Decimal(12) == "12" && Decimal(-3) == "-3" && Decimal(0) == "0"
  {
    assert Numeral(1, Ten) == "1" && Numeral(3, Ten) == "3" && Numeral(0, Ten) == "0";
    assert Numeral(12, Ten) == "1" + "2";
  }

  /** What `strtol` takes off the text, and where it stops. */
  lemma {:induction false} StrtolSamples()
    ensures Strtol("", Ten) == 0 && Strtol("x1", Ten) == 0
    ensures Strtol("12", Ten) == 12 && Strtol(" \t12x", Ten) == 12 && Strtol("+12", Ten) == 12
    ensures Strtol("-12", Ten) == -12 && Strtol("- 12", Ten) == 0
    ensures Strtol("1A", Sixteen) == 26 && Strtol("0x1a", Sixteen) == 26 && Strtol("0x", Sixteen) == 0
  {
    OneDigitMore('1', '2', Ten);
    OneDigitMore('1', 'A', Sixteen);
    OneDigitMore('1', 'a', Sixteen);
    assert DropSpaces(" \t12x") == "12x" by {
      assert " \t12x"[1..] == "\t12x" && "\t12x"[1..] == "12x";
    }
    assert "12x"[1..] == "2x" && "2x"[1..] == "x";
    assert "+12"[1..] == "12" && "-12"[1..] == "12" && "- 12"[1..] == " 12";
    assert "0x1a"[2..] == "1a" && "0x"[1..] == "x";
  }

  lemma OneDigitMore(a: char, b: char, radix: Radix)
    requires DigitValue(a) < radix.Value() && DigitValue(b) < radix.Value()
    ensures LeadingDigits([a, b], radix, 0) == radix.Push(DigitValue(a), DigitValue(b))
  {
    assert [a, b][1..] == [b] && [b][1..] == [];
    assert radix.Push(0, DigitValue(a)) == DigitValue(a);
    assert LeadingDigits([b], radix, DigitValue(a)) == radix.Push(DigitValue(a), DigitValue(b));
  }

  /** Values beyond `long` stick at its ends. */
  lemma {:induction false} StrtolSticks(digits: string)
    requires digits != [] && AllDigits(digits, Ten) && LeadingDigits(digits, Ten, 0) > 0x7FFF_FFFF_FFFF_FFFF
    ensures Strtol(digits, Ten) == 0x7FFF_FFFF_FFFF_FFFF
    ensures Strtol("-" + digits, Ten) == -0x8000_0000_0000_0000
  {
    assert ("-" + digits)[1..] == digits;
  }

  /** A decimal number has digits and a sign only. */
  lemma {:induction false} DecimalChars(n: int)
    ensures forall c :: c in Decimal(n) ==> c == '-' || DigitValue(c) < 10
  {
    var digits := Numeral(if n < 0 then -n else n, Ten);
    NumeralValue(if n < 0 then -n else n, Ten);
    assert forall c :: c in digits ==> DigitValue(c) < 10;
  }
}
