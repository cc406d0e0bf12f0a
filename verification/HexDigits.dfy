/** Hexadecimal digits: the offsets and octets they spell, and the way back. */
module HexDigits {
  import opened HexBits

  const LOWER: seq<Octet> := [0x30, 0x31, 0x32, 0x33, 0x34, 0x35, 0x36, 0x37, 0x38, 0x39, 0x61, 0x62, 0x63, 0x64, 0x65, 0x66]
  const UPPER: seq<Octet> := [0x30, 0x31, 0x32, 0x33, 0x34, 0x35, 0x36, 0x37, 0x38, 0x39, 0x41, 0x42, 0x43, 0x44, 0x45, 0x46]

  function Digit(n: nat, upper: bool): Octet
    requires n < 16
  {
    if upper then UPPER[n] else LOWER[n]
  }

  // The value of a digit, or -1.
  function NibbleValue(c: Octet): (v: int)
    ensures -1 <= v < 16
  {
    if 0x30 <= c <= 0x39 then (c - 0x30) as int
    else if 0x61 <= c <= 0x66 then (c - 0x61) as int + 10
    else if 0x41 <= c <= 0x46 then (c - 0x41) as int + 10
    else -1
  }

  const SPACE: Octet := 0x20
  const COLON: Octet := 0x3a
  const NEWLINE: Octet := 0x0a
  const STAR: Octet := 0x2a
  const DOT: Octet := 0x2e

  lemma DigitHasValue(n: nat, upper: bool)
    requires n < 16
    ensures NibbleValue(Digit(n, upper)) == n
    ensures !Blank(Digit(n, upper)) && Digit(n, upper) != COLON && Digit(n, upper) != NEWLINE
    ensures !Whitespace(Digit(n, upper))
  {
  }

  predicate Whitespace(c: Octet) {
    c == 0x09 || c == 0x0a || c == 0x0d || c == 0x20
  }

  lemma NoValue()
    ensures NibbleValue(SPACE) == -1 && NibbleValue(COLON) == -1 && Blank(SPACE) && !Whitespace(COLON)
  {
  }

  // ----- Offsets -----

  // The lowest so many digits of a number.
  function HexText(x: nat, n: nat): (s: seq<Octet>)
    ensures |s| == n
    decreases n
  {
    if n == 0 then [] else HexText(x / 16, n - 1) + [Digit(x % 16, false)]
  }

  function OffsetText(x: nat): seq<Octet> {
    if x < 0x1_0000_0000 then HexText(x, 8) else HexText(x, 16)
  }

  datatype ParsedOffset = Invalid | Offset(value: nat) | Overflow

  // Reads on from a value, one digit at a time.
  function ParseOn(s: seq<Octet>, value: nat): ParsedOffset
    decreases |s|
  {
    if s == [] then Offset(value)
    else
      var c := NibbleValue(s[0]);
      if c < 0 then Invalid
      else if value / 0x0800_0000_0000_0000 != 0 then Overflow
      else ParseOn(s[1..], 16 * value + c)
  }

  function ParseOffset(s: seq<Octet>): ParsedOffset {
    if s == [] then Invalid else ParseOn(s, 0)
  }

  method ParseOffsetText(s: seq<Octet>) returns (r: ParsedOffset)
    ensures r == ParseOffset(s)
  {
    var value: nat := 0;
    var i := 0;
    while i < |s|
      invariant 0 <= i <= |s|
      invariant ParseOn(s, 0) == ParseOn(s[i..], value)
    {
      var c := NibbleValue(s[i]);
      if c < 0 {
        return Invalid;
      }
      if value / 0x0800_0000_0000_0000 != 0 {
        return Overflow;
      }
      value := 16 * value + c;
      assert s[i..][1..] == s[i + 1..];
      i := i + 1;
    }
    r := if s != [] then Offset(value) else Invalid;
  }

  lemma {:induction false} ParseAppend(s: seq<Octet>, c: Octet, value: nat, v: nat)
    requires ParseOn(s, value) == Offset(v) && NibbleValue(c) >= 0 && v / 0x0800_0000_0000_0000 == 0
    ensures ParseOn(s + [c], value) == Offset(16 * v + NibbleValue(c))
    decreases |s|
  {
    hide NibbleValue;
    if s == [] {
      assert [c][1..] == [];
    } else {
      assert (s + [c])[1..] == s[1..] + [c];
      ParseAppend(s[1..], c, 16 * value + NibbleValue(s[0]), v);
    }
  }

  function Power16(n: nat): nat {
    if n == 0 then 1 else 16 * Power16(n - 1)
  }

  // As many digits as a number needs spell it.
  lemma {:induction false} HexTextParses(x: nat, n: nat)
    requires x < Power16(n) && x < 0x8000_0000_0000_0000
    ensures ParseOn(HexText(x, n), 0) == Offset(x)
    decreases n
  {
    hide NibbleValue, Digit;
    if n > 0 {
      HexTextParses(x / 16, n - 1);
      DigitHasValue(x % 16, false);
      ParseAppend(HexText(x / 16, n - 1), Digit(x % 16, false), 0, x / 16);
    }
  }

  /** An offset in the 63-bit range that is printed is read back. */
  lemma OffsetParses(x: nat)
    requires x < 0x8000_0000_0000_0000
    ensures ParseOffset(OffsetText(x)) == Offset(x)
  {
    hide ParseOn, HexText;
    assert Power16(8) == 0x1_0000_0000 && Power16(16) == 0x1_0000_0000_0000_0000 by {
      Powers();
    }
    HexTextParses(x, if x < 0x1_0000_0000 then 8 else 16);
  }

  lemma Powers()
    ensures Power16(8) == 0x1_0000_0000 && Power16(16) == 0x1_0000_0000_0000_0000
  {
    assert Power16(4) == 0x1_0000;
    assert Power16(8) == 0x1_0000_0000;
    assert Power16(12) == 0x1_0000_0000_0000;
  }

  // An offset has no blank, no colon and no newline in it.
  lemma {:induction false} PlainDigits(x: nat, n: nat)
    ensures forall k :: 0 <= k < n ==>
              !Whitespace(HexText(x, n)[k]) && HexText(x, n)[k] != COLON && HexText(x, n)[k] != NEWLINE
    decreases n
  {
    hide Digit, Whitespace;
    if n > 0 {
      PlainDigits(x / 16, n - 1);
      DigitHasValue(x % 16, false);
    }
  }

  // The number without its lowest n digits.
  function WithoutLast(x: nat, n: nat): nat
    decreases n
  {
    if n == 0 then x else WithoutLast(x / 16, n - 1)
  }

  lemma {:induction false} ShiftOnce(x: nat, n: nat)
    ensures WithoutLast(x, n + 1) == WithoutLast(x, n) / 16
    decreases n
  {
    if n > 0 {
      ShiftOnce(x / 16, n - 1);
    }
  }

  lemma {:induction false} DigitAt(x: nat, n: nat, k: nat)
    requires k < n
    ensures HexText(x, n)[k] == Digit(WithoutLast(x, n - 1 - k) % 16, false)
    decreases n
  {
    hide Digit;
    if k < n - 1 {
      DigitAt(x / 16, n - 1, k);
    }
  }

  lemma OctetDigits(x: nat, i: nat)
    requires i < 8
    ensures HexText(x, 16)[2 * i] == Digit(WithoutLast(x, 14 - 2 * i) % 256 / 16, false)
    ensures HexText(x, 16)[2 * i + 1] == Digit(WithoutLast(x, 14 - 2 * i) % 256 % 16, false)
  {
    hide Digit, HexText, WithoutLast;
    DigitAt(x, 16, 2 * i);
    DigitAt(x, 16, 2 * i + 1);
    ShiftOnce(x, 14 - 2 * i);
    var y := WithoutLast(x, 14 - 2 * i);
    assert (y % 256) / 16 == (y / 16) % 16;
  }

  lemma ShorterText(x: nat)
    ensures HexText(x, 16)[8..] == HexText(x, 8)
  {
    hide Digit, HexText;
    forall k | 0 <= k < 8 ensures HexText(x, 16)[8 + k] == HexText(x, 8)[k] {
      DigitAt(x, 16, 8 + k);
      DigitAt(x, 8, k);
    }
  }

  /** Writes an offset in 8 digits, or in 16 if it needs more. */
  method HexOffset(x: nat) returns (s: seq<Octet>)
    ensures s == OffsetText(x)
  {
    hide Digit, HexText, WithoutLast;
    var hex := new Octet[16](_ => SPACE);
    for i := 0 to 8
      invariant forall k :: 0 <= k < 2 * i ==> hex[k] == HexText(x, 16)[k]
    {
      var v := WithoutLast(x, 14 - 2 * i) % 256;
      OctetDigits(x, i);
      hex[2 * i] := Digit(v / 16, false);
      hex[2 * i + 1] := Digit(v % 16, false);
    }
    ShorterText(x);
    assert hex[..] == HexText(x, 16);
    s := if x < 0x1_0000_0000 then hex[8..] else hex[..];
  }
}
