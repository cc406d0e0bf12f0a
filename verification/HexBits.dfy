/** Looking at eight octets at once, in one 64-bit word. */
module HexBits {
  type Octet = bv8

  // Eight octets, the first one lowest.
  function Word(s: seq<Octet>): bv64
    requires |s| == 8
  {
    Join(Wide(s[0]), Wide(s[1]), Wide(s[2]), Wide(s[3]), Wide(s[4]), Wide(s[5]), Wide(s[6]), Wide(s[7]))
  }

  function Wide(c: Octet): (w: bv64)
    ensures w < 256
  {
    c as bv64
  }

  function Join(a: bv64, b: bv64, c: bv64, d: bv64, e: bv64, f: bv64, g: bv64, h: bv64): bv64 {
    a | (b << 8) | (c << 16) | (d << 24) | (e << 32) | (f << 40) | (g << 48) | (h << 56)
  }

  predicate Small(a: bv64, b: bv64, c: bv64, d: bv64, e: bv64, f: bv64, g: bv64, h: bv64) {
    a < 256 && b < 256 && c < 256 && d < 256 && e < 256 && f < 256 && g < 256 && h < 256
  }

  // Whether the part of a word under a mask is zero, and whether it has a given value.
  predicate ZeroAt(x: bv64, mask: bv64) {
    x & mask == 0
  }

  predicate Holds(x: bv64, mask: bv64, value: bv64) {
    x & mask == value
  }

  // ----- Finding an octet -----

  // Gathers every octet into its lowest bit.
  function Fold(x: bv64): bv64 {
    var x1 := x | ((x >> 4) & 0x0f0f0f0f0f0f0f0f);
    var x2 := x1 | ((x1 >> 2) & 0x0303030303030303);
    (x2 | (x2 >> 1)) & 0x0101010101010101
  }

  // The word with the octet c taken from it in all eight places.
  function Differences(x: bv64, k: bv64): bv64 {
    x ^ (0x0101010101010101 * k)
  }

  predicate HasOctet(s: seq<Octet>, c: Octet)
    requires |s| == 8
  {
    Fold(Differences(Word(s), Wide(c))) != 0x0101010101010101
  }

  // Each octet leaves its bit clear exactly if it is the one sought.
  lemma FirstOctet(a: bv64, b: bv64, c: bv64, d: bv64, e: bv64, f: bv64, g: bv64, h: bv64, k: bv64)
    requires Small(a, b, c, d, e, f, g, h) && k < 256
    ensures Fold(Differences(Join(a, b, c, d, e, f, g, h), k)) & 0x01 == 0 <==> a == k
  {
  }

  lemma SecondOctet(a: bv64, b: bv64, c: bv64, d: bv64, e: bv64, f: bv64, g: bv64, h: bv64, k: bv64)
    requires Small(a, b, c, d, e, f, g, h) && k < 256
    ensures Fold(Differences(Join(a, b, c, d, e, f, g, h), k)) & 0x0100 == 0 <==> b == k
  {
  }

  lemma ThirdOctet(a: bv64, b: bv64, c: bv64, d: bv64, e: bv64, f: bv64, g: bv64, h: bv64, k: bv64)
    requires Small(a, b, c, d, e, f, g, h) && k < 256
    ensures Fold(Differences(Join(a, b, c, d, e, f, g, h), k)) & 0x010000 == 0 <==> c == k
  {
  }

  lemma FourthOctet(a: bv64, b: bv64, c: bv64, d: bv64, e: bv64, f: bv64, g: bv64, h: bv64, k: bv64)
    requires Small(a, b, c, d, e, f, g, h) && k < 256
    ensures Fold(Differences(Join(a, b, c, d, e, f, g, h), k)) & 0x01000000 == 0 <==> d == k
  {
  }

  lemma FifthOctet(a: bv64, b: bv64, c: bv64, d: bv64, e: bv64, f: bv64, g: bv64, h: bv64, k: bv64)
    requires Small(a, b, c, d, e, f, g, h) && k < 256
    ensures Fold(Differences(Join(a, b, c, d, e, f, g, h), k)) & 0x0100000000 == 0 <==> e == k
  {
  }

  lemma SixthOctet(a: bv64, b: bv64, c: bv64, d: bv64, e: bv64, f: bv64, g: bv64, h: bv64, k: bv64)
    requires Small(a, b, c, d, e, f, g, h) && k < 256
    ensures Fold(Differences(Join(a, b, c, d, e, f, g, h), k)) & 0x010000000000 == 0 <==> f == k
  {
  }

  lemma SeventhOctet(a: bv64, b: bv64, c: bv64, d: bv64, e: bv64, f: bv64, g: bv64, h: bv64, k: bv64)
    requires Small(a, b, c, d, e, f, g, h) && k < 256
    ensures Fold(Differences(Join(a, b, c, d, e, f, g, h), k)) & 0x01000000000000 == 0 <==> g == k
  {
  }

  lemma EighthOctet(a: bv64, b: bv64, c: bv64, d: bv64, e: bv64, f: bv64, g: bv64, h: bv64, k: bv64)
    requires Small(a, b, c, d, e, f, g, h) && k < 256
    ensures Fold(Differences(Join(a, b, c, d, e, f, g, h), k)) & 0x0100000000000000 == 0 <==> h == k
  {
  }

  lemma AllBits(y: bv64)
    requires y & 0x0101010101010101 == y
    ensures y != 0x0101010101010101 <==>
            || y & 0x01 == 0 || y & 0x0100 == 0 || y & 0x010000 == 0 || y & 0x01000000 == 0
            || y & 0x0100000000 == 0 || y & 0x010000000000 == 0 || y & 0x01000000000000 == 0 || y & 0x0100000000000000 == 0
  {
  }

  lemma OnlyBits(x: bv64)
    ensures Fold(x) & 0x0101010101010101 == Fold(x)
  {
  }

  lemma WideApart(a: Octet, b: Octet)
    ensures Wide(a) == Wide(b) <==> a == b
  {
  }

  lemma FindsOne(a: bv64, b: bv64, c: bv64, d: bv64, e: bv64, f: bv64, g: bv64, h: bv64, k: bv64)
    requires Small(a, b, c, d, e, f, g, h) && k < 256
    ensures Fold(Differences(Join(a, b, c, d, e, f, g, h), k)) != 0x0101010101010101 <==>
            a == k || b == k || c == k || d == k || e == k || f == k || g == k || h == k
  {
    hide Fold, Join, Differences;
    OnlyBits(Differences(Join(a, b, c, d, e, f, g, h), k));
    AllBits(Fold(Differences(Join(a, b, c, d, e, f, g, h), k)));
    FirstOctet(a, b, c, d, e, f, g, h, k);
    SecondOctet(a, b, c, d, e, f, g, h, k);
    ThirdOctet(a, b, c, d, e, f, g, h, k);
    FourthOctet(a, b, c, d, e, f, g, h, k);
    FifthOctet(a, b, c, d, e, f, g, h, k);
    SixthOctet(a, b, c, d, e, f, g, h, k);
    SeventhOctet(a, b, c, d, e, f, g, h, k);
    EighthOctet(a, b, c, d, e, f, g, h, k);
  }

  lemma Among(s: seq<Octet>, c: Octet)
    requires |s| == 8
    ensures c in s <==> s[0] == c || s[1] == c || s[2] == c || s[3] == c || s[4] == c || s[5] == c || s[6] == c || s[7] == c
  {
    assert s == [s[0], s[1], s[2], s[3], s[4], s[5], s[6], s[7]];
  }

  /** The test on the word is exact: it holds if and only if one of the eight octets is the one sought. */
  lemma HasOctetExactly(s: seq<Octet>, c: Octet)
    requires |s| == 8
    ensures HasOctet(s, c) <==> c in s
  {
    hide Fold, Differences, Join, Wide;
    Among(s, c);
    FindsOne(Wide(s[0]), Wide(s[1]), Wide(s[2]), Wide(s[3]), Wide(s[4]), Wide(s[5]), Wide(s[6]), Wide(s[7]), Wide(c));
    WideApart(s[0], c);
    WideApart(s[1], c);
    WideApart(s[2], c);
    WideApart(s[3], c);
    WideApart(s[4], c);
    WideApart(s[5], c);
    WideApart(s[6], c);
    WideApart(s[7], c);
  }

  // ----- Finding a double space -----

  // A space, but for the top bit, which is not looked at.
  predicate Blank(c: Octet) {
    c & 0x7f == 0x20
  }

  const LENS: seq<seq<nat>> := [
    [0, 1, 2, 2, 0, 3, 3, 3, 0, 1, 4, 4, 0, 4, 4, 4, 0, 1, 2, 2, 0, 5, 5, 5, 0, 1, 5, 5, 0, 5, 5, 5],
    [0, 1, 2, 2, 0, 3, 3, 3, 0, 1, 6, 6, 0, 6, 6, 6, 0, 1, 2, 2, 0, 6, 6, 6, 0, 1, 6, 6, 0, 6, 6, 6],
    [0, 1, 2, 2, 0, 3, 3, 3, 0, 1, 4, 4, 0, 4, 4, 4, 0, 1, 2, 2, 0, 8, 8, 8, 0, 1, 8, 8, 0, 8, 8, 8],
    [0, 1, 2, 2, 0, 3, 3, 3, 0, 1, 8, 8, 0, 8, 8, 8, 0, 1, 2, 2, 0, 8, 8, 8, 0, 1, 8, 8, 0, 8, 8, 8],
    [0, 1, 2, 2, 0, 3, 3, 3, 0, 1, 4, 4, 0, 4, 4, 4, 0, 1, 2, 2, 0, 5, 5, 5, 0, 1, 5, 5, 0, 5, 5, 5],
    [0, 1, 2, 2, 0, 3, 3, 3, 0, 1, 8, 8, 0, 8, 8, 8, 0, 1, 2, 2, 0, 8, 8, 8, 0, 1, 8, 8, 0, 8, 8, 8],
    [0, 1, 2, 2, 0, 3, 3, 3, 0, 1, 4, 4, 0, 4, 4, 4, 0, 1, 2, 2, 0, 8, 8, 8, 0, 1, 8, 8, 0, 8, 8, 8],
    [0, 1, 2, 2, 0, 3, 3, 3, 0, 1, 8, 8, 0, 8, 8, 8, 0, 1, 2, 2, 0, 8, 8, 8, 0, 1, 8, 8, 0, 8, 8, 8]
  ]

  // The top bit of every octet says that it is no blank; all eight are then brought together in one.
  function Marks(x: bv64): bv64 {
    (((x ^ 0x2020202020202020) | 0x8080808080808080) - 0x0101010101010101) & 0x8080808080808080
  }

  function Together(y: bv64): bv8 {
    (((y * 0x0002040810204081) >> 56) & 0xff) as bv8
  }

  // The length of the eight octets up to the first double space, or 8.
  function HexDumpLen(s: seq<Octet>): nat
    requires |s| == 8
  {
    TableAt(Together(Marks(Word(s))))
  }

  function TableAt(b: bv8): nat {
    TableSize(b);
    LENS[(b >> 5) as nat][(b & 31) as nat]
  }

  lemma TableSize(b: bv8)
    ensures |LENS| == 8 && (b >> 5) as nat < 8 && |LENS[(b >> 5) as nat]| == 32 && (b & 31) as nat < 32
  {
  }

  // Where the first two bits in a row are clear.
  function BitGap(b: bv8): nat {
    if b & 3 == 0 then 0 else if b & 6 == 0 then 1 else if b & 12 == 0 then 2 else if b & 24 == 0 then 3
    else if b & 48 == 0 then 4 else if b & 96 == 0 then 5 else if b & 192 == 0 then 6 else 8
  }

  lemma TableIsRight(b: bv8)
    ensures TableAt(b) == BitGap(b)
  {
  }

  // Whether a bit is clear.
  predicate Clear(b: bv8, bit: bv8) {
    b & bit == 0
  }

  predicate BlankWord(w: bv64) {
    w & 0x7f == 0x20
  }

  // The marks in their places, and where they go.
  lemma MarksAt(x: bv64)
    ensures ZeroAt(Marks(x), 0x80) <==> Holds(x, 0x7f, 0x20)
    ensures ZeroAt(Marks(x), 0x8000) <==> Holds(x, 0x7f00, 0x2000)
    ensures ZeroAt(Marks(x), 0x800000) <==> Holds(x, 0x7f0000, 0x200000)
    ensures ZeroAt(Marks(x), 0x80000000) <==> Holds(x, 0x7f000000, 0x20000000)
    ensures ZeroAt(Marks(x), 0x8000000000) <==> Holds(x, 0x7f00000000, 0x2000000000)
    ensures ZeroAt(Marks(x), 0x800000000000) <==> Holds(x, 0x7f0000000000, 0x200000000000)
    ensures ZeroAt(Marks(x), 0x80000000000000) <==> Holds(x, 0x7f000000000000, 0x20000000000000)
    ensures ZeroAt(Marks(x), 0x8000000000000000) <==> Holds(x, 0x7f00000000000000, 0x2000000000000000)
    ensures ZeroAt(Marks(x), 0x7f7f7f7f7f7f7f7f)
  {
  }

  lemma TogetherAt(y: bv64)
    requires ZeroAt(y, 0x7f7f7f7f7f7f7f7f)
    ensures Clear(Together(y), 1) <==> ZeroAt(y, 0x80)
    ensures Clear(Together(y), 2) <==> ZeroAt(y, 0x8000)
    ensures Clear(Together(y), 4) <==> ZeroAt(y, 0x800000)
    ensures Clear(Together(y), 8) <==> ZeroAt(y, 0x80000000)
    ensures Clear(Together(y), 16) <==> ZeroAt(y, 0x8000000000)
    ensures Clear(Together(y), 32) <==> ZeroAt(y, 0x800000000000)
    ensures Clear(Together(y), 64) <==> ZeroAt(y, 0x80000000000000)
    ensures Clear(Together(y), 128) <==> ZeroAt(y, 0x8000000000000000)
  {
  }

  lemma BlanksAt(a: bv64, b: bv64, c: bv64, d: bv64, e: bv64, f: bv64, g: bv64, h: bv64)
    requires Small(a, b, c, d, e, f, g, h)
    ensures var x := Join(a, b, c, d, e, f, g, h);
            && (Holds(x, 0x7f, 0x20) <==> BlankWord(a)) && (Holds(x, 0x7f00, 0x2000) <==> BlankWord(b))
            && (Holds(x, 0x7f0000, 0x200000) <==> BlankWord(c)) && (Holds(x, 0x7f000000, 0x20000000) <==> BlankWord(d))
            && (Holds(x, 0x7f00000000, 0x2000000000) <==> BlankWord(e)) && (Holds(x, 0x7f0000000000, 0x200000000000) <==> BlankWord(f))
            && (Holds(x, 0x7f000000000000, 0x20000000000000) <==> BlankWord(g)) && (Holds(x, 0x7f00000000000000, 0x2000000000000000) <==> BlankWord(h))
  {
  }

  lemma ClearWhereBlank(a: bv64, b: bv64, c: bv64, d: bv64, e: bv64, f: bv64, g: bv64, h: bv64)
    requires Small(a, b, c, d, e, f, g, h)
    ensures var b' := Together(Marks(Join(a, b, c, d, e, f, g, h)));
            && (Clear(b', 1) <==> BlankWord(a)) && (Clear(b', 2) <==> BlankWord(b))
            && (Clear(b', 4) <==> BlankWord(c)) && (Clear(b', 8) <==> BlankWord(d))
            && (Clear(b', 16) <==> BlankWord(e)) && (Clear(b', 32) <==> BlankWord(f))
            && (Clear(b', 64) <==> BlankWord(g)) && (Clear(b', 128) <==> BlankWord(h))
  {
    hide Join, Marks, Together, Clear, ZeroAt, Holds, BlankWord;
    var x := Join(a, b, c, d, e, f, g, h);
    MarksAt(x);
    TogetherAt(Marks(x));
    BlanksAt(a, b, c, d, e, f, g, h);
  }

  lemma WideBlank(c: Octet)
    ensures BlankWord(Wide(c)) <==> Blank(c)
  {
  }

  lemma GapOfBits(b: bv8)
    ensures BitGap(b) ==
            if Clear(b, 1) && Clear(b, 2) then 0
            else if Clear(b, 2) && Clear(b, 4) then 1
            else if Clear(b, 4) && Clear(b, 8) then 2
            else if Clear(b, 8) && Clear(b, 16) then 3
            else if Clear(b, 16) && Clear(b, 32) then 4
            else if Clear(b, 32) && Clear(b, 64) then 5
            else if Clear(b, 64) && Clear(b, 128) then 6
            else 8
  {
  }

  // The first place with two blanks in a row, or 8.
  function Gap(s: seq<Octet>): nat
    requires |s| == 8
  {
    if Blank(s[0]) && Blank(s[1]) then 0
    else if Blank(s[1]) && Blank(s[2]) then 1
    else if Blank(s[2]) && Blank(s[3]) then 2
    else if Blank(s[3]) && Blank(s[4]) then 3
    else if Blank(s[4]) && Blank(s[5]) then 4
    else if Blank(s[5]) && Blank(s[6]) then 5
    else if Blank(s[6]) && Blank(s[7]) then 6
    else 8
  }

  /** The length found is that up to the first of two blanks in a row, or 8 if there is none. */
  lemma HexDumpLenExactly(s: seq<Octet>)
    requires |s| == 8
    ensures HexDumpLen(s) == Gap(s)
  {
    hide Marks, Together, TableAt, Join, Clear, Blank, BitGap, Wide, BlankWord;
    TableIsRight(Together(Marks(Word(s))));
    GapOfBits(Together(Marks(Word(s))));
    ClearWhereBlank(Wide(s[0]), Wide(s[1]), Wide(s[2]), Wide(s[3]), Wide(s[4]), Wide(s[5]), Wide(s[6]), Wide(s[7]));
    WideBlank(s[0]);
    WideBlank(s[1]);
    WideBlank(s[2]);
    WideBlank(s[3]);
    WideBlank(s[4]);
    WideBlank(s[5]);
    WideBlank(s[6]);
    WideBlank(s[7]);
  }
}
