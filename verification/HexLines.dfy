/** The lines of a hexdump: where their columns are, and what they are read back as. */
module HexLines {
  import opened HexBits
  import opened HexDigits
  import opened HexWords

  // ----- Columns -----

  function Groups(cols: nat, group: nat): (n: nat)
    requires cols > 0 && group > 0
  {
    (cols - 1 + group) / group
  }

  // Where the two digits of the octet with this index stand.
  function Column(i: nat, group: nat): nat
    requires group > 0
  {
    2 + i / group + 2 * i
  }

  lemma GroupsMean(cols: nat, group: nat)
    requires cols > 0 && group > 0
    ensures Groups(cols, group) == (cols - 1) / group + 1
  {
    OneGroupMore(cols - 1, group);
  }

  lemma OneGroupMore(n: nat, d: nat)
    requires d > 0
    ensures (n + d) / d == n / d + 1
  {
    var q := n / d;
    assert n + d == d * (q + 1) + n % d by {
      assert n == d * q + n % d;
    }
    QuotientIs(n + d, d, q + 1, n % d);
  }

  lemma QuotientIs(x: nat, d: nat, q: nat, r: nat)
    requires d > 0 && x == d * q + r && r < d
    ensures x / d == q
  {
    var p := x / d;
    assert x == d * p + x % d;
    if p < q {
      MoreByOne(d, p, q);
    } else if q < p {
      MoreByOne(d, q, p);
    }
  }

  lemma {:induction false} MoreByOne(d: nat, p: nat, q: nat)
    requires p < q
    ensures d * p + d <= d * q
    decreases q
  {
    assert d * q == d * (q - 1) + d;
    if p < q - 1 {
      MoreByOne(d, p, q - 1);
    }
  }

  // Where the text column starts.
  function TextBase(cols: nat, group: nat): nat
    requires cols > 0 && group > 0
  {
    GroupsMean(cols, group);
    3 + 2 * cols + Groups(cols, group) + if cols % Groups(cols, group) != 0 then 1 else 0
  }

  // The next octet comes at once, or after one space.
  lemma ColumnNext(i: nat, group: nat)
    requires group > 0
    ensures Column(i, group) + 2 <= Column(i + 1, group) <= Column(i, group) + 3
  {
    var q, r := i / group, i % group;
    assert i == group * q + r;
    if r + 1 < group {
      QuotientIs(i + 1, group, q, r + 1);
    } else {
      assert i + 1 == group * (q + 1) by {
        assert group * (q + 1) == group * q + group;
      }
      QuotientIs(i + 1, group, q + 1, 0);
    }
  }

  lemma {:induction false} ColumnsApart(i: nat, j: nat, group: nat)
    requires group > 0 && i < j
    ensures Column(i, group) + 2 <= Column(j, group)
    decreases j
  {
    hide Column;
    ColumnNext(j - 1, group);
    if i < j - 1 {
      ColumnsApart(i, j - 1, group);
    }
  }

  lemma FirstColumn(group: nat)
    requires group > 0
    ensures Column(0, group) == 2
  {
    QuotientIs(0, group, 0, 0);
  }

  // After the last column come at least two spaces.
  lemma LastColumn(cols: nat, group: nat)
    requires cols > 0 && group > 0
    ensures Column(cols - 1, group) + 4 <= TextBase(cols, group)
  {
    GroupsMean(cols, group);
  }

  // ----- A line without its offset -----

  type Display = Octet -> Octet

  // The columns of the first n octets.
  ghost predicate InColumns(k: int, n: nat, group: nat)
    requires group > 0
  {
    exists i: nat :: i < n && (k == Column(i, group) || k == Column(i, group) + 1)
  }

  ghost predicate IsBody(body: seq<Octet>, bytes: seq<Octet>, cols: nat, group: nat, upper: bool, display: Display)
    requires cols > 0 && group > 0
  {
    var base := TextBase(cols, group);
    && |bytes| <= cols && |body| == base + |bytes| + 1
    && body[0] == COLON
    && (forall i: nat :: i < |bytes| ==>
          && Column(i, group) + 1 < base
          && body[Column(i, group)] == Digit((bytes[i] >> 4) as nat, upper)
          && body[Column(i, group) + 1] == Digit((bytes[i] & 15) as nat, upper))
    && (forall k :: 0 < k < base && !InColumns(k, |bytes|, group) ==> body[k] == SPACE)
    && (forall i: nat :: i < |bytes| ==> body[base + i] == display(bytes[i]))
    && body[base + |bytes|] == NEWLINE
  }

  // ----- Finding the end of the columns -----

  predicate GapAt(s: seq<Octet>, i: int) {
    0 <= i && i + 1 < |s| && Blank(s[i]) && Blank(s[i + 1])
  }

  // The first two blanks in a row, or the end.
  function FirstGap(s: seq<Octet>, from: nat): (r: nat)
    requires from <= |s|
    ensures from <= r <= |s| && (r < |s| ==> GapAt(s, r))
    decreases |s| - from
  {
    if from == |s| || GapAt(s, from) then from else FirstGap(s, from + 1)
  }

  lemma {:induction false} GapIsFirst(s: seq<Octet>, from: nat, r: nat)
    requires from <= r <= |s| && (r < |s| ==> GapAt(s, r)) && forall j :: from <= j < r ==> !GapAt(s, j)
    ensures FirstGap(s, from) == r
    decreases r - from
  {
    if from < r {
      GapIsFirst(s, from + 1, r);
    }
  }

  lemma GapInBlock(s: seq<Octet>, at: nat)
    requires at + 8 <= |s|
    ensures var r := HexDumpLen(s[at..at + 8]);
            && (r <= 6 || r == 8)
            && (r < 8 ==> GapAt(s, at + r))
            && forall j :: at <= j < at + r && j < at + 7 ==> !GapAt(s, j)
  {
    hide HexDumpLen, Blank;
    var t := s[at..at + 8];
    HexDumpLenExactly(t);
    forall i | 0 <= i < 7 ensures GapAt(s, at + i) <==> Blank(t[i]) && Blank(t[i + 1]) {
    }
    forall j | at <= j < at + HexDumpLen(t) && j < at + 7 ensures !GapAt(s, j) {
      assert GapAt(s, at + (j - at)) <==> Blank(t[j - at]) && Blank(t[j - at + 1]);
    }
  }

  // Without a gap, a blank at the very end is cut off, and after a multiple of 7 octets the length
  // found is one too long.
  function EndOf(s: seq<Octet>): int {
    if s == [] then 0 else if Blank(s[|s| - 1]) then |s| - 1 else if |s| % 7 == 0 then |s| + 1 else |s|
  }

  /** Steps through blocks of eight octets, seven at a time. The length returned is that up to the
      first double space. */
  method HexDumpTrim(s: seq<Octet>) returns (len: nat)
    ensures len == if FirstGap(s, 0) < |s| then FirstGap(s, 0) else EndOf(s)
  {
    hide HexDumpLen, Blank;
    len := 0;
    while len < |s| - 7
      invariant 0 <= len <= |s| && len % 7 == 0 && (len < |s| || s == [])
      invariant forall j :: 0 <= j < len ==> !GapAt(s, j)
    {
      var n := HexDumpLen(s[len..len + 8]);
      GapInBlock(s, len);
      if n < 8 {
        GapIsFirst(s, 0, len + n);
        return len + n;
      }
      len := len + 7;
    }
    var tmp := s[len..] + seq(8 - (|s| - len), _ => SPACE);
    LastBlock(s, len, tmp);
    len := len + HexDumpLen(tmp);
  }

  lemma LastBlock(s: seq<Octet>, at: nat, tmp: seq<Octet>)
    requires at <= |s| <= at + 7 && at % 7 == 0 && (at < |s| || s == [])
    requires tmp == s[at..] + seq(8 - (|s| - at), _ => SPACE)
    requires forall j :: 0 <= j < at ==> !GapAt(s, j)
    ensures at + HexDumpLen(tmp) == if FirstGap(s, 0) < |s| then FirstGap(s, 0) else EndOf(s)
  {
    hide HexDumpLen, Blank, GapAt, FirstGap, EndOf;
    assert tmp[0..8] == tmp;
    GapInBlock(tmp, 0);
    PaddedGaps(s, at, tmp);
    LastGap(s, at, tmp, HexDumpLen(tmp));
    if HexDumpLen(tmp) + 1 >= |s| - at {
      EndOfPadded(s, at, tmp, HexDumpLen(tmp));
    }
  }

  lemma LastGap(s: seq<Octet>, at: nat, tmp: seq<Octet>, r: nat)
    requires at <= |s| <= at + 7 && |tmp| == 8 && forall j :: 0 <= j < at ==> !GapAt(s, j)
    requires forall i :: 0 <= i < |s| - at - 1 ==> (GapAt(tmp, i) <==> GapAt(s, at + i))
    requires (r <= 6 || r == 8) && (r < 8 ==> GapAt(tmp, r)) && forall j :: 0 <= j < r && j < 7 ==> !GapAt(tmp, j)
    ensures FirstGap(s, 0) == if r + 1 < |s| - at then at + r else |s|
  {
    hide GapAt, FirstGap;
    var end := if r + 1 < |s| - at then at + r else |s|;
    forall j | at <= j < end ensures !GapAt(s, j) {
      NoGapAtEnd(s, j);
      if j + 1 < |s| {
        assert !GapAt(tmp, j - at);
        assert at + (j - at) == j;
      }
    }
    GapIsFirst(s, 0, end);
  }

  lemma NoGapAtEnd(s: seq<Octet>, j: int)
    ensures j + 1 >= |s| ==> !GapAt(s, j)
  {
  }

  // Padded with spaces, a block has the gaps of the text, and one at its end.
  lemma PaddedGaps(s: seq<Octet>, at: nat, tmp: seq<Octet>)
    requires at <= |s| <= at + 7 && tmp == s[at..] + seq(8 - (|s| - at), _ => SPACE)
    ensures var m := |s| - at;
            && (forall i :: 0 <= i < m - 1 ==> (GapAt(tmp, i) <==> GapAt(s, at + i)))
            && (m > 0 ==> (GapAt(tmp, m - 1) <==> Blank(s[|s| - 1])))
            && (m <= 6 ==> GapAt(tmp, m))
  {
    hide Blank;
    NoValue();
    var m := |s| - at;
    assert forall i :: 0 <= i < m ==> tmp[i] == s[at + i];
    assert forall i :: m <= i < 8 ==> tmp[i] == SPACE;
  }

  lemma EndOfPadded(s: seq<Octet>, at: nat, tmp: seq<Octet>, r: nat)
    requires at <= |s| <= at + 7 && at % 7 == 0 && (at < |s| || s == []) && |tmp| == 8
    requires var m := |s| - at;
             && (m > 0 ==> (GapAt(tmp, m - 1) <==> Blank(s[|s| - 1]))) && (m <= 6 ==> GapAt(tmp, m))
    requires (r <= 6 || r == 8) && (r < 8 ==> GapAt(tmp, r)) && forall j :: 0 <= j < r && j < 7 ==> !GapAt(tmp, j)
    requires r + 1 >= |s| - at
    ensures at + r == EndOf(s)
  {
    hide Blank, GapAt;
    var m := |s| - at;
    assert m == 7 <==> |s| % 7 == 0 && s != [];
    if m > 0 {
      assert GapAt(tmp, m - 1) ==> r <= m - 1;
      assert r == m - 1 ==> GapAt(tmp, m - 1);
    }
    assert m <= 6 ==> r <= m;
  }

  // ----- Reading a line back -----

  lemma ColumnIsDigit(body: seq<Octet>, bytes: seq<Octet>, cols: nat, group: nat, upper: bool, display: Display, k: int)
    requires cols > 0 && group > 0 && IsBody(body, bytes, cols, group, upper, display) && InColumns(k, |bytes|, group)
    ensures 0 <= k < TextBase(cols, group) && !Blank(body[k])
  {
    hide Column, TextBase, Blank, NibbleValue, Whitespace, Digit;
    var i: nat :| i < |bytes| && (k == Column(i, group) || k == Column(i, group) + 1);
    ColumnIsPositive(i, group);
    NibblesOfOctet(bytes[i]);
    DigitHasValue((bytes[i] >> 4) as nat, upper);
    DigitHasValue((bytes[i] & 15) as nat, upper);
  }

  lemma ColumnIsPositive(i: nat, group: nat)
    requires group > 0
    ensures Column(i, group) >= 2
  {
  }

  lemma NibblesOfOctet(b: Octet)
    ensures (b >> 4) as nat < 16 && (b & 15) as nat < 16
    ensures Pair((b >> 4) as nat, (b & 15) as nat) == b
  {
    hide Nibble;
    NibbleBits(b >> 4);
    NibbleBits(b & 15);
    Halves(b);
  }

  lemma Halves(b: Octet)
    ensures b >> 4 < 16 && b & 15 < 16
    ensures (((((b >> 4) as bv64) << 4) | ((b & 15) as bv64)) & 0xff) as bv8 == b
  {
  }

  lemma NibbleBits(x: bv8)
    ensures x < 16 ==> x as nat < 16 && Nibble(x as nat) == x as bv64
  {
    if x == 0 || x == 1 || x == 2 || x == 3 || x == 4 || x == 5 || x == 6 || x == 7 {
    } else if x == 8 || x == 9 || x == 10 || x == 11 || x == 12 || x == 13 || x == 14 || x == 15 {
    }
  }

  // Between the columns there is never more than one space.
  lemma {:induction false} Covered(k: int, n: nat, group: nat)
    requires group > 0 && n > 0 && 1 <= k <= Column(n - 1, group) + 1
    ensures InColumns(k, n, group) || InColumns(k + 1, n, group)
    decreases n
  {
    hide Column;
    if n == 1 {
      FirstColumn(group);
      assert k == Column(0, group) || k == Column(0, group) + 1 || k + 1 == Column(0, group);
    } else if k <= Column(n - 2, group) + 1 {
      Covered(k, n - 1, group);
    } else {
      ColumnNext(n - 2, group);
      assert k == Column(n - 1, group) || k == Column(n - 1, group) + 1 || k + 1 == Column(n - 1, group);
    }
  }

  lemma BeyondColumns(k: int, n: nat, group: nat)
    requires group > 0 && n > 0 && k > Column(n - 1, group) + 1
    ensures !InColumns(k, n, group)
  {
    hide Column;
    forall i: nat | i < n ensures Column(i, group) <= Column(n - 1, group) {
      if i < n - 1 {
        ColumnsApart(i, n - 1, group);
      }
    }
  }

  lemma ColumnsFit(n: nat, cols: nat, group: nat)
    requires 0 < n <= cols && group > 0
    ensures Column(n - 1, group) + 4 <= TextBase(cols, group)
  {
    hide Column, TextBase;
    LastColumn(cols, group);
    if n < cols {
      ColumnsApart(n - 1, cols - 1, group);
    }
  }

  // The first double space after the colon is right after the last column.
  lemma BodyGap(body: seq<Octet>, bytes: seq<Octet>, cols: nat, group: nat, upper: bool, display: Display)
    requires cols > 0 && group > 0 && bytes != [] && IsBody(body, bytes, cols, group, upper, display)
    ensures FirstGap(body[1..], 0) == Column(|bytes| - 1, group) + 1 < |body[1..]|
  {
    hide Column, TextBase, Blank, NibbleValue, Digit, InColumns;
    var n, tail := |bytes|, body[1..];
    var p := Column(n - 1, group) + 1;
    ColumnIsPositive(n - 1, group);
    ColumnsFit(n, cols, group);
    BeyondColumns(p + 1, n, group);
    BeyondColumns(p + 2, n, group);
    NoValue();
    assert GapAt(tail, p);
    forall j | 0 <= j < p ensures !GapAt(tail, j) {
      Covered(j + 1, n, group);
      if InColumns(j + 1, n, group) {
        ColumnIsDigit(body, bytes, cols, group, upper, display, j + 1);
      } else {
        ColumnIsDigit(body, bytes, cols, group, upper, display, j + 2);
      }
    }
    GapIsFirst(tail, 0, p);
  }

  ghost function NibblesOf(bytes: seq<Octet>): Nibbles {
    if bytes == [] then []
    else
      var b := bytes[|bytes| - 1];
      NibblesOfOctet(b);
      NibblesOf(bytes[..|bytes| - 1]) + [(b >> 4) as nat, (b & 15) as nat]
  }

  lemma NibblesTaken(bytes: seq<Octet>, n: nat)
    requires 0 < n <= |bytes| && (bytes[n - 1] >> 4) as nat < 16 && (bytes[n - 1] & 15) as nat < 16
    ensures NibblesOf(bytes[..n]) == NibblesOf(bytes[..n - 1]) + [(bytes[n - 1] >> 4) as nat] + [(bytes[n - 1] & 15) as nat]
    ensures NibblesOf(bytes[..0]) == []
  {
    assert bytes[..n][..n - 1] == bytes[..n - 1];
  }

  lemma {:induction false} NibblesSpell(bytes: seq<Octet>)
    ensures Pairs(NibblesOf(bytes)) == bytes && |NibblesOf(bytes)| == 2 * |bytes|
    decreases |bytes|
  {
    hide Pair, Pairs;
    PairsNothing();
    if bytes != [] {
      var b := bytes[|bytes| - 1];
      NibblesSpell(bytes[..|bytes| - 1]);
      NibblesOfOctet(b);
      PairsSnoc(NibblesOf(bytes[..|bytes| - 1]), (b >> 4) as nat, (b & 15) as nat);
    }
  }

  lemma PairsSnoc(ns: Nibbles, hi: nat, lo: nat)
    requires hi < 16 && lo < 16
    ensures Pairs(ns + [hi, lo]) == Pairs(ns) + [Pair(hi, lo)]
  {
    hide Pair;
    assert (ns + [hi, lo])[..|ns|] == ns;
  }

  lemma DigitsAppend(s: seq<Octet>, c: Octet)
    ensures DigitsIn(s + [c]) == DigitsIn(s) + if NibbleValue(c) >= 0 then [NibbleValue(c)] else []
  {
    assert (s + [c])[..|s|] == s;
  }

  // The digits in the columns are those of the octets, one after the other.
  lemma {:induction false} BodyDigits(body: seq<Octet>, bytes: seq<Octet>, cols: nat, group: nat, upper: bool, display: Display, n: nat)
    requires cols > 0 && group > 0 && 0 < n <= |bytes| && IsBody(body, bytes, cols, group, upper, display)
    ensures Column(n - 1, group) + 2 <= |body|
    ensures DigitsIn(body[1..Column(n - 1, group) + 2]) == NibblesOf(bytes[..n])
    decreases n
  {
    hide Column, TextBase, Blank, NibbleValue, Digit, InColumns, DigitsIn, IsBody, NibblesOf, Pair, Whitespace;
    var b := bytes[n - 1];
    NibblesOfOctet(b);
    NibblesTaken(bytes, n);
    ColumnOctet(body, bytes, cols, group, upper, display, n - 1);
    var c := Column(n - 1, group);
    DigitHasValue((b >> 4) as nat, upper);
    DigitHasValue((b & 15) as nat, upper);
    TwoDigits(body, c, (b >> 4) as nat, (b & 15) as nat);
    UpToColumn(body, bytes, cols, group, upper, display, n);
    if n > 1 {
      BodyDigits(body, bytes, cols, group, upper, display, n - 1);
    }
  }

  lemma TwoDigits(body: seq<Octet>, c: nat, hi: nat, lo: nat)
    requires 1 <= c && c + 2 <= |body| && NibbleValue(body[c]) == hi && NibbleValue(body[c + 1]) == lo
    ensures DigitsIn(body[1..c + 2]) == DigitsIn(body[1..c]) + [hi] + [lo]
  {
    hide NibbleValue, DigitsIn;
    assert body[1..c + 2] == body[1..c] + [body[c]] + [body[c + 1]];
    DigitsAppend(body[1..c], body[c]);
    DigitsAppend(body[1..c] + [body[c]], body[c + 1]);
  }

  lemma ColumnOctet(body: seq<Octet>, bytes: seq<Octet>, cols: nat, group: nat, upper: bool, display: Display, i: nat)
    requires cols > 0 && group > 0 && i < |bytes| && IsBody(body, bytes, cols, group, upper, display)
    ensures var c := Column(i, group);
            && 2 <= c && c + 2 <= |body|
            && (bytes[i] >> 4) as nat < 16 && (bytes[i] & 15) as nat < 16
            && body[c] == Digit((bytes[i] >> 4) as nat, upper) && body[c + 1] == Digit((bytes[i] & 15) as nat, upper)
  {
    hide Column, TextBase, InColumns, Digit;
    ColumnIsPositive(i, group);
    NibblesOfOctet(bytes[i]);
  }

  // Up to the next column there are no more digits than up to the end of the one before.
  lemma UpToColumn(body: seq<Octet>, bytes: seq<Octet>, cols: nat, group: nat, upper: bool, display: Display, n: nat)
    requires cols > 0 && group > 0 && 0 < n <= |bytes| && IsBody(body, bytes, cols, group, upper, display)
    ensures 2 <= Column(n - 1, group) < |body|
    ensures n == 1 ==> DigitsIn(body[1..Column(0, group)]) == []
    ensures n > 1 ==> 1 <= Column(n - 2, group) + 2 <= Column(n - 1, group)
    ensures n > 1 ==> DigitsIn(body[1..Column(n - 1, group)]) == DigitsIn(body[1..Column(n - 2, group) + 2])
  {
    hide Column, TextBase, Blank, NibbleValue, Digit, InColumns;
    NoValue();
    ColumnIsPositive(n - 1, group);
    ColumnsFit(n, cols, group);
    if n == 1 {
      FirstColumn(group);
      NotInFirst(1, |bytes|, group);
      assert body[1..2] == [] + [body[1]];
      DigitsAppend([], body[1]);
    } else {
      ColumnNext(n - 2, group);
      var e := Column(n - 2, group) + 2;
      if e < Column(n - 1, group) {
        BetweenColumns(e, n, |bytes|, group);
        assert body[1..e + 1] == body[1..e] + [body[e]];
        DigitsAppend(body[1..e], body[e]);
      }
    }
  }

  lemma NotInFirst(k: int, n: nat, group: nat)
    requires group > 0 && k < 2
    ensures !InColumns(k, n, group)
  {
  }

  lemma BetweenColumns(e: int, n: nat, m: nat, group: nat)
    requires group > 0 && 1 < n <= m && e == Column(n - 2, group) + 2 < Column(n - 1, group)
    ensures !InColumns(e, m, group)
  {
    hide Column;
    forall i: nat | i < m ensures Column(i, group) + 1 < e || Column(i, group) > e {
      if i < n - 2 {
        ColumnsApart(i, n - 2, group);
      } else if i > n - 1 {
        ColumnsApart(n - 1, i, group);
      }
    }
  }

  /** What is read of a line is what was printed on it: trimmed at the first double space, its digits
      spell the octets. */
  lemma BodyReadsBack(body: seq<Octet>, bytes: seq<Octet>, cols: nat, group: nat, upper: bool, display: Display)
    requires cols > 0 && group > 0 && bytes != [] && IsBody(body, bytes, cols, group, upper, display)
    ensures var tail := body[1..];
            && FirstGap(tail, 0) < |tail|
            && Spelled(DigitsIn(tail[..FirstGap(tail, 0)])) == bytes
  {
    hide Column, TextBase, IsBody, DigitsIn, Spelled, Pairs;
    BodyGap(body, bytes, cols, group, upper, display);
    BodyDigits(body, bytes, cols, group, upper, display, |bytes|);
    var p := FirstGap(body[1..], 0);
    assert body[1..][..p] == body[1..p + 1];
    assert bytes[..|bytes|] == bytes;
    NibblesSpell(bytes);
    SpelledInPairs(NibblesOf(bytes));
  }

  // ----- Cutting a line in two -----

  /** Cuts at the first octet c, after skipping blocks of eight that have none. */
  method Cut(s: seq<Octet>, c: Octet) returns (head: seq<Octet>, tail: seq<Octet>, ok: bool)
    ensures ok <==> c in s
    ensures if ok then s == head + [c] + tail && c !in head else head == s && tail == []
  {
    var cut := SkipBlocks(s, c);
    while cut < |s| && s[cut] != c
      invariant 0 <= cut <= |s|
      invariant forall k :: 0 <= k < cut ==> s[k] != c
    {
      cut := cut + 1;
    }
    ok := cut < |s|;
    head := s[..cut];
    tail := if ok then s[cut + 1..] else [];
  }

  // Skips blocks of eight octets without c.
  method SkipBlocks(s: seq<Octet>, c: Octet) returns (cut: nat)
    ensures cut <= |s| && forall k :: 0 <= k < cut ==> s[k] != c
  {
    hide HasOctet;
    cut := 0;
    while |s| - cut >= 8
      invariant 0 <= cut <= |s|
      invariant forall k :: 0 <= k < cut ==> s[k] != c
    {
      HasOctetExactly(s[cut..cut + 8], c);
      if HasOctet(s[cut..cut + 8], c) {
        break;
      }
      NoneInBlock(s, cut, c);
      cut := cut + 8;
    }
  }

  lemma NoneInBlock(s: seq<Octet>, at: nat, c: Octet)
    requires at + 8 <= |s| && c !in s[at..at + 8]
    ensures forall k :: at <= k < at + 8 ==> s[k] != c
  {
    forall k | at <= k < at + 8 ensures s[k] != c {
      assert s[k] == s[at..at + 8][k - at];
    }
  }
}
