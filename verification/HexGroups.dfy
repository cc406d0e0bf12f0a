/** What a line of a hexdump looks like: its groups of octets and where the text beside them stands. */
module HexGroups {
  import opened HexBits
  import opened HexDigits
  import opened HexLines
  import opened HexEntries

  const LOWER_CASE := "0123456789abcdef"
  const UPPER_CASE := "0123456789ABCDEF"

  // A hexadecimal digit of the case asked for.
  function DigitOf(n: nat, upper: bool): Octet
    requires n < 16
  {
    (if upper then UPPER_CASE[n] else LOWER_CASE[n]) as int as Octet
  }

  lemma DigitIs(n: nat, upper: bool)
    requires n < 16
    ensures Digit(n, upper) == DigitOf(n, upper)
  {
    if upper {
      UpperDigit(n);
    } else {
      LowerDigit(n);
    }
  }

  lemma LowerDigit(n: nat)
    requires n < 16
    ensures LOWER[n] == LOWER_CASE[n] as int as Octet
  {
    if n < 8 {
      LowerDigits();
    } else {
      LowerLetters();
    }
  }

  lemma LowerDigits()
    ensures forall n: nat :: n < 8 ==> LOWER[n] == LOWER_CASE[n] as int as Octet
  {
  }

  lemma LowerLetters()
    ensures forall n: nat :: 8 <= n < 16 ==> LOWER[n] == LOWER_CASE[n] as int as Octet
  {
  }

  lemma UpperDigit(n: nat)
    requires n < 16
    ensures UPPER[n] == UPPER_CASE[n] as int as Octet
  {
    if n < 8 {
      UpperDigits();
    } else {
      UpperLetters();
    }
  }

  lemma UpperDigits()
    ensures forall n: nat :: n < 8 ==> UPPER[n] == UPPER_CASE[n] as int as Octet
  {
  }

  lemma UpperLetters()
    ensures forall n: nat :: 8 <= n < 16 ==> UPPER[n] == UPPER_CASE[n] as int as Octet
  {
  }

  // Two digits for each octet, the higher one first.
  ghost function DigitsOf(bytes: seq<Octet>, upper: bool): (s: seq<Octet>)
    ensures |s| == 2 * |bytes|
  {
    if bytes == [] then []
    else [DigitOf(bytes[0] as nat / 16, upper), DigitOf(bytes[0] as nat % 16, upper)] + DigitsOf(bytes[1..], upper)
  }

  // The octets in groups, with one space between each two.
  ghost function Grouped(bytes: seq<Octet>, group: nat, upper: bool): seq<Octet>
    requires group > 0
  {
    if |bytes| <= group then DigitsOf(bytes, upper)
    else DigitsOf(bytes[..group], upper) + [SPACE] + Grouped(bytes[group..], group, upper)
  }

  ghost function Blanks(n: nat): (s: seq<Octet>)
    ensures |s| == n && forall k :: 0 <= k < n ==> s[k] == SPACE
  {
    seq(n, _ => SPACE)
  }

  ghost function Shown(bytes: seq<Octet>, display: Display): (s: seq<Octet>)
    ensures |s| == |bytes| && forall k :: 0 <= k < |s| ==> s[k] == display(bytes[k])
  {
    seq(|bytes|, k requires 0 <= k < |bytes| => display(bytes[k]))
  }

  // How wide so many octets are in groups.
  function Width(n: nat, group: nat): nat
    requires group > 0
  {
    if n == 0 then 0 else 2 * n + (n - 1) / group
  }

  // ----- Digits -----

  lemma Halved(b: Octet)
    ensures (b >> 4) as nat == b as nat / 16 < 16 && (b & 15) as nat == b as nat % 16
  {
    HighHalf(b);
    LowHalf(b);
  }

  lemma HighHalf(b: Octet)
    ensures (b >> 4) as nat == b as nat / 16 < 16
  {
    assert b >> 4 == b / 16;
  }

  lemma LowHalf(b: Octet)
    ensures (b & 15) as nat == b as nat % 16
  {
    assert b & 15 == b % 16;
  }

  lemma {:induction false} DigitsAt(bytes: seq<Octet>, upper: bool, i: nat)
    requires i < |bytes|
    ensures DigitsOf(bytes, upper)[2 * i] == DigitOf(bytes[i] as nat / 16, upper)
    ensures DigitsOf(bytes, upper)[2 * i + 1] == DigitOf(bytes[i] as nat % 16, upper)
  {
    hide DigitOf;
    if i > 0 {
      DigitsAt(bytes[1..], upper, i - 1);
    }
  }

  // ----- Columns -----

  // The columns of a group are those of the group before, moved by its width and a space.
  lemma ColumnGroup(i: nat, group: nat)
    requires group > 0
    ensures i < group ==> Column(i, group) == 2 + 2 * i
    ensures i >= group ==> Column(i, group) == Column(i - group, group) + 2 * group + 1
  {
    if i < group {
      QuotientIs(i, group, 0, i);
    } else {
      OneGroupMore(i - group, group);
    }
  }

  lemma WidthGroup(n: nat, group: nat)
    requires group > 0
    ensures n <= group ==> Width(n, group) == 2 * n
    ensures n > group ==> Width(n, group) == 2 * group + 1 + Width(n - group, group)
  {
    if 0 < n <= group {
      QuotientIs(n - 1, group, 0, n - 1);
    } else if n > group {
      OneGroupMore(n - 1 - group, group);
    }
  }

  lemma {:induction false} GroupedWidth(bytes: seq<Octet>, group: nat, upper: bool)
    requires group > 0
    ensures |Grouped(bytes, group, upper)| == Width(|bytes|, group)
    decreases |bytes|
  {
    hide Width, DigitsOf;
    WidthGroup(|bytes|, group);
    if |bytes| > group {
      GroupedWidth(bytes[group..], group, upper);
    }
  }

  // The digits of every octet stand where its column is.
  lemma {:induction false} GroupedAt(bytes: seq<Octet>, group: nat, upper: bool, i: nat)
    requires group > 0 && i < |bytes|
    ensures 2 <= Column(i, group) && Column(i, group) <= |Grouped(bytes, group, upper)|
    ensures Grouped(bytes, group, upper)[Column(i, group) - 2] == DigitOf(bytes[i] as nat / 16, upper)
    ensures Grouped(bytes, group, upper)[Column(i, group) - 1] == DigitOf(bytes[i] as nat % 16, upper)
    decreases |bytes|
  {
    hide Column, DigitOf, DigitsOf;
    ColumnGroup(i, group);
    if |bytes| <= group {
      DigitsAt(bytes, upper, i);
    } else if i < group {
      DigitsAt(bytes[..group], upper, i);
    } else {
      GroupedAt(bytes[group..], group, upper, i - group);
    }
  }

  lemma InFirstGroup(k: nat, n: nat, group: nat)
    requires group > 0 && k < 2 * n && k < 2 * group
    ensures InColumns(k + 2, n, group)
  {
    hide Column;
    ColumnGroup(k / 2, group);
    assert k + 2 == Column(k / 2, group) || k + 2 == Column(k / 2, group) + 1;
  }

  // Elsewhere there are spaces.
  lemma {:induction false} GroupedElse(bytes: seq<Octet>, group: nat, upper: bool, k: nat)
    requires group > 0 && k < |Grouped(bytes, group, upper)| && !InColumns(k + 2, |bytes|, group)
    ensures Grouped(bytes, group, upper)[k] == SPACE
    decreases |bytes|
  {
    hide Column, DigitsOf;
    var n := if |bytes| < group then |bytes| else group;
    if k < 2 * n {
      InFirstGroup(k, |bytes|, group);
    } else if k > 2 * group {
      forall i: nat | i < |bytes| - group
        ensures k - 2 * group - 1 + 2 != Column(i, group) && k - 2 * group - 1 + 2 != Column(i, group) + 1
      {
        ColumnGroup(i + group, group);
        assert k + 2 != Column(i + group, group);
      }
      GroupedElse(bytes[group..], group, upper, k - 2 * group - 1);
    }
  }

  // ----- The line -----

  // What stands between the offset and the end of the line: a colon, a space, the groups, blanks up to
  // the text, which is two behind the groups of a full line or three if these do not divide its columns.
  ghost function BodyText(bytes: seq<Octet>, c: Config): seq<Octet>
    requires ValidConfig(c)
  {
    [COLON, SPACE] + Grouped(bytes, c.group, c.upper)
    + Blanks(Padding(|bytes|, c)) + Shown(bytes, c.display) + [NEWLINE]
  }

  ghost function Padding(n: nat, c: Config): nat
    requires ValidConfig(c)
  {
    var groups := (c.cols + c.group - 1) / c.group;
    var blanks := Width(c.cols, c.group) - Width(n, c.group) + 2 + if c.cols % groups != 0 then 1 else 0;
    if blanks < 0 then 0 else blanks
  }

  lemma TextBaseIs(n: nat, c: Config)
    requires ValidConfig(c) && n <= c.cols
    ensures TextBase(c.cols, c.group) == 2 + Width(n, c.group) + Padding(n, c) && Padding(n, c) >= 2
  {
    hide Width;
    GroupsMean(c.cols, c.group);
    assert c.cols + c.group - 1 == c.cols - 1 + c.group;
    WidthIs(c.cols, c.group);
    WidthGrows(n, c.cols, c.group);
  }

  lemma WidthIs(n: nat, group: nat)
    requires group > 0
    ensures n > 0 ==> Width(n, group) == 2 * n + (n - 1) / group
  {
  }

  lemma WidthGrows(n: nat, m: nat, group: nat)
    requires group > 0 && n <= m
    ensures Width(n, group) <= Width(m, group)
  {
    if 0 < n < m {
      ColumnsApart(n - 1, m - 1, group);
    }
  }

  lemma WidthColumn(n: nat, group: nat)
    requires group > 0 && n > 0
    ensures 2 + Width(n, group) == Column(n - 1, group) + 2
  {
  }

  /** A printed line is its octets in groups, in digits of the case asked for, and their text beside them. */
  lemma BodyIsGrouped(body: seq<Octet>, bytes: seq<Octet>, c: Config)
    requires ValidConfig(c) && bytes != [] && IsBody(body, bytes, c.cols, c.group, c.upper, c.display)
    ensures body == BodyText(bytes, c)
  {
    hide Column, TextBase, Grouped, Width, DigitOf, Digit, Padding, InColumns;
    var base, n := TextBase(c.cols, c.group), |bytes|;
    var text, width := BodyText(bytes, c), Width(|bytes|, c.group);
    GroupedWidth(bytes, c.group, c.upper);
    TextBaseIs(n, c);
    assert |text| == |body|;
    forall k | 0 <= k < |body| ensures body[k] == text[k] {
      if 2 <= k < 2 + width {
        InGroups(body, bytes, c, k);
        assert text[k] == Grouped(bytes, c.group, c.upper)[k - 2];
      } else if 0 < k < base {
        BesideGroups(n, c, k);
      } else if base <= k < base + n {
        var i: nat := k - base;
        assert text[k] == Shown(bytes, c.display)[i] && body[base + i] == c.display(bytes[i]);
      }
    }
  }

  lemma BesideGroups(n: nat, c: Config, k: nat)
    requires ValidConfig(c) && 0 < n && (k < 2 || k >= 2 + Width(n, c.group))
    ensures !InColumns(k, n, c.group)
  {
    if k < 2 {
      forall i: nat ensures Column(i, c.group) >= 2 {
        ColumnIsPositive(i, c.group);
      }
    } else {
      WidthColumn(n, c.group);
      BeyondColumns(k, n, c.group);
    }
  }

  lemma BodyOctet(body: seq<Octet>, bytes: seq<Octet>, c: Config, i: nat)
    requires ValidConfig(c) && IsBody(body, bytes, c.cols, c.group, c.upper, c.display) && i < |bytes|
    ensures Column(i, c.group) + 1 < |body| && bytes[i] as nat / 16 < 16
    ensures body[Column(i, c.group)] == DigitOf(bytes[i] as nat / 16, c.upper)
    ensures body[Column(i, c.group) + 1] == DigitOf(bytes[i] as nat % 16, c.upper)
  {
    hide Column, TextBase, DigitOf, Digit, InColumns;
    Halved(bytes[i]);
    DigitIs((bytes[i] >> 4) as nat, c.upper);
    DigitIs((bytes[i] & 15) as nat, c.upper);
  }

  lemma BodyElse(body: seq<Octet>, bytes: seq<Octet>, c: Config, k: nat)
    requires ValidConfig(c) && IsBody(body, bytes, c.cols, c.group, c.upper, c.display)
    requires 0 < k < TextBase(c.cols, c.group) && !InColumns(k, |bytes|, c.group)
    ensures k < |body| && body[k] == SPACE
  {
    hide Column, TextBase, Digit, InColumns;
  }

  lemma InGroups(body: seq<Octet>, bytes: seq<Octet>, c: Config, k: nat)
    requires ValidConfig(c) && bytes != [] && IsBody(body, bytes, c.cols, c.group, c.upper, c.display)
    requires 2 <= k < 2 + |Grouped(bytes, c.group, c.upper)| && k < TextBase(c.cols, c.group) && k < |body|
    ensures body[k] == Grouped(bytes, c.group, c.upper)[k - 2]
  {
    hide Column, TextBase, Grouped, DigitOf, IsBody;
    if InColumns(k, |bytes|, c.group) {
      var i: nat :| i < |bytes| && (k == Column(i, c.group) || k == Column(i, c.group) + 1);
      GroupedAt(bytes, c.group, c.upper, i);
      BodyOctet(body, bytes, c, i);
    } else {
      BodyElse(body, bytes, c, k);
      GroupedElse(bytes, c.group, c.upper, k - 2);
    }
  }

  ghost predicate IsDigitOf(o: Octet, upper: bool) {
    exists d: nat :: d < 16 && o == DigitOf(d, upper)
  }

  lemma {:induction false} OffsetDigitsAre(x: nat, n: nat)
    ensures forall k :: 0 <= k < n ==> IsDigitOf(HexText(x, n)[k], false)
    decreases n
  {
    hide DigitOf, Digit;
    if n > 0 {
      OffsetDigitsAre(x / 16, n - 1);
      DigitIs(x % 16, false);
      assert IsDigitOf(Digit(x % 16, false), false);
    }
  }

  /** The line of an entry: the offset in 8 digits, or 16 from 2^32 on, lower case, then the octets. */
  lemma LineText(line: seq<Octet>, offset: nat, bytes: seq<Octet>, c: Config)
    requires ValidConfig(c) && Fits(line, Line(offset, bytes), c)
    ensures line == OffsetText(offset) + BodyText(bytes, c)
    ensures |OffsetText(offset)| == if offset < 4294967296 then 8 else 16
    ensures forall k :: 0 <= k < |OffsetText(offset)| ==> IsDigitOf(OffsetText(offset)[k], false)
  {
    hide IsBody, BodyText, HexText, OffsetText, IsDigitOf;
    var n := |OffsetText(offset)|;
    BodyIsGrouped(line[n..], bytes, c);
    assert line == line[..n] + line[n..];
    OffsetIs(offset);
    OffsetDigitsAre(offset, n);
  }

  lemma OffsetIs(x: nat)
    ensures OffsetText(x) == HexText(x, if x < 4294967296 then 8 else 16)
  {
  }
}
