/** Reading a hexdump back into a file, and the round trip. */
module HexUndump {
  import opened HexBits
  import opened HexDigits
  import opened HexStreams
  import opened HexWords
  import opened HexLines
  import opened HexEntries
  import opened HexDump

  // Cuts whitespace off both ends.
  method Trim(s: seq<Octet>) returns (r: seq<Octet>)
    ensures exists a: nat, b: nat :: a <= b <= |s| && r == s[a..b]
              && (forall k :: 0 <= k < a || b <= k < |s| ==> Whitespace(s[k]))
    ensures r != [] ==> !Whitespace(r[0]) && !Whitespace(r[|r| - 1])
    ensures s != [] && !Whitespace(s[0]) && !Whitespace(s[|s| - 1]) ==> r == s
  {
    hide Whitespace;
    var beg, end := 0, |s|;
    while beg < end && Whitespace(s[beg])
      invariant 0 <= beg <= end
      invariant forall k :: 0 <= k < beg ==> Whitespace(s[k])
    {
      beg := beg + 1;
    }
    while beg < end && Whitespace(s[end - 1])
      invariant beg <= end <= |s|
      invariant beg < end ==> !Whitespace(s[beg])
      invariant forall k :: end <= k < |s| ==> Whitespace(s[k])
    {
      end := end - 1;
    }
    r := s[beg..end];
  }

  // A line as it is cut: nothing before the colon but the offset.
  lemma LineParts(line: seq<Octet>, offset: nat, bytes: seq<Octet>, c: Config)
    requires ValidConfig(c) && Fits(line, Line(offset, bytes), c)
    ensures |OffsetText(offset)| <= |line|
    ensures var body := line[|OffsetText(offset)|..];
            && IsBody(body, bytes, c.cols, c.group, c.upper, c.display)
            && body != [] && body[0] == COLON && line == OffsetText(offset) + [COLON] + body[1..]
            && COLON !in OffsetText(offset) && COLON in line
  {
    hide Column, TextBase, InColumns, Digit, HexText;
    var text := OffsetText(offset);
    var body := line[|text|..];
    PlainDigits(offset, 8);
    PlainDigits(offset, 16);
    BaseIsPositive(c);
    assert body == [COLON] + body[1..];
    assert line == text + body;
  }

  lemma CutIsUnique(head: seq<Octet>, tail: seq<Octet>, head': seq<Octet>, tail': seq<Octet>)
    requires head + [COLON] + tail == head' + [COLON] + tail' && COLON !in head && COLON !in head'
    ensures head == head' && tail == tail'
  {
    var s, s' := head + [COLON] + tail, head' + [COLON] + tail';
    assert s[|head|] == COLON && s'[|head'|] == COLON;
    forall j | 0 <= j < |head| ensures s[j] != COLON {
      assert s[j] == head[j];
    }
    forall j | 0 <= j < |head'| ensures s'[j] != COLON {
      assert s'[j] == head'[j];
    }
    assert |head| == |head'|;
    assert head == s[..|head|] && head' == s'[..|head'|];
    assert tail == s[|head| + 1..] && tail' == s'[|head'| + 1..];
  }

  lemma OffsetIsTrimmed(x: nat)
    ensures OffsetText(x) != [] && !Whitespace(OffsetText(x)[0]) && !Whitespace(OffsetText(x)[|OffsetText(x)| - 1])
  {
    hide HexText, Whitespace;
    PlainDigits(x, 8);
    PlainDigits(x, 16);
  }

  lemma StarHasNoColon()
    ensures COLON !in [STAR, NEWLINE]
  {
  }

  // What an entry makes of the file so far.
  ghost function Entered(file: seq<Octet>, e: Entry): seq<Octet> {
    match e
    case Star => file
    case Line(offset, bytes) => WriteAt(file, offset, bytes)
  }

  // A gap before the place written to is filled with zeros, whether they were written already or not.
  lemma GapFilled(file: seq<Octet>, offset: nat, bytes: seq<Octet>)
    requires |file| <= offset && bytes != []
    ensures |WriteAt(file, offset, bytes)| == offset + |bytes|
    ensures |file| < offset ==>
              WriteAt(WriteAt(file, |file|, Zeros(offset - |file|)), offset, bytes) == WriteAt(file, offset, bytes)
  {
  }

  // The line is that of an entry that goes on after what was written so far.
  ghost predicate Expected(bo: Output, line: seq<Octet>, e: Entry, c: Config)
    reads bo
  {
    && ValidConfig(c) && Fits(line, e, c) && bo.fpos == |bo.Contents()|
    && (e.Line? ==> bo.fpos <= e.offset < 0x8000_0000_0000_0000 && e.bytes != [])
  }

  // What the columns of an expected line are cut down to.
  lemma ExpectedLine(bo: Output, line: seq<Octet>, e: Entry, c: Config, head: seq<Octet>, tail: seq<Octet>, ok: bool)
    requires Expected(bo, line, e, c) && (ok <==> COLON in line)
    requires ok ==> line == head + [COLON] + tail && COLON !in head
    ensures ok <==> e.Line?
    ensures ok ==> head != [] && !Whitespace(head[0]) && !Whitespace(head[|head| - 1]) && ParseOffset(head) == Offset(e.offset)
    ensures ok ==> FirstGap(tail, 0) < |tail| && Spelled(DigitsIn(tail[..FirstGap(tail, 0)])) == e.bytes
  {
    hide IsBody, OffsetText, DigitsIn, Spelled, FirstGap, ParseOffset, Whitespace, Output.Contents;
    StarHasNoColon();
    if e.Line? {
      PrintedLine(line, e.offset, e.bytes, c, head, tail, ok);
    }
  }

  lemma PrintedLine(line: seq<Octet>, offset: nat, bytes: seq<Octet>, c: Config, head: seq<Octet>, tail: seq<Octet>, ok: bool)
    requires ValidConfig(c) && Fits(line, Line(offset, bytes), c) && offset < 0x8000_0000_0000_0000 && bytes != []
    requires (ok <==> COLON in line) && (ok ==> line == head + [COLON] + tail && COLON !in head)
    ensures ok && head != [] && !Whitespace(head[0]) && !Whitespace(head[|head| - 1]) && ParseOffset(head) == Offset(offset)
    ensures FirstGap(tail, 0) < |tail| && Spelled(DigitsIn(tail[..FirstGap(tail, 0)])) == bytes
  {
    hide Fits, IsBody, OffsetText, DigitsIn, Spelled, FirstGap, ParseOffset, Whitespace;
    LineParts(line, offset, bytes, c);
    var body := line[|OffsetText(offset)|..];
    CutIsUnique(head, tail, OffsetText(offset), body[1..]);
    OffsetIsTrimmed(offset);
    OffsetParses(offset);
    BodyReadsBack(body, bytes, c.cols, c.group, c.upper, c.display);
  }

  // What an entry shows ends at a position that fits.
  ghost predicate EndFits(e: Entry) {
    e.Line? ==> e.offset + |e.bytes| <= MAX_POSITION
  }

  // Reads one line; of an expected one, what it shows is written where it belongs, and only a faulty
  // device or a position that does not fit can be in the way.
  method UndumpLine(bo: Output, line: seq<Octet>, ghost e: Entry, ghost c: Config)
    requires bo.Valid()
    modifies bo
    ensures bo.Valid()
    ensures old(Expected(bo, line, e, c)) && !bo.err ==>
              bo.Contents() == Entered(old(bo.Contents()), e) && bo.fpos == |bo.Contents()|
    ensures old(Expected(bo, line, e, c)) && bo.err ==> old(bo.err) || bo.faulty || !EndFits(e)
  {
    hide WriteAt, Output.Contents, IsBody, OffsetText, DigitsIn, Spelled, FirstGap, ParseOffset, Whitespace, EndOf, Fits;
    ghost var file, expected := bo.Contents(), Expected(bo, line, e, c);
    var head, tail, ok := Cut(line, COLON);
    if expected {
      ExpectedLine(bo, line, e, c, head, tail, ok);
    }
    if !ok {
      return;
    }
    var addr := Trim(head);
    var p := ParseOffsetText(addr);
    match p {
      case Invalid =>
        return;
      case Overflow =>
        bo.err := true;
        return;
      case Offset(offset) =>
        bo.Seek(offset);
    }
    var len := HexDumpTrim(tail);
    Decode(tail[..if len <= |tail| then len else |tail|], bo);
    if expected {
      GapFilled(file, e.offset, e.bytes);
    }
  }

  lemma {:induction false} JoinedFront(parts: seq<seq<Octet>>)
    requires parts != []
    ensures Joined(parts) == parts[0] + Joined(parts[1..])
    decreases |parts|
  {
    if |parts| > 1 {
      var init := parts[..|parts| - 1];
      JoinedFront(init);
      assert parts[1..][..|parts| - 2] == init[1..];
    }
  }

  lemma FitsOneLine(line: seq<Octet>, e: Entry, c: Config)
    requires ValidConfig(c) && Fits(line, e, c)
    ensures OneLine(line)
  {
    hide Column, TextBase, Digit, InColumns, OffsetText, HexText;
    match e
    case Star =>
      assert [STAR, NEWLINE][..1] == [STAR];
    case Line(offset, bytes) =>
      PlainOffset(offset);
      var text := OffsetText(offset);
      var body := line[|text|..];
      BodyOneLine(body, bytes, c);
      assert line == text + body;
      assert line[..|line| - 1] == text + body[..|body| - 1];
  }

  lemma PlainOffset(x: nat)
    ensures Plain(OffsetText(x))
  {
    hide HexText;
    PlainDigits(x, 8);
    PlainDigits(x, 16);
  }

  lemma BodyOneLine(body: seq<Octet>, bytes: seq<Octet>, c: Config)
    requires ValidConfig(c) && IsBody(body, bytes, c.cols, c.group, c.upper, c.display)
    ensures OneLine(body)
  {
    hide Column, TextBase, Digit, InColumns;
    var base := TextBase(c.cols, c.group);
    BaseIsPositive(c);
    forall k | 0 <= k < |body| - 1 ensures body[k] != NEWLINE {
      if 0 < k < base {
        if InColumns(k, |bytes|, c.group) {
          InColumn(k, |bytes|, c.group);
          var i: nat :| i < |bytes| && (k == Column(i, c.group) || k == Column(i, c.group) + 1);
          NibblesOfOctet(bytes[i]);
          DigitHasValue((bytes[i] >> 4) as nat, c.upper);
          DigitHasValue((bytes[i] & 15) as nat, c.upper);
        }
      } else if base <= k {
        var i: nat := k - base;
        assert body[base + i] == c.display(bytes[i]);
      }
    }
  }

  lemma SameLine(s: seq<Octet>, x: seq<Octet>, t: seq<Octet>, y: seq<Octet>)
    requires OneLine(s) && s + x == t + y
    ensures OneLine(t) ==> s == t && x == y
    ensures !Plain(t + y)
  {
    assert (s + x)[|s| - 1] == NEWLINE;
    if OneLine(t) {
      assert (t + y)[|t| - 1] == NEWLINE;
      forall j | 0 <= j < |s| - 1 ensures (s + x)[j] != NEWLINE {
        assert (s + x)[j] == s[..|s| - 1][j];
      }
      forall j | 0 <= j < |t| - 1 ensures (t + y)[j] != NEWLINE {
        assert (t + y)[j] == t[..|t| - 1][j];
      }
      assert |s| == |t|;
      assert s == (s + x)[..|s|] && t == (t + y)[..|t|];
      assert x == (s + x)[|s|..] && y == (t + y)[|t|..];
    }
  }

  // What is left to read are the lines from some place on.
  ghost predicate Reading(bo: Output, bi: Input, lines: seq<seq<Octet>>, es: seq<Entry>, i: nat)
    reads bo, bi
  {
    && bi.Valid() && i <= |lines| == |es| && bi.Remaining() == Joined(lines[i..])
    && bo.Contents() == Placed(es[..i]) && bo.fpos == |bo.Contents()|
  }

  lemma NextIs(lines: seq<seq<Octet>>, es: seq<Entry>, c: Config, i: nat, line: seq<Octet>, rest: seq<Octet>)
    requires ValidConfig(c) && AllFit(lines, es, c) && i <= |lines| && line + rest == Joined(lines[i..])
    requires if Plain(line) then rest == [] else OneLine(line)
    ensures if i == |lines| then line == [] else line == lines[i] && rest == Joined(lines[i + 1..])
  {
    hide Fits, Plain, OneLine, Joined;
    if i < |lines| {
      JoinedFront(lines[i..]);
      assert lines[i..][1..] == lines[i + 1..];
      FitsOneLine(lines[i], es[i], c);
      SameLine(lines[i], Joined(lines[i + 1..]), line, rest);
      assert rest == [] ==> line + rest == line;
    } else {
      JoinedNothing();
      assert lines[i..] == [];
    }
  }

  lemma JoinedNothing()
    ensures Joined([]) == []
  {
  }

  ghost predicate SmallOffsets(es: seq<Entry>) {
    forall i :: 0 <= i < |es| && es[i].Line? ==> es[i].offset < 0x8000_0000_0000_0000
  }

  lemma EntryExpected(bo: Output, lines: seq<seq<Octet>>, es: seq<Entry>, c: Config, i: nat)
    requires ValidConfig(c) && AllFit(lines, es, c) && Ascending(es) && SmallOffsets(es) && i < |es|
    requires bo.Contents() == Placed(es[..i]) && bo.fpos == |bo.Contents()|
    ensures Expected(bo, lines[i], es[i], c) && Placed(es[..i + 1]) == Entered(Placed(es[..i]), es[i])
  {
    hide Fits, Placed, Output.Contents;
    assert es[..i + 1] == es[..i] + [es[i]];
    PlacedAppend(es[..i], es[i]);
  }

  ghost predicate EndsFit(es: seq<Entry>) {
    forall i :: 0 <= i < |es| ==> EndFits(es[i])
  }

  /** Reads a whole dump into a fresh file: what its entries stand for, whether seeking is possible or
      not and however short the reads are. */
  method RunRHexdump(bo: Output, bi: Input, ghost lines: seq<seq<Octet>>, ghost es: seq<Entry>, ghost c: Config)
    requires bo.Valid() && bi.Valid() && bo.Contents() == [] && bo.fpos == 0
    requires ValidConfig(c) && AllFit(lines, es, c) && Ascending(es) && SmallOffsets(es) && bi.Remaining() == Joined(lines)
    modifies bo, bi
    ensures bo.Valid() && (!bo.err && !bi.err ==> bo.Contents() == Placed(es))
    ensures bo.err || bi.err ==> bo.faulty || bi.faulty || old(bo.err) || old(bi.err) || !EndsFit(es)
  {
    hide Fits, AllFit, Ascending, SmallOffsets, Placed, Joined, Output.Contents, Input.Remaining, Expected, Plain, OneLine, Entered, EndFits;
    ghost var i := 0;
    assert lines[0..] == lines && es[..0] == [];
    PlacedNothing();
    FitSizes(lines, es, c);
    while !bo.err && !bi.err
      invariant bo.Valid() && bi.Valid() && 0 <= i <= |lines|
      invariant !bo.err && !bi.err ==> Reading(bo, bi, lines, es, i)
      invariant bi.err ==> old(bi.err) || bi.faulty
      invariant bo.err ==> bo.faulty || bi.faulty || old(bo.err) || old(bi.err) || !EndsFit(es)
      decreases |bi.Remaining()|
    {
      var line := bi.NextLine();
      if !bi.err {
        NextIs(lines, es, c, i, line, bi.Remaining());
      }
      if line == [] {
        break;
      }
      if !bi.err && i < |lines| {
        EntryExpected(bo, lines, es, c, i);
      }
      UndumpLine(bo, line, if i < |es| then es[i] else Star, c);
      i := if i < |lines| then i + 1 else i;
    }
    if !bo.err && !bi.err {
      LastReached(lines, es, c, i);
    }
  }

  lemma FitSizes(lines: seq<seq<Octet>>, es: seq<Entry>, c: Config)
    requires ValidConfig(c) && AllFit(lines, es, c)
    ensures |lines| == |es|
  {
  }

  lemma LastReached(lines: seq<seq<Octet>>, es: seq<Entry>, c: Config, i: nat)
    requires ValidConfig(c) && AllFit(lines, es, c) && i <= |lines| && (i < |lines| ==> lines[i] == [])
    ensures es[..i] == es
  {
    hide Fits, OneLine;
    if i < |lines| {
      FitsOneLine(lines[i], es[i], c);
      LineNotEmpty(lines[i]);
      assert false;
    }
  }

  lemma LineNotEmpty(s: seq<Octet>)
    requires OneLine(s)
    ensures s != []
  {
  }

  // ----- The round trip -----

  lemma {:induction false} JoinedPrefix(parts: seq<seq<Octet>>, k: nat)
    requires k <= |parts|
    ensures |Joined(parts[..k])| <= |Joined(parts)|
    decreases |parts|
  {
    if k < |parts| {
      JoinedPrefix(parts[..|parts| - 1], k);
      assert parts[..|parts| - 1][..k] == parts[..k];
    } else {
      assert parts[..k] == parts;
    }
  }

  lemma {:induction false} EndsInside(chunks: seq<seq<Octet>>, k: nat, c: Config)
    requires k <= |chunks|
    ensures forall e :: e in EntriesTo(chunks, k, c) && e.Line? ==> e.offset + |e.bytes| <= |Joined(chunks)|
    decreases k
  {
    hide Joined, Skips;
    if k > 0 {
      EndsInside(chunks, k - 1, c);
      OneInside(chunks, k - 1);
    }
  }

  lemma OneInside(chunks: seq<seq<Octet>>, k: nat)
    requires k < |chunks|
    ensures |Joined(chunks[..k])| + |chunks[k]| <= |Joined(chunks)|
  {
    hide Joined;
    JoinedPrefix(chunks, k + 1);
    assert chunks[..k + 1] == chunks[..k] + [chunks[k]];
    JoinedAppend(chunks[..k], chunks[k]);
  }

  lemma PositionsFit(chunks: seq<seq<Octet>>, c: Config)
    requires |Joined(chunks)| <= MAX_POSITION
    ensures EndsFit(EntriesOf(chunks, c)) && SmallOffsets(EntriesOf(chunks, c))
  {
    hide Joined, EntriesTo;
    EndsInside(chunks, |chunks|, c);
    if chunks != [] {
      OneInside(chunks, |chunks| - 1);
    }
  }

  // The text of a dump: the lines of all entries to be shown.
  ghost predicate IsDump(text: seq<Octet>, data: seq<Octet>, c: Config)
    requires ValidConfig(c)
  {
    exists chunks, lines :: IsDumpOf(text, data, c, chunks, lines)
  }

  ghost predicate IsDumpOf(text: seq<Octet>, data: seq<Octet>, c: Config, chunks: seq<seq<Octet>>, lines: seq<seq<Octet>>)
    requires ValidConfig(c)
  {
    ProperChunks(chunks, c.cols) && Joined(chunks) == data && AllFit(lines, EntriesOf(chunks, c), c) && text == Joined(lines)
  }

  /** Dumping any data and reading the dump back gives the data again: for every number of columns,
      group length, digit case and display, with or without leaving out zeros, however short the
      reads are, and whether the output can seek or not. It fails only on a faulty device, or if the
      text of the dump is longer than any file. */
  method DumpAndUndump(data: seq<Octet>, c: Config, faulty: bool) returns (restored: seq<Octet>, failed: bool)
    requires ValidConfig(c) && |data| <= MAX_POSITION
    ensures !failed ==> restored == data
    ensures failed ==> faulty || exists text :: IsDump(text, data, c) && |text| > MAX_POSITION
  {
    hide ValidConfig, AllFit, EntriesOf, Joined, ProperChunks, Placed, Output.Contents, Input.Remaining, SmallOffsets, Ascending,
      EndsFit, WriteAt;
    restored, failed := [], true;
    var bi := new Input(data, faulty);
    var bo := new Output(faulty);
    ghost var chunks, lines;
    chunks, lines := RunHexdump(c, bo, bi);
    assert !bi.err ==> IsDumpOf(Joined(lines), data, c, chunks, lines) && IsDump(Joined(lines), data, c);
    bo.Flush();
    if bi.err || bo.err {
      return;
    }
    JustWritten(Joined(lines));
    var bi2 := new Input(bo.file, faulty);
    var bo2 := new Output(faulty);
    EntriesStandForInput(chunks, c);
    PositionsFit(chunks, c);
    RunRHexdump(bo2, bi2, lines, EntriesOf(chunks, c), c);
    bo2.Flush();
    if bi2.err || bo2.err {
      return;
    }
    restored, failed := bo2.file, false;
  }

  lemma JustWritten(data: seq<Octet>)
    ensures WriteAt([], 0, data) == data
  {
  }
}
