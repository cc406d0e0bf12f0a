/** Printing a hexdump: one line template is filled in over and over, and runs of zero lines are left out. */
module HexDump {
  import opened HexBits
  import opened HexDigits
  import opened HexStreams
  import opened HexWords
  import opened HexLines
  import opened HexEntries

  // ----- The template -----

  // Outside the columns nothing but spaces after the colon.
  ghost predicate Framed(t: seq<Octet>, c: Config)
    requires ValidConfig(c)
  {
    var base := TextBase(c.cols, c.group);
    && |t| == base + c.cols + 1 && t[0] == COLON
    && forall k :: 0 < k < base && !InColumns(k, c.cols, c.group) ==> t[k] == SPACE
  }

  // The first n octets stand in their columns and in the text column.
  ghost predicate Shows(t: seq<Octet>, bytes: seq<Octet>, n: nat, c: Config)
    requires ValidConfig(c) && n <= |bytes| && n <= c.cols && |t| == TextBase(c.cols, c.group) + c.cols + 1
  {
    var base := TextBase(c.cols, c.group);
    forall i: nat :: i < n ==>
      && ShowsAt(t, i, (bytes[i] >> 4) as nat, (bytes[i] & 15) as nat, c)
      && t[base + i] == c.display(bytes[i])
  }

  ghost predicate ShowsAt(t: seq<Octet>, i: nat, hi: nat, lo: nat, c: Config)
    requires ValidConfig(c)
  {
    var k := Column(i, c.group);
    k + 1 < |t| && hi < 16 && lo < 16 && t[k] == Digit(hi, c.upper) && t[k + 1] == Digit(lo, c.upper)
  }

  ghost predicate ClearFrom(t: seq<Octet>, from: nat, to: nat, c: Config)
    requires ValidConfig(c)
  {
    forall i: nat :: from <= i < to ==>
      Column(i, c.group) + 1 < |t| && t[Column(i, c.group)] == SPACE && t[Column(i, c.group) + 1] == SPACE
  }

  // The template with other octets in one column.
  function WithColumn(t: seq<Octet>, k: nat, hi: Octet, lo: Octet): seq<Octet>
    requires k + 1 < |t|
  {
    t[k := hi][k + 1 := lo]
  }

  lemma ColumnStaysFramed(t: seq<Octet>, i: nat, hi: Octet, lo: Octet, c: Config)
    requires ValidConfig(c) && Framed(t, c) && i < c.cols
    ensures Column(i, c.group) + 4 <= TextBase(c.cols, c.group) && Column(i, c.group) >= 2
    ensures Framed(WithColumn(t, Column(i, c.group), hi, lo), c)
  {
    hide Column, TextBase;
    ColumnsFit(i + 1, c.cols, c.group);
    ColumnIsPositive(i, c.group);
    assert InColumns(Column(i, c.group), c.cols, c.group) && InColumns(Column(i, c.group) + 1, c.cols, c.group);
  }

  lemma TextStaysFramed(t: seq<Octet>, i: nat, v: Octet, c: Config)
    requires ValidConfig(c) && Framed(t, c) && i <= c.cols
    ensures Framed(t[TextBase(c.cols, c.group) + i := v], c)
  {
    hide TextBase, InColumns;
    BaseIsPositive(c);
  }

  // One more octet is shown; those before it still are.
  lemma ShowsOneMore(t: seq<Octet>, bytes: seq<Octet>, n: nat, c: Config)
    requires ValidConfig(c) && Framed(t, c) && n < |bytes| <= c.cols && Shows(t, bytes, n, c)
    requires Column(n, c.group) + 4 <= TextBase(c.cols, c.group)
    requires (bytes[n] >> 4) as nat < 16 && (bytes[n] & 15) as nat < 16
    ensures var t' := WithColumn(t, Column(n, c.group), Digit((bytes[n] >> 4) as nat, c.upper), Digit((bytes[n] & 15) as nat, c.upper))
                        [TextBase(c.cols, c.group) + n := c.display(bytes[n])];
            |t'| == |t| && Shows(t', bytes, n + 1, c)
  {
    hide Column, TextBase, Digit, InColumns;
    var base := TextBase(c.cols, c.group);
    var t' := WithColumn(t, Column(n, c.group), Digit((bytes[n] >> 4) as nat, c.upper), Digit((bytes[n] & 15) as nat, c.upper))
                [base + n := c.display(bytes[n])];
    forall i: nat | i < n + 1
      ensures ShowsAt(t', i, (bytes[i] >> 4) as nat, (bytes[i] & 15) as nat, c) && t'[base + i] == c.display(bytes[i])
    {
      if i < n {
        assert ShowsAt(t, i, (bytes[i] >> 4) as nat, (bytes[i] & 15) as nat, c);
        ColumnsApart(i, n, c.group);
      }
    }
  }

  lemma ShowsWhileClearing(t: seq<Octet>, bytes: seq<Octet>, n: nat, c: Config)
    requires ValidConfig(c) && Framed(t, c) && |bytes| <= n < c.cols && Shows(t, bytes, |bytes|, c) && ClearFrom(t, |bytes|, n, c)
    requires Column(n, c.group) + 4 <= TextBase(c.cols, c.group)
    ensures var t' := WithColumn(t, Column(n, c.group), SPACE, SPACE);
            |t'| == |t| && Shows(t', bytes, |bytes|, c) && ClearFrom(t', |bytes|, n + 1, c)
  {
    hide Column, TextBase, Digit, InColumns;
    var base, t' := TextBase(c.cols, c.group), WithColumn(t, Column(n, c.group), SPACE, SPACE);
    forall i: nat | i < |bytes|
      ensures ShowsAt(t', i, (bytes[i] >> 4) as nat, (bytes[i] & 15) as nat, c) && t'[base + i] == c.display(bytes[i])
    {
      assert ShowsAt(t, i, (bytes[i] >> 4) as nat, (bytes[i] & 15) as nat, c);
      ColumnsApart(i, n, c.group);
    }
    forall i: nat | |bytes| <= i < n + 1
      ensures Column(i, c.group) + 1 < |t'| && t'[Column(i, c.group)] == SPACE && t'[Column(i, c.group) + 1] == SPACE
    {
      if i < n {
        ColumnsApart(i, n, c.group);
      }
    }
  }

  // A filled template, cut after its newline, is the body of the line.
  lemma FilledIsBody(t: seq<Octet>, bytes: seq<Octet>, c: Config)
    requires ValidConfig(c) && Framed(t, c) && |bytes| <= c.cols
    requires Shows(t, bytes, |bytes|, c) && ClearFrom(t, |bytes|, c.cols, c)
    requires t[TextBase(c.cols, c.group) + |bytes|] == NEWLINE
    ensures IsBody(t[..TextBase(c.cols, c.group) + |bytes| + 1], bytes, c.cols, c.group, c.upper, c.display)
  {
    hide Column, TextBase, Digit, InColumns;
    var base := TextBase(c.cols, c.group);
    forall i: nat | i < |bytes|
      ensures Column(i, c.group) + 1 < base && t[Column(i, c.group)] == Digit((bytes[i] >> 4) as nat, c.upper)
      ensures t[Column(i, c.group) + 1] == Digit((bytes[i] & 15) as nat, c.upper)
    {
      assert ShowsAt(t, i, (bytes[i] >> 4) as nat, (bytes[i] & 15) as nat, c);
      ColumnsFit(i + 1, c.cols, c.group);
    }
    forall k | 0 < k < base && !InColumns(k, |bytes|, c.group) ensures t[k] == SPACE {
      if InColumns(k, c.cols, c.group) {
        InColumn(k, c.cols, c.group);
        var i: nat :| i < c.cols && (k == Column(i, c.group) || k == Column(i, c.group) + 1);
        NotInColumns(k, |bytes|, c.group, i);
      }
    }
  }

  lemma NotInColumns(k: int, n: nat, group: nat, i: nat)
    requires group > 0 && !InColumns(k, n, group) && (k == Column(i, group) || k == Column(i, group) + 1)
    ensures i >= n
  {
  }

  method MakeTemplate(c: Config) returns (template: array<Octet>, hexoffs: seq<nat>)
    requires ValidConfig(c)
    ensures fresh(template) && Framed(template[..], c)
    ensures |hexoffs| == c.cols && forall i: nat :: i < c.cols ==> hexoffs[i] == Column(i, c.group)
  {
    hide Column, TextBase, InColumns;
    BaseIsPositive(c);
    var len := TextBase(c.cols, c.group) + c.cols + 1;
    template := new Octet[len](k => if k == 0 then COLON else SPACE);
    hexoffs := [];
    for i := 0 to c.cols
      invariant |hexoffs| == i && forall j: nat :: j < i ==> hexoffs[j] == Column(j, c.group)
    {
      hexoffs := hexoffs + [Column(i, c.group)];
    }
  }

  lemma BaseIsPositive(c: Config)
    requires ValidConfig(c)
    ensures TextBase(c.cols, c.group) > 0
  {
  }

  // Puts one octet into its columns.
  method FillOctet(c: Config, template: array<Octet>, k: nat, line: seq<Octet>, i: nat)
    requires ValidConfig(c) && Framed(template[..], c) && i < |line| <= c.cols && k == Column(i, c.group)
    requires Shows(template[..], line, i, c)
    modifies template
    ensures Framed(template[..], c) && Shows(template[..], line, i + 1, c)
  {
    hide Framed, Shows, Column, TextBase, InColumns, Digit, WithColumn;
    var base := TextBase(c.cols, c.group);
    ghost var t := template[..];
    var v := line[i];
    NibblesOfOctet(v);
    var hi, lo := Digit((v >> 4) as nat, c.upper), Digit((v & 15) as nat, c.upper);
    FramedSize(t, c);
    ColumnStaysFramed(t, i, hi, lo, c);
    TextStaysFramed(WithColumn(t, k, hi, lo), i, c.display(v), c);
    ShowsOneMore(t, line, i, c);
    IsWithColumn(t, k, hi, lo);
    template[k] := hi;
    template[k + 1] := lo;
    template[base + i] := c.display(v);
    assert template[..] == t[k := hi][k + 1 := lo][base + i := c.display(v)];
  }

  // Blanks the columns of an octet that is not there.
  method ClearOctet(c: Config, template: array<Octet>, k: nat, line: seq<Octet>, i: nat)
    requires ValidConfig(c) && Framed(template[..], c) && |line| <= i < c.cols && k == Column(i, c.group)
    requires Shows(template[..], line, |line|, c) && ClearFrom(template[..], |line|, i, c)
    modifies template
    ensures Framed(template[..], c) && Shows(template[..], line, |line|, c) && ClearFrom(template[..], |line|, i + 1, c)
  {
    hide Framed, Shows, ClearFrom, Column, TextBase, InColumns, Digit, WithColumn;
    ghost var t := template[..];
    FramedSize(t, c);
    ColumnStaysFramed(t, i, SPACE, SPACE, c);
    ShowsWhileClearing(t, line, i, c);
    IsWithColumn(t, k, SPACE, SPACE);
    template[k] := SPACE;
    template[k + 1] := SPACE;
    assert template[..] == t[k := SPACE][k + 1 := SPACE];
  }

  method FillLine(c: Config, template: array<Octet>, hexoffs: seq<nat>, line: seq<Octet>)
    requires ValidConfig(c) && Framed(template[..], c) && |line| <= c.cols
    requires |hexoffs| == c.cols && forall i: nat :: i < c.cols ==> hexoffs[i] == Column(i, c.group)
    modifies template
    ensures Framed(template[..], c) && template.Length == TextBase(c.cols, c.group) + c.cols + 1
    ensures IsBody(template[..TextBase(c.cols, c.group) + |line| + 1], line, c.cols, c.group, c.upper, c.display)
  {
    hide Framed, Shows, ClearFrom, IsBody, Column, TextBase, InColumns, Digit, WithColumn;
    var base := TextBase(c.cols, c.group);
    FramedSize(template[..], c);
    NothingShown(template[..], line, c);
    var i: nat := 0;
    while i < |line|
      invariant i <= |line| && Framed(template[..], c) && Shows(template[..], line, i, c)
    {
      FillOctet(c, template, hexoffs[i], line, i);
      i := i + 1;
    }
    NothingCleared(template[..], i, c);
    while i < c.cols
      invariant |line| <= i <= c.cols && Framed(template[..], c)
      invariant Shows(template[..], line, |line|, c) && ClearFrom(template[..], |line|, i, c)
    {
      ClearOctet(c, template, hexoffs[i], line, i);
      i := i + 1;
    }
    EndLine(c, template, line);
  }

  method EndLine(c: Config, template: array<Octet>, line: seq<Octet>)
    requires ValidConfig(c) && Framed(template[..], c) && |line| <= c.cols
    requires Shows(template[..], line, |line|, c) && ClearFrom(template[..], |line|, c.cols, c)
    modifies template
    ensures Framed(template[..], c) && template.Length == TextBase(c.cols, c.group) + c.cols + 1
    ensures IsBody(template[..TextBase(c.cols, c.group) + |line| + 1], line, c.cols, c.group, c.upper, c.display)
  {
    hide Framed, Shows, ClearFrom, IsBody, Column, TextBase, InColumns, Digit;
    var base := TextBase(c.cols, c.group);
    ghost var t := template[..];
    FramedSize(t, c);
    TextStaysFramed(t, |line|, NEWLINE, c);
    NewlineKeeps(t, line, c);
    template[base + |line|] := NEWLINE;
    assert template[..] == t[base + |line| := NEWLINE];
    FilledIsBody(template[..], line, c);
    assert template[..][..base + |line| + 1] == template[..base + |line| + 1];
  }

  lemma FramedSize(t: seq<Octet>, c: Config)
    requires ValidConfig(c) && Framed(t, c)
    ensures |t| == TextBase(c.cols, c.group) + c.cols + 1
  {
  }

  lemma NothingShown(t: seq<Octet>, line: seq<Octet>, c: Config)
    requires ValidConfig(c) && |t| == TextBase(c.cols, c.group) + c.cols + 1
    ensures Shows(t, line, 0, c)
  {
  }

  lemma NothingCleared(t: seq<Octet>, n: nat, c: Config)
    requires ValidConfig(c)
    ensures ClearFrom(t, n, n, c)
  {
  }

  lemma IsWithColumn(t: seq<Octet>, k: nat, hi: Octet, lo: Octet)
    requires k + 1 < |t|
    ensures WithColumn(t, k, hi, lo) == t[k := hi][k + 1 := lo]
  {
  }

  lemma NewlineKeeps(t: seq<Octet>, line: seq<Octet>, c: Config)
    requires ValidConfig(c) && Framed(t, c) && |line| <= c.cols && Shows(t, line, |line|, c) && ClearFrom(t, |line|, c.cols, c)
    ensures var t' := t[TextBase(c.cols, c.group) + |line| := NEWLINE];
            Shows(t', line, |line|, c) && ClearFrom(t', |line|, c.cols, c)
  {
    hide Column, TextBase, Digit, InColumns;
    var base := TextBase(c.cols, c.group);
    var t' := t[base + |line| := NEWLINE];
    forall i: nat | i < c.cols ensures Column(i, c.group) + 1 < base {
      ColumnsFit(i + 1, c.cols, c.group);
    }
    forall i: nat | i < |line|
      ensures ShowsAt(t', i, (line[i] >> 4) as nat, (line[i] & 15) as nat, c) && t'[base + i] == c.display(line[i])
    {
      assert ShowsAt(t, i, (line[i] >> 4) as nat, (line[i] & 15) as nat, c);
    }
  }

  // ----- The whole dump -----

  predicate Zeroed(s: seq<Octet>) {
    forall k :: 0 <= k < |s| ==> s[k] == 0
  }

  // What has been printed, entry by entry.
  ghost predicate Printed(bo: Output, was: seq<Octet>, at: nat, erred: bool, lines: seq<seq<Octet>>)
    reads bo
  {
    Written(bo, was, at, erred, Joined(lines))
  }

  method PrintPart(bo: Output, part: seq<Octet>, ghost was: seq<Octet>, ghost at: nat, ghost erred: bool, ghost lines: seq<seq<Octet>>,
                   ghost done: seq<Octet>)
    requires Written(bo, was, at, erred, Joined(lines) + done)
    modifies bo
    ensures Written(bo, was, at, erred, Joined(lines) + (done + part)) && (old(bo.err) ==> bo.err)
  {
    hide WriteAt, Output.Contents;
    WriteTwice(was, at, Joined(lines) + done, part);
    assert Joined(lines) + done + part == Joined(lines) + (done + part);
    bo.Write(part);
  }

  method PrintStar(bo: Output, c: Config, ghost was: seq<Octet>, ghost at: nat, ghost erred: bool, ghost lines: seq<seq<Octet>>)
    returns (ghost line: seq<Octet>)
    requires ValidConfig(c) && Printed(bo, was, at, erred, lines)
    modifies bo
    ensures Fits(line, Star, c) && Printed(bo, was, at, erred, lines + [line]) && (old(bo.err) ==> bo.err)
  {
    hide WriteAt, Output.Contents;
    line := [STAR, NEWLINE];
    JoinedAppend(lines, line);
    assert Joined(lines) + [] == Joined(lines);
    assert [] + [STAR, NEWLINE] == [STAR, NEWLINE];
    PrintPart(bo, [STAR, NEWLINE], was, at, erred, lines, []);
  }

  method PrintLine(bo: Output, c: Config, offset: nat, body: seq<Octet>, ghost bytes: seq<Octet>, ghost was: seq<Octet>,
                   ghost at: nat, ghost erred: bool, ghost lines: seq<seq<Octet>>)
    returns (ghost line: seq<Octet>)
    requires ValidConfig(c) && Printed(bo, was, at, erred, lines) && bytes != []
    requires IsBody(body, bytes, c.cols, c.group, c.upper, c.display)
    modifies bo
    ensures Fits(line, Line(offset, bytes), c) && Printed(bo, was, at, erred, lines + [line]) && (old(bo.err) ==> bo.err)
  {
    hide WriteAt, Output.Contents, IsBody, OffsetText;
    var text := HexOffset(offset);
    line := text + body;
    JoinedAppend(lines, line);
    assert Joined(lines) + [] == Joined(lines);
    assert [] + text == text;
    PrintPart(bo, text, was, at, erred, lines, []);
    PrintPart(bo, body, was, at, erred, lines, text);
    assert line[..|text|] == text && line[|text|..] == body;
  }

  // The number of lines left out just now: none, one or more.
  ghost function LeftOut(chunks: seq<seq<Octet>>, c: Config): nat {
    var n := |chunks|;
    if !Skips(chunks, n - 1, c) then 0 else if !Skips(chunks, n - 2, c) then 1 else 2
  }

  // The state between two lines of the input.
  ghost predicate Dumping(c: Config, chunks: seq<seq<Octet>>, lines: seq<seq<Octet>>, offset: nat, skipping: nat, prevzero: bool)
    requires ValidConfig(c)
  {
    && ProperChunks(chunks, c.cols) && offset == |Joined(chunks)|
    && AllFit(lines, EntriesTo(chunks, |chunks|, c), c)
    && skipping == LeftOut(chunks, c)
    && (prevzero <==> c.autoskip && ZeroLine(chunks, |chunks| - 1, c.cols))
  }

  // The template still shows the last line, if that was a full one.
  ghost predicate ShowsLast(template: seq<Octet>, chunks: seq<seq<Octet>>, c: Config)
    requires ValidConfig(c)
  {
    Framed(template, c) &&
    (chunks != [] && |chunks[|chunks| - 1]| == c.cols ==>
       IsBody(template, chunks[|chunks| - 1], c.cols, c.group, c.upper, c.display))
  }

  lemma NothingDumped(c: Config, template: seq<Octet>)
    requires ValidConfig(c) && Framed(template, c)
    ensures Dumping(c, [], [], 0, 0, false) && ShowsLast(template, [], c)
  {
  }

  // A line that is left out.
  lemma DumpSkipped(c: Config, chunks: seq<seq<Octet>>, lines: seq<seq<Octet>>, offset: nat, skipping: nat, line: seq<Octet>)
    requires ValidConfig(c) && Dumping(c, chunks, lines, offset, skipping, true)
    requires AllZero(line) && |line| == c.cols
    requires chunks != [] ==> |chunks[|chunks| - 1]| == c.cols
    ensures Dumping(c, chunks + [line], lines, offset + |line|, if skipping < 1 then 1 else 2, true)
  {
    hide Fits, Placed, Joined;
    var chunks' := chunks + [line];
    JoinedAppend(chunks, line);
    EntriesSame(chunks, [line], |chunks|, c);
    SkipsSame(chunks, line, c);
  }

  lemma SkipsSame(chunks: seq<seq<Octet>>, line: seq<Octet>, c: Config)
    ensures forall j :: j < |chunks| ==> (Skips(chunks + [line], j, c) <==> Skips(chunks, j, c))
    ensures (chunks + [line])[|chunks|] == line
    ensures forall j :: j < |chunks| ==> (ZeroLine(chunks + [line], j, c.cols) <==> ZeroLine(chunks, j, c.cols))
  {
  }

  // A line that is shown, after a star if lines were left out before it.
  lemma DumpShown(c: Config, chunks: seq<seq<Octet>>, lines: seq<seq<Octet>>, offset: nat, skipping: nat, prevzero: bool,
                  line: seq<Octet>, texts: seq<seq<Octet>>)
    requires ValidConfig(c) && Dumping(c, chunks, lines, offset, skipping, prevzero)
    requires 0 < |line| <= c.cols && (chunks != [] ==> |chunks[|chunks| - 1]| == c.cols)
    requires !(c.autoskip && prevzero && AllZero(line) && |line| == c.cols)
    requires AllFit(texts, StarIf(skipping != 0) + [Line(offset, line)], c)
    ensures Dumping(c, chunks + [line], lines + texts, offset + |line|, 0, c.autoskip && AllZero(line) && |line| == c.cols)
  {
    hide Fits, Placed, Joined, AllFit;
    JoinedAppend(chunks, line);
    SkipsSame(chunks, line, c);
    EntriesShown(c, chunks, lines, offset, skipping, prevzero, line);
    hide EntriesTo;
    FitMore(lines, EntriesTo(chunks, |chunks|, c), texts, StarIf(skipping != 0) + [Line(offset, line)], c);
  }

  lemma EntriesShown(c: Config, chunks: seq<seq<Octet>>, lines: seq<seq<Octet>>, offset: nat, skipping: nat, prevzero: bool,
                     line: seq<Octet>)
    requires ValidConfig(c) && Dumping(c, chunks, lines, offset, skipping, prevzero)
    requires !(c.autoskip && prevzero && AllZero(line) && |line| == c.cols)
    ensures EntriesTo(chunks + [line], |chunks| + 1, c) ==
            EntriesTo(chunks, |chunks|, c) + (StarIf(skipping != 0) + [Line(offset, line)])
  {
    hide AllFit, Joined;
    var n := |chunks|;
    EntriesSame(chunks, [line], n, c);
    SkipsSame(chunks, line, c);
    assert (chunks + [line])[..n] == chunks;
  }

  lemma FitMore(lines: seq<seq<Octet>>, es: seq<Entry>, texts: seq<seq<Octet>>, fs: seq<Entry>, c: Config)
    requires ValidConfig(c) && AllFit(lines, es, c) && AllFit(texts, fs, c)
    ensures AllFit(lines + texts, es + fs, c)
  {
    hide Fits;
  }

  // Everything the loop of the dump keeps up.
  ghost predicate Running(c: Config, bo: Output, bi: Input, template: seq<Octet>, offset: nat, skipping: nat, prevzero: bool,
                          chunks: seq<seq<Octet>>, lines: seq<seq<Octet>>, was: seq<Octet>, at: nat, erred: bool, all: seq<Octet>)
    requires ValidConfig(c)
    reads bo, bi
  {
    && bi.Valid() && all == Joined(chunks) + bi.Remaining()
    && (chunks != [] ==> |chunks[|chunks| - 1]| == c.cols || bi.Drained())
    && Dumping(c, chunks, lines, offset, skipping, prevzero)
    && ShowsLast(template, chunks, c)
    && Printed(bo, was, at, erred, lines)
  }

  // Ends the dump: a last line that was left out is printed after all, so that the file gets its length.
  method EndDump(c: Config, bo: Output, template: seq<Octet>, offset: nat, skipping: nat, ghost prevzero: bool,
                 ghost chunks: seq<seq<Octet>>, ghost lines: seq<seq<Octet>>, ghost was: seq<Octet>, ghost at: nat, ghost erred: bool)
    returns (ghost lines': seq<seq<Octet>>)
    requires ValidConfig(c) && Dumping(c, chunks, lines, offset, skipping, prevzero)
    requires ShowsLast(template, chunks, c) && Printed(bo, was, at, erred, lines)
    modifies bo
    ensures AllFit(lines', EntriesOf(chunks, c), c) && Printed(bo, was, at, erred, lines') && (old(bo.err) ==> bo.err)
  {
    hide ValidConfig, Framed, IsBody, Fits, EntriesTo, Skips, Joined, WriteAt, Output.Contents, Printed, AllFit, EntriesOf, Dumping,
      ShowsLast;
    lines' := lines;
    ghost var texts: seq<seq<Octet>> := [];
    EndMeans(c, chunks, lines, offset, skipping, prevzero, template);
    if skipping != 0 {
      if skipping == 2 {
        ghost var star := PrintStar(bo, c, was, at, erred, lines');
        texts := [star];
        lines' := lines' + [star];
      }
      ghost var before := lines';
      ghost var last := PrintLine(bo, c, offset - c.cols, template, chunks[|chunks| - 1], was, at, erred, lines');
      FitOne(texts, last, skipping == 2, Line(offset - c.cols, chunks[|chunks| - 1]), c);
      FitMore(lines, EntriesTo(chunks, |chunks|, c), texts + [last],
              StarIf(skipping == 2) + [Line(offset - c.cols, chunks[|chunks| - 1])], c);
      assert lines + (texts + [last]) == before + [last];
      lines' := lines' + [last];
    }
  }

  lemma EndMeans(c: Config, chunks: seq<seq<Octet>>, lines: seq<seq<Octet>>, offset: nat, skipping: nat, prevzero: bool,
                 template: seq<Octet>)
    requires ValidConfig(c) && Dumping(c, chunks, lines, offset, skipping, prevzero) && ShowsLast(template, chunks, c)
    ensures skipping <= 2 && AllFit(lines, EntriesTo(chunks, |chunks|, c), c)
    ensures skipping == 0 ==> EntriesOf(chunks, c) == EntriesTo(chunks, |chunks|, c)
    ensures skipping != 0 ==>
              && chunks != [] && chunks[|chunks| - 1] != [] && offset >= c.cols
              && IsBody(template, chunks[|chunks| - 1], c.cols, c.group, c.upper, c.display)
              && EntriesOf(chunks, c) == EntriesTo(chunks, |chunks|, c)
                                         + (StarIf(skipping == 2) + [Line(offset - c.cols, chunks[|chunks| - 1])])
  {
    hide Framed, IsBody, Fits, EntriesTo;
    if skipping != 0 {
      var n := |chunks|;
      assert chunks == chunks[..n - 1] + [chunks[n - 1]];
      JoinedAppend(chunks[..n - 1], chunks[n - 1]);
    } else {
      assert EntriesTo(chunks, |chunks|, c) + [] == EntriesTo(chunks, |chunks|, c);
    }
  }

  lemma FitOne(texts: seq<seq<Octet>>, last: seq<Octet>, star: bool, e: Entry, c: Config)
    requires ValidConfig(c) && Fits(last, e, c) && |texts| == (if star then 1 else 0) && (star ==> Fits(texts[0], Star, c))
    ensures AllFit(texts + [last], StarIf(star) + [e], c)
  {
    hide Fits;
  }

  // One turn of the loop, for a line that is not empty.
  method DumpLine(c: Config, bo: Output, bi: Input, template: array<Octet>, hexoffs: seq<nat>, offset: nat, skipping: nat,
                  prevzero: bool, line: seq<Octet>, ghost chunks: seq<seq<Octet>>, ghost lines: seq<seq<Octet>>,
                  ghost was: seq<Octet>, ghost at: nat, ghost erred: bool)
    returns (skipping': nat, prevzero': bool, ghost lines': seq<seq<Octet>>)
    requires ValidConfig(c) && Dumping(c, chunks, lines, offset, skipping, prevzero)
    requires ShowsLast(template[..], chunks, c) && Printed(bo, was, at, erred, lines)
    requires |hexoffs| == c.cols && forall i: nat :: i < c.cols ==> hexoffs[i] == Column(i, c.group)
    requires 0 < |line| <= c.cols && (chunks != [] ==> |chunks[|chunks| - 1]| == c.cols)
    modifies bo, template
    ensures Dumping(c, chunks + [line], lines', offset + |line|, skipping', prevzero')
    ensures ShowsLast(template[..], chunks + [line], c) && Printed(bo, was, at, erred, lines') && (old(bo.err) ==> bo.err)
  {
    hide Framed, IsBody, Fits, EntriesTo, Skips, Joined, WriteAt, Output.Contents, Printed, AllFit, EntriesOf, Dumping,
      ShowsLast, Column, TextBase, ZeroLine;
    lines', skipping', prevzero' := lines, skipping, prevzero;
    ghost var texts: seq<seq<Octet>> := [];
    var zero := Zeroed(line) && |line| == c.cols;
    DumpingMeans(c, chunks, lines, offset, skipping, prevzero);
    if skipping != 0 && !zero {
      ghost var star := PrintStar(bo, c, was, at, erred, lines);
      texts := [star];
      lines' := lines + [star];
      skipping' := 0;
    }
    ShowsLastFramed(template[..], chunks, c);
    FillLine(c, template, hexoffs, line);
    ShowsThis(template[..], chunks, line, c);
    if c.autoskip {
      if zero {
        if prevzero {
          skipping' := if skipping' < 1 then 1 else 2;
          DumpSkipped(c, chunks, lines, offset, skipping, line);
          return;
        }
        prevzero' := true;
      } else {
        skipping' := 0;
        prevzero' := false;
      }
    }
    ghost var before := lines';
    var base := TextBase(c.cols, c.group);
    ghost var last := PrintLine(bo, c, offset, template[..base + |line| + 1], line, was, at, erred, lines');
    FitOne(texts, last, skipping != 0, Line(offset, line), c);
    DumpShown(c, chunks, lines, offset, skipping, prevzero, line, texts + [last]);
    assert lines + (texts + [last]) == before + [last];
    lines' := lines' + [last];
  }

  // Nothing is left out before a line that is not skipped unless zeros came before it.
  lemma DumpingMeans(c: Config, chunks: seq<seq<Octet>>, lines: seq<seq<Octet>>, offset: nat, skipping: nat, prevzero: bool)
    requires ValidConfig(c) && Dumping(c, chunks, lines, offset, skipping, prevzero)
    ensures skipping <= 2 && (skipping != 0 ==> prevzero) && (prevzero ==> c.autoskip)
  {
  }

  lemma ShowsLastFramed(template: seq<Octet>, chunks: seq<seq<Octet>>, c: Config)
    requires ValidConfig(c) && ShowsLast(template, chunks, c)
    ensures Framed(template, c)
  {
  }

  lemma ShowsThis(template: seq<Octet>, chunks: seq<seq<Octet>>, line: seq<Octet>, c: Config)
    requires ValidConfig(c) && Framed(template, c) && |line| <= c.cols
    requires |template| == TextBase(c.cols, c.group) + c.cols + 1
    requires IsBody(template[..TextBase(c.cols, c.group) + |line| + 1], line, c.cols, c.group, c.upper, c.display)
    ensures ShowsLast(template, chunks + [line], c)
  {
    hide Framed, IsBody, TextBase;
    assert template[..|template|] == template;
  }

  /** Prints the whole input: the text is that of exactly the lines to be shown. */
  method RunHexdump(c: Config, bo: Output, bi: Input) returns (ghost chunks: seq<seq<Octet>>, ghost lines: seq<seq<Octet>>)
    requires ValidConfig(c) && bo.Valid() && bi.Valid()
    modifies bo, bi
    ensures bi.Valid() && (old(bo.err) ==> bo.err) && (old(bi.err) ==> bi.err) && (bi.err ==> old(bi.err) || bi.faulty)
    ensures ProperChunks(chunks, c.cols) && AllFit(lines, EntriesOf(chunks, c), c)
    ensures !bi.err ==> Joined(chunks) == old(bi.Remaining())
    ensures Printed(bo, old(bo.Contents()), old(bo.fpos), old(bo.err), lines)
  {
    hide Framed, IsBody, Fits, AllFit, EntriesTo, EntriesOf, Skips, Joined, WriteAt, Output.Contents, Input.Remaining,
      Dumping, ShowsLast, TextBase, Column, Printed, ProperChunks;
    ghost var was, at, erred, all := bo.Contents(), bo.fpos, bo.err, bi.Remaining();
    var template, hexoffs := MakeTemplate(c);
    chunks, lines := [], [];
    var offset: nat, skipping: nat, prevzero := 0, 0, false;
    NothingDumped(c, template[..]);
    NothingPrinted(bo);
    assert [] + all == all;
    while true
      invariant fresh(template)
      invariant (old(bo.err) ==> bo.err) && (old(bi.err) ==> bi.err) && (bi.err ==> old(bi.err) || bi.faulty)
      invariant |hexoffs| == c.cols && forall i: nat :: i < c.cols ==> hexoffs[i] == Column(i, c.group)
      invariant Running(c, bo, bi, template[..], offset, skipping, prevzero, chunks, lines, was, at, erred, all)
      decreases |bi.Remaining()|
    {
      ghost var rest := bi.Remaining();
      var line := bi.NextBytes(c.cols);
      if line == [] {
        break;
      }
      JoinedAppend(chunks, line);
      assert Joined(chunks) + rest == Joined(chunks) + line + bi.Remaining();
      skipping, prevzero, lines :=
        DumpLine(c, bo, bi, template, hexoffs, offset, skipping, prevzero, line, chunks, lines, was, at, erred);
      chunks := chunks + [line];
      offset := offset + |line|;
    }
    DumpingProper(c, chunks, lines, offset, skipping, prevzero);
    assert !bi.err ==> Joined(chunks) + [] == all;
    lines := EndDump(c, bo, template[..], offset, skipping, prevzero, chunks, lines, was, at, erred);
  }

  lemma DumpingProper(c: Config, chunks: seq<seq<Octet>>, lines: seq<seq<Octet>>, offset: nat, skipping: nat, prevzero: bool)
    requires ValidConfig(c) && Dumping(c, chunks, lines, offset, skipping, prevzero)
    ensures ProperChunks(chunks, c.cols)
  {
  }

  lemma NothingPrinted(bo: Output)
    requires bo.Valid()
    ensures Printed(bo, bo.Contents(), bo.fpos, bo.err, [])
  {
  }
}
