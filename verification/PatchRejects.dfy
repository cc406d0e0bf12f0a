/** Reject files, read back. */
module PatchRejects {
  import opened Common
  import opened Text
  import opened Unified
  import opened PatchParser
  import opened PatchOutput
  import opened PatchApply
  import opened PatchWindows
  import opened ParsePrinted
  import opened PatchEngine

  // ----- Rejects -----

  predicate IsSigned(line: string) {
    line != [] && (line[0] == ' ' || line[0] == '-' || line[0] == '+')
  }

  // The line can follow these lines in the hunk: a side that it counts for is not complete yet.
  ghost predicate Room(h: PatchHunk, before: seq<string>, line: string) {
    IsSigned(line) &&
    var oldRoom, newRoom := |Side(before, '-')| < h.oldCount, |Side(before, '+')| < h.newCount;
    if line[0] == ' ' then oldRoom || newRoom else if line[0] == '-' then oldRoom else newRoom
  }

  ghost predicate AllRoom(h: PatchHunk) {
    forall k :: 0 <= k < |h.lines| ==> Room(h, h.lines[..k], h.lines[k])
  }

  // A hunk as the parser gives it: it may have fewer lines than its numbers count, or, with lines of
  // context, more on one side.
  ghost predicate Readable(h: PatchHunk) {
    NoChar(h.lines, '\n') && AllRoom(h)
  }

  // The hunks that were rejected.
  ghost function RejectedOf(hunks: seq<PatchHunk>, ps: seq<Placement>): seq<PatchHunk>
    requires |hunks| == |ps|
  {
    if hunks == [] then []
    else RejectedOf(hunks[..|hunks| - 1], ps[..|ps| - 1]) + if ps[|ps| - 1].Rejected? then [hunks[|hunks| - 1]] else []
  }

  ghost function WithoutCr(h: PatchHunk): PatchHunk {
    h.(lines := DropCrAll(h.lines))
  }

  // A marker at the end of a hunk counts for the side of its last line.
  ghost function Marked(h: PatchHunk): PatchHunk {
    var bare := h.(oldNoNewline := false, newNoNewline := false);
    if h.oldNoNewline then MarkHunk(bare) else bare
  }

  // A hunk as it is read back.
  ghost function ReadBack(h: PatchHunk): PatchHunk {
    Marked(WithoutCr(h))
  }

  ghost function RejectRange(h: PatchHunk): string {
    "@@ -" + SignedDecimal(h.oldStart) + "," + SignedDecimal(h.oldCount)
    + " +" + SignedDecimal(h.newStart) + "," + SignedDecimal(h.newCount) + " @@"
  }

  ghost function RejectLines(h: PatchHunk): seq<string> {
    [RejectRange(h)] + (h.lines + Mark(h.oldNoNewline))
  }

  ghost function AllRejectLines(hs: seq<PatchHunk>): seq<string> {
    if hs == [] then [] else RejectLines(hs[0]) + AllRejectLines(hs[1..])
  }

  lemma {:induction false} RejectLinesSnoc(hs: seq<PatchHunk>, h: PatchHunk)
    ensures AllRejectLines(hs + [h]) == AllRejectLines(hs) + RejectLines(h)
  {
    hide RejectLines;
    if hs == [] {
      assert hs + [h] == [h];
    } else {
      assert (hs + [h])[1..] == hs[1..] + [h];
      RejectLinesSnoc(hs[1..], h);
    }
  }

  lemma OneLineText(line: string)
    ensures TextOf([line], true) == line + "\n"
  {
  }

  lemma RejectHunkText(h: PatchHunk)
    ensures RejectHunk(h) == TextOf(RejectLines(h), true)
  {
    hide TextOf, SignedDecimal;
    var header, mark := RejectRange(h), Mark(h.oldNoNewline);
    OneLineText(header);
    OneLineText(MARKER);
    EmptyText();
    TextOfJoined([header], h.lines + mark);
    TextOfJoined(h.lines, mark);
    assert RejectHunk(h) == header + "\n" + TextOf(h.lines, true) + TextOf(mark, true);
    assert header + "\n" + TextOf(h.lines, true) + TextOf(mark, true) == (header + "\n") + (TextOf(h.lines, true) + TextOf(mark, true));
  }

  lemma {:induction false} RejectHunksText(hunks: seq<PatchHunk>, ps: seq<Placement>)
    requires |hunks| == |ps|
    ensures RejectHunks(hunks, ps) == TextOf(AllRejectLines(RejectedOf(hunks, ps)), true)
    ensures AnyRejected(ps) <==> RejectedOf(hunks, ps) != []
    decreases |hunks|
  {
    hide TextOf, RejectHunk, RejectLines;
    EmptyText();
    if hunks != [] {
      var hs := RejectedOf(hunks[..|hunks| - 1], ps[..|ps| - 1]);
      RejectHunksText(hunks[..|hunks| - 1], ps[..|ps| - 1]);
      RejectHunkText(hunks[|hunks| - 1]);
      RejectLinesSnoc(hs, hunks[|hunks| - 1]);
      TextOfJoined(AllRejectLines(hs), RejectLines(hunks[|hunks| - 1]));
      assert hs + [] == hs;
      assert RejectHunks(hunks[..|hunks| - 1], ps[..|ps| - 1]) + "" == RejectHunks(hunks[..|hunks| - 1], ps[..|ps| - 1]);
      AnyRejectedSnoc(ps);
    }
  }

  lemma AnyRejectedSnoc(ps: seq<Placement>)
    requires ps != []
    ensures AnyRejected(ps) <==> AnyRejected(ps[..|ps| - 1]) || ps[|ps| - 1].Rejected?
  {
    if AnyRejected(ps) {
      var k :| 0 <= k < |ps| && ps[k].Rejected?;
      assert k < |ps| - 1 ==> ps[..|ps| - 1][k].Rejected?;
    }
    assert forall k :: 0 <= k < |ps| - 1 ==> ps[..|ps| - 1][k] == ps[k];
  }

  // ----- Reading the lines of a hunk -----

  lemma LineRead(b: Body, line: string)
    requires IsSigned(line)
    requires if line[0] == ' ' then b.oldSeen < b.hunk.oldCount || b.newSeen < b.hunk.newCount
             else if line[0] == '-' then b.oldSeen < b.hunk.oldCount else b.newSeen < b.hunk.newCount
    ensures TakeLine(b, line, false) ==
            Some(Body(b.hunk.(lines := b.hunk.lines + [line]), b.oldSeen + (if line[0] == '+' then 0 else 1),
                      b.newSeen + if line[0] == '-' then 0 else 1))
  {
    assert |MARKER| <= |line| ==> line[..|MARKER|][0] == line[0];
    assert |MARKER_LOWER| <= |line| ==> line[..|MARKER_LOWER|][0] == line[0];
    assert line == [line[0]] + line[1..];
  }

  // The first k lines are read.
  ghost function BodyAt(h: PatchHunk, k: nat): Body
    requires k <= |h.lines|
  {
    Body(h.(lines := h.lines[..k], oldNoNewline := false, newNoNewline := false), |Side(h.lines[..k], '-')|, |Side(h.lines[..k], '+')|)
  }

  lemma NextTaken(h: PatchHunk, k: nat)
    requires k < |h.lines| && Room(h, h.lines[..k], h.lines[k])
    ensures TakeLine(BodyAt(h, k), h.lines[k], false) == Some(BodyAt(h, k + 1))
  {
    hide TakeLine, Side;
    var before, line := h.lines[..k], h.lines[k];
    LineRead(BodyAt(h, k), line);
    assert h.lines[..k + 1] == before + [line];
    SideConcat(before, [line], '-');
    SideConcat(before, [line], '+');
    OneSide(line);
  }

  lemma {:induction false} LinesTaken(lines: seq<string>, i: nat, h: PatchHunk, k: nat)
    requires AllRoom(h) && At(lines, i, h.lines) && k <= |h.lines|
    ensures BodyFrom(lines, i + k, BodyAt(h, k), false) == BodyFrom(lines, i + |h.lines|, BodyAt(h, |h.lines|), false)
    decreases |h.lines| - k
  {
    hide TakeLine, Room, BodyAt;
    if k < |h.lines| {
      assert lines[i + k] == lines[i..i + |h.lines|][k] == h.lines[k];
      NextTaken(h, k);
      LinesTaken(lines, i, h, k + 1);
    }
  }

  lemma OneSide(line: string)
    requires IsSigned(line)
    ensures |Side([line], '-')| == (if line[0] == '+' then 0 else 1) && |Side([line], '+')| == if line[0] == '-' then 0 else 1
  {
    assert [line][..0] == [];
  }

  // The end of a hunk, with or without a marker.
  lemma TailTaken(lines: seq<string>, end: nat, b: Body, marked: bool)
    requires At(lines, end, Mark(marked))
    requires end + |Mark(marked)| < |lines| ==> StartsWith(lines[end + |Mark(marked)|], "@@ ")
    ensures BodyFrom(lines, end, b, false) == (if marked then MarkHunk(b.hunk) else b.hunk, end + |Mark(marked)|)
  {
    hide MarkHunk;
    if marked {
      assert lines[end] == lines[end..end + 1][0] == MARKER;
      MarkTaken(b, false);
      BodyEnds(lines, end + 1, b.(hunk := MarkHunk(b.hunk)), false);
    } else {
      BodyEnds(lines, end, b, false);
    }
  }

  // A hunk in a reject file is read back.
  lemma RejectBodyTaken(lines: seq<string>, i: nat, h: PatchHunk)
    requires AllRoom(h) && At(lines, i, h.lines + Mark(h.oldNoNewline))
    requires var end := i + |h.lines + Mark(h.oldNoNewline)|; end < |lines| ==> StartsWith(lines[end], "@@ ")
    ensures BodyFrom(lines, i, Body(h.(lines := [], oldNoNewline := false, newNoNewline := false), 0, 0), false)
         == (Marked(h), i + |h.lines + Mark(h.oldNoNewline)|)
  {
    hide BodyFrom, MarkHunk, At, AllRoom;
    AtSplit(lines, i, h.lines, Mark(h.oldNoNewline));
    LinesTaken(lines, i, h, 0);
    assert h.lines[..0] == [] && h.lines[..|h.lines|] == h.lines;
    TailTaken(lines, i + |h.lines|, BodyAt(h, |h.lines|), h.oldNoNewline);
  }

  lemma RangeRead(h: PatchHunk)
    ensures StartsWith(RejectRange(h), "@@ ")
    ensures ParseHeader(RejectRange(h), false) == Some(h.(lines := [], oldNoNewline := false, newNoNewline := false))
  {
    hide ParseHeader, SignedDecimal;
    var r := SignedDecimal(h.oldStart) + "," + SignedDecimal(h.oldCount);
    var r' := SignedDecimal(h.newStart) + "," + SignedDecimal(h.newCount);
    assert RejectRange(h) == "@@ -" + r + " +" + r' + " @@";
    assert RejectRange(h) + "" == RejectRange(h);
    RangesParsed(RejectRange(h), r, r', h.oldStart, h.oldCount, h.newStart, h.newCount, "", false);
  }

  ghost function AllMarked(hs: seq<PatchHunk>): seq<PatchHunk> {
    seq(|hs|, k requires 0 <= k < |hs| => Marked(hs[k]))
  }

  ghost function AllWithoutCr(hs: seq<PatchHunk>): seq<PatchHunk> {
    seq(|hs|, k requires 0 <= k < |hs| => WithoutCr(hs[k]))
  }

  ghost function AllReadBack(hs: seq<PatchHunk>): seq<PatchHunk> {
    seq(|hs|, k requires 0 <= k < |hs| => ReadBack(hs[k]))
  }

  lemma FirstReject(lines: seq<string>, i: nat, h: PatchHunk, done: seq<PatchHunk>)
    requires AllRoom(h) && At(lines, i, RejectLines(h))
    requires var end := i + |RejectLines(h)|; end < |lines| ==> StartsWith(lines[end], "@@ ")
    ensures HunksFrom(lines, i, done, false) == HunksFrom(lines, i + |RejectLines(h)|, done + [Marked(h)], false)
  {
    hide BodyFrom, ParseHeader, RejectRange, Marked, AllRoom, StartsWith;
    var body := h.lines + Mark(h.oldNoNewline);
    AtSplit(lines, i, [RejectRange(h)], body);
    assert lines[i] == lines[i..i + 1][0] == RejectRange(h);
    RangeRead(h);
    RejectBodyTaken(lines, i + 1, h);
  }

  lemma {:induction false} RejectsTaken(lines: seq<string>, i: nat, hs: seq<PatchHunk>, done: seq<PatchHunk>)
    requires (forall h :: h in hs ==> AllRoom(h)) && At(lines, i, AllRejectLines(hs)) && i + |AllRejectLines(hs)| == |lines|
    ensures HunksFrom(lines, i, done, false) == (done + AllMarked(hs), |lines|)
    decreases |hs|
  {
    hide HunksFrom, Marked, AllRoom, StartsWith, At, RejectLines;
    if hs == [] {
      NoHunks(lines, done);
      assert done + AllMarked(hs) == done;
    } else {
      var h, rest := hs[0], hs[1..];
      AtSplit(lines, i, RejectLines(h), AllRejectLines(rest));
      NextReject(lines, i + |RejectLines(h)|, rest);
      FirstReject(lines, i, h, done);
      RejectsTaken(lines, i + |RejectLines(h)|, rest, done + [Marked(h)]);
      assert AllMarked(hs) == [Marked(h)] + AllMarked(rest);
      assert done + [Marked(h)] + AllMarked(rest) == done + AllMarked(hs);
    }
  }

  lemma NoHunks(lines: seq<string>, done: seq<PatchHunk>)
    ensures HunksFrom(lines, |lines|, done, false) == (done, |lines|)
  {
  }

  lemma NextReject(lines: seq<string>, i: nat, hs: seq<PatchHunk>)
    requires At(lines, i, AllRejectLines(hs)) && i + |AllRejectLines(hs)| == |lines|
    ensures i < |lines| ==> StartsWith(lines[i], "@@ ")
  {
    hide RejectRange;
    if hs != [] {
      assert lines[i] == lines[i..i + |AllRejectLines(hs)|][0] == RejectRange(hs[0]);
      RangeRead(hs[0]);
    }
  }

  // ----- Carriage returns in rejected lines -----

  lemma SignStays(line: string)
    requires IsSigned(line)
    ensures IsSigned(DropCr(line)) && DropCr(line)[0] == line[0]
  {
  }

  // Dropping carriage returns does not change how many lines count for a side.
  lemma {:induction false} SideWithoutCr(lines: seq<string>, sign: char)
    requires forall l :: l in lines ==> IsSigned(l)
    ensures |Side(DropCrAll(lines), sign)| == |Side(lines, sign)|
    decreases |lines|
  {
    hide IsSigned;
    if lines != [] {
      var init, last := lines[..|lines| - 1], lines[|lines| - 1];
      SideWithoutCr(init, sign);
      assert last in lines;
      SignStays(last);
      assert DropCrAll(lines)[..|lines| - 1] == DropCrAll(init);
    }
  }

  lemma RoomWithoutCr(h: PatchHunk)
    requires AllRoom(h)
    ensures AllRoom(WithoutCr(h))
  {
    hide Side;
    var h' := WithoutCr(h);
    forall k | 0 <= k < |h'.lines| ensures Room(h', h'.lines[..k], h'.lines[k]) {
      assert Room(h, h.lines[..k], h.lines[k]);
      forall l | l in h.lines[..k] ensures IsSigned(l) {
        var i :| 0 <= i < k && h.lines[i] == l;
        assert Room(h, h.lines[..i], h.lines[i]);
      }
      assert h'.lines[..k] == DropCrAll(h.lines[..k]);
      SideWithoutCr(h.lines[..k], '-');
      SideWithoutCr(h.lines[..k], '+');
      SignStays(h.lines[k]);
    }
  }

  // ----- The whole reject file -----

  // The lines of a reject file as they are read back.
  lemma {:induction false} RejectsReadAs(hs: seq<PatchHunk>)
    requires forall h :: h in hs ==> Readable(h)
    ensures ReadAs(AllRejectLines(hs), AllRejectLines(AllWithoutCr(hs)))
  {
    hide ReadAs, RejectRange, AllRoom, WithoutCr, RejectLines;
    NothingReadAs();
    if hs != [] {
      var h := hs[0];
      assert h in hs;
      RejectReadAs(h);
      RejectsReadAs(hs[1..]);
      ReadAsConcat(RejectLines(h), RejectLines(WithoutCr(h)), AllRejectLines(hs[1..]), AllRejectLines(AllWithoutCr(hs[1..])));
      assert AllWithoutCr(hs)[1..] == AllWithoutCr(hs[1..]);
    }
  }

  lemma RejectReadAs(h: PatchHunk)
    requires NoChar(h.lines, '\n')
    ensures ReadAs(RejectLines(h), RejectLines(WithoutCr(h)))
  {
    hide RejectRange;
    var h' := WithoutCr(h);
    RangeReadAs(h);
    assert RejectRange(h) == RejectRange(h') by {
      SameRange(h, h');
    }
    assert ReadAs(h.lines, h'.lines) && ReadAs(Mark(h.oldNoNewline), Mark(h.oldNoNewline));
    ReadAsConcat(h.lines, h'.lines, Mark(h.oldNoNewline), Mark(h.oldNoNewline));
    ReadAsConcat([RejectRange(h)], [RejectRange(h)], h.lines + Mark(h.oldNoNewline), h'.lines + Mark(h.oldNoNewline));
  }

  lemma SameRange(h: PatchHunk, h': PatchHunk)
    requires h'.oldStart == h.oldStart && h'.oldCount == h.oldCount && h'.newStart == h.newStart && h'.newCount == h.newCount
    ensures RejectRange(h) == RejectRange(h')
  {
  }

  lemma RangeReadAs(h: PatchHunk)
    ensures ReadAs([RejectRange(h)], [RejectRange(h)])
  {
    hide SignedDecimal, ParseInt;
    ParseSigned(h.oldStart);
    ParseSigned(h.oldCount);
    ParseSigned(h.newStart);
    ParseSigned(h.newCount);
    var line := RejectRange(h);
    assert line[|line| - 1] == '@';
    assert '\n' !in line;
  }

  /** Reading a reject file gives exactly the rejected hunks, with their ranges and lines, under the two
      paths of the patch; only markers of missing newlines and carriage returns may be lost. */
  lemma RejectsReadBack(pf: PatchFile, ps: seq<Placement>, strip: int)
    requires |ps| == |pf.hunks| && (forall h :: h in pf.hunks ==> Readable(h)) && Unbroken([pf.oldPath, pf.newPath])
    ensures !AnyRejected(ps) <==> RejectText(pf, ps) == ""
    ensures AnyRejected(ps) ==>
              Parsed(RejectText(pf, ps), strip, false) ==
              [FileOf("--- " + pf.oldPath, "+++ " + pf.newPath, strip, false).(hunks := AllReadBack(RejectedOf(pf.hunks, ps)))]
  {
    hide AllRoom, RejectHunks, AllRejectLines, TextOf, LinesOf, Unbroken, HunksFrom, FileOf, Marked, WithoutCr, DropCrAll, ReadAs;
    RejectHunksText(pf.hunks, ps);
    if AnyRejected(ps) {
      var hs := RejectedOf(pf.hunks, ps);
      var hs' := AllWithoutCr(hs);
      RejectedAreHunks(pf.hunks, ps);
      forall h | h in hs ensures AllRoom(WithoutCr(h)) {
        RoomWithoutCr(h);
      }
      var header := ["--- " + pf.oldPath, "+++ " + pf.newPath];
      var lines, lines' := header + AllRejectLines(hs), header + AllRejectLines(hs');
      HeaderText(pf);
      TextOfJoined(header, AllRejectLines(hs));
      RejectsReadAs(hs);
      LabelsUnbroken(pf.oldPath, pf.newPath);
      UnbrokenIsReadAs(header);
      ReadAsConcat(header, header, AllRejectLines(hs), AllRejectLines(hs'));
      LinesRead(lines, lines');
      assert lines'[2..2 + |AllRejectLines(hs')|] == AllRejectLines(hs');
      RejectsTaken(lines', 2, hs', []);
      assert [] + AllMarked(hs') == AllReadBack(hs);
      FilesRead(lines', strip, AllReadBack(hs), pf);
    }
  }

  lemma FilesRead(lines: seq<string>, strip: int, hunks: seq<PatchHunk>, pf: PatchFile)
    requires |lines| >= 2 && lines[0] == "--- " + pf.oldPath && lines[1] == "+++ " + pf.newPath
    requires HunksFrom(lines, 2, [], false) == (hunks, |lines|)
    ensures FilesFrom(lines, 0, [], strip, false) ==
            [FileOf("--- " + pf.oldPath, "+++ " + pf.newPath, strip, false).(hunks := hunks)]
  {
    hide HunksFrom, FileOf;
    assert lines[0][..4] == "--- " && lines[1][..4] == "+++ ";
    assert FileHeaderAt(lines, 0);
    var read := FileOf(lines[0], lines[1], strip, false).(hunks := hunks);
    assert FilesFrom(lines, 0, [], strip, false) == FilesFrom(lines, |lines|, [] + [read], strip, false);
    assert [] + [read] == [read];
  }

  lemma HeaderText(pf: PatchFile)
    ensures RejectHeader(pf) == TextOf(["--- " + pf.oldPath, "+++ " + pf.newPath], true) != ""
  {
    assert ["--- " + pf.oldPath, "+++ " + pf.newPath][1..] == ["+++ " + pf.newPath];
    assert "--- " + pf.oldPath + "\n+++ " + pf.newPath + "\n" == "--- " + pf.oldPath + "\n" + ("+++ " + pf.newPath + "\n");
  }

  lemma LinesRead(lines: seq<string>, back: seq<string>)
    requires ReadAs(lines, back)
    ensures DropCrAll(LinesOf(TextOf(lines, true))) == back
  {
    hide LinesOf, TextOf, DropCrAll;
    LinesOfText(lines, true);
  }

  lemma {:induction false} RejectedAreHunks(hunks: seq<PatchHunk>, ps: seq<Placement>)
    requires |hunks| == |ps|
    ensures forall h :: h in RejectedOf(hunks, ps) ==> h in hunks
    decreases |hunks|
  {
    if hunks != [] {
      RejectedAreHunks(hunks[..|hunks| - 1], ps[..|ps| - 1]);
    }
  }

  /** A rejected hunk comes back as it was exactly if its lines have no carriage return at their end and
      its markers are those that a marker after its last line stands for. In particular one whose old side
      lacks a newline is changed if it ends with an added line. */
  lemma ReadBackExactly(h: PatchHunk)
    requires Readable(h)
    ensures ReadBack(h) == h <==>
            NoneEndsInCr(h.lines) &&
            if h.oldNoNewline then LastSigned(h, if h.newNoNewline then ' ' else '-') else !h.newNoNewline
  {
    hide Side;
    if h.lines != [] {
      var n := |h.lines| - 1;
      assert Room(h, h.lines[..n], h.lines[n]);
      SignStays(h.lines[n]);
    }
    if NoneEndsInCr(h.lines) {
      NothingToDrop(h.lines);
    }
    assert DropCrAll(h.lines) == h.lines ==> NoneEndsInCr(h.lines);
  }

  predicate LastSigned(h: PatchHunk, sign: char) {
    h.lines != [] && h.lines[|h.lines| - 1] != [] && h.lines[|h.lines| - 1][0] == sign
  }

  // ----- What a parser gives is read back -----

  // So far the lines had room, and these were counted.
  ghost predicate GoodBody(b: Body) {
    Readable(b.hunk) && b.oldSeen == |Side(b.hunk.lines, '-')| && b.newSeen == |Side(b.hunk.lines, '+')|
  }

  // The signed line that is taken, with its sign exchanged for a reverse patch.
  lemma TakenHasRoom(b: Body, ln: string, reverse: bool)
    requires GoodBody(b) && '\n' !in ln && TakeLine(b, ln, reverse).Some?
    ensures var b' := TakeLine(b, ln, reverse).value;
            || (b'.hunk.lines == b.hunk.lines && b'.oldSeen == b.oldSeen && b'.newSeen == b.newSeen)
            || exists line :: Room(b.hunk, b.hunk.lines, line) && '\n' !in line && b' == Appended(b, line)
    ensures TakeLine(b, ln, reverse).value.hunk.oldCount == b.hunk.oldCount
    ensures TakeLine(b, ln, reverse).value.hunk.newCount == b.hunk.newCount
  {
    hide Side;
    if !StartsWith(ln, MARKER) && !StartsWith(ln, MARKER_LOWER) {
      var line := if ln == [] then " " else if ln[0] == ' ' then ln else [ActualPrefix(ln[0], reverse)] + ln[1..];
      assert Room(b.hunk, b.hunk.lines, line) && '\n' !in line && TakeLine(b, ln, reverse).value == Appended(b, line);
    }
  }

  ghost function Appended(b: Body, line: string): Body
    requires IsSigned(line)
  {
    Body(b.hunk.(lines := b.hunk.lines + [line]), b.oldSeen + (if line[0] == '+' then 0 else 1),
         b.newSeen + if line[0] == '-' then 0 else 1)
  }

  lemma AppendedIsGood(b: Body, line: string)
    requires GoodBody(b) && Room(b.hunk, b.hunk.lines, line) && '\n' !in line
    ensures GoodBody(Appended(b, line))
  {
    hide Side;
    var lines := b.hunk.lines;
    SideConcat(lines, [line], '-');
    SideConcat(lines, [line], '+');
    OneSide(line);
    var b' := Appended(b, line);
    forall k | 0 <= k < |b'.hunk.lines| ensures Room(b'.hunk, b'.hunk.lines[..k], b'.hunk.lines[k]) {
      assert b'.hunk.lines[..k] == lines[..k];
      assert k < |lines| ==> Room(b.hunk, lines[..k], lines[k]);
      assert k == |lines| ==> lines[..k] == lines;
    }
  }

  lemma TakenIsGood(b: Body, ln: string, reverse: bool)
    requires GoodBody(b) && '\n' !in ln && TakeLine(b, ln, reverse).Some?
    ensures GoodBody(TakeLine(b, ln, reverse).value)
  {
    hide TakeLine, Side;
    TakenHasRoom(b, ln, reverse);
    var b' := TakeLine(b, ln, reverse).value;
    if !(b'.hunk.lines == b.hunk.lines && b'.oldSeen == b.oldSeen && b'.newSeen == b.newSeen) {
      var line :| Room(b.hunk, b.hunk.lines, line) && '\n' !in line && b' == Appended(b, line);
      AppendedIsGood(b, line);
    } else {
      SameRoom(b.hunk, b'.hunk);
    }
  }

  lemma SameRoom(h: PatchHunk, h': PatchHunk)
    requires Readable(h) && h'.lines == h.lines && h'.oldCount == h.oldCount && h'.newCount == h.newCount
    ensures Readable(h')
  {
    hide Side;
    forall k | 0 <= k < |h'.lines| ensures Room(h', h'.lines[..k], h'.lines[k]) {
      assert Room(h, h.lines[..k], h.lines[k]);
    }
  }

  lemma {:induction false} BodyIsReadable(lines: seq<string>, i: nat, b: Body, reverse: bool)
    requires i <= |lines| && NoChar(lines, '\n') && GoodBody(b)
    ensures Readable(BodyFrom(lines, i, b, reverse).0)
    decreases |lines| - i
  {
    hide TakeLine, Readable, Side;
    if i < |lines| && TakeLine(b, lines[i], reverse).Some? {
      TakenIsGood(b, lines[i], reverse);
      BodyIsReadable(lines, i + 1, TakeLine(b, lines[i], reverse).value, reverse);
    }
  }

  lemma {:induction false} HunksAreReadable(lines: seq<string>, i: nat, hunks: seq<PatchHunk>, reverse: bool)
    requires i <= |lines| && NoChar(lines, '\n') && forall h :: h in hunks ==> Readable(h)
    ensures forall h :: h in HunksFrom(lines, i, hunks, reverse).0 ==> Readable(h)
    decreases |lines| - i
  {
    hide BodyFrom, ParseHeader, Readable, StartsWith, NoChar;
    if i < |lines| && StartsWith(lines[i], "@@ ") {
      AtLeastThree(lines[i]);
      match ParseHeader(lines[i], reverse) {
        case None => HunksAreReadable(lines, i + 1, hunks, reverse);
        case Some(h) =>
          FreshBody(lines[i], reverse);
          BodyIsReadable(lines, i + 1, Body(h, 0, 0), reverse);
          var r := BodyFrom(lines, i + 1, Body(h, 0, 0), reverse);
          HunksAreReadable(lines, r.1, hunks + [r.0], reverse);
      }
    }
  }

  lemma AtLeastThree(line: string)
    requires StartsWith(line, "@@ ")
    ensures |line| >= 3
  {
  }

  lemma FreshBody(hdr: string, reverse: bool)
    requires |hdr| >= 3 && ParseHeader(hdr, reverse).Some?
    ensures GoodBody(Body(ParseHeader(hdr, reverse).value, 0, 0))
  {
    hide ParseOldRange, ParseNewRange;
  }

  // The paths of a file are read again as they are.
  ghost predicate PathsStay(pf: PatchFile, strip: int) {
    && Unbroken([pf.oldPath, pf.newPath])
    && FileOf("--- " + pf.oldPath, "+++ " + pf.newPath, strip, false) == pf.(hunks := [])
  }

  lemma {:induction false} TrimmedAgain(s: string)
    requires '\t' !in s && '\n' !in s
    ensures var t := TrimRight(s); TrimRight(t) == t && '\t' !in t && '\n' !in t && DropCr(t) == t
    decreases |s|
  {
    if s != [] && (s[|s| - 1] == ' ' || s[|s| - 1] == '\r') {
      TrimmedAgain(s[..|s| - 1]);
    }
  }

  lemma PathAgain(rest: string)
    requires '\n' !in rest
    ensures var p := ExtractPath(rest); ExtractPath(p) == p && '\n' !in p && DropCr(p) == p
  {
    hide TrimRight, FindChar;
    var tab := FindChar(rest, '\t', 0);
    FindsFirst(rest, '\t', 0);
    var s := if tab >= 0 then rest[..tab] else rest;
    assert tab >= 0 ==> rest[0..tab] == s;
    assert tab < 0 ==> rest[0..] == s;
    TrimmedAgain(s);
    var p := TrimRight(s);
    assert p[0..] == p;
    NotFound(p, '\t', 0);
  }

  lemma FilePathsStay(oldLine: string, newLine: string, strip: int, reverse: bool)
    requires |oldLine| >= 4 && |newLine| >= 4 && '\n' !in oldLine && '\n' !in newLine
    ensures PathsStay(FileOf(oldLine, newLine, strip, reverse), strip)
  {
    hide ExtractPath, TargetPath, DropCr;
    PathAgain(oldLine[4..]);
    PathAgain(newLine[4..]);
    var pf := FileOf(oldLine, newLine, strip, reverse);
    assert ("--- " + pf.oldPath)[4..] == pf.oldPath && ("+++ " + pf.newPath)[4..] == pf.newPath;
  }

  ghost predicate ReadableFile(pf: PatchFile, strip: int) {
    PathsStay(pf, strip) && forall h :: h in pf.hunks ==> Readable(h)
  }

  lemma {:induction false} FilesAreReadable(lines: seq<string>, i: nat, files: seq<PatchFile>, strip: int, reverse: bool)
    requires NoChar(lines, '\n') && forall pf :: pf in files ==> ReadableFile(pf, strip)
    ensures forall pf :: pf in FilesFrom(lines, i, files, strip, reverse) ==> ReadableFile(pf, strip)
    decreases |lines| - i
  {
    hide HunksFrom, FileOf, Readable, Unbroken;
    if i < |lines| {
      if !FileHeaderAt(lines, i) {
        FilesAreReadable(lines, i + 1, files, strip, reverse);
      } else {
        var pf := FileOf(lines[i], lines[i + 1], strip, reverse);
        FilePathsStay(lines[i], lines[i + 1], strip, reverse);
        HunksAreReadable(lines, i + 2, [], reverse);
        var r := HunksFrom(lines, i + 2, [], reverse);
        assert pf.(hunks := []) == pf.(hunks := r.0).(hunks := []);
        FilesAreReadable(lines, r.1, files + [pf.(hunks := r.0)], strip, reverse);
      }
    }
  }

  /** Whatever hunks of whatever patch are rejected, in reverse or not: reading the reject file gives the
      same file with exactly these hunks, but for the markers and carriage returns. */
  lemma ParsedRejectsReadBack(text: string, strip: int, reverse: bool, pf: PatchFile, ps: seq<Placement>)
    requires pf in Parsed(text, strip, reverse) && |ps| == |pf.hunks|
    ensures !AnyRejected(ps) <==> RejectText(pf, ps) == ""
    ensures AnyRejected(ps) ==> Parsed(RejectText(pf, ps), strip, false) == [pf.(hunks := AllReadBack(RejectedOf(pf.hunks, ps)))]
    ensures forall h :: h in pf.hunks ==> Readable(h)
  {
    hide LinesOf, FilesFrom, FileOf, Readable, ReadBack, Unbroken;
    LinesHaveNo(text, '\n');
    NoNewlineWithoutCr(LinesOf(text));
    FilesAreReadable(DropCrAll(LinesOf(text)), 0, [], strip, reverse);
    RejectsReadBack(pf, ps, strip);
  }

  lemma NoNewlineWithoutCr(lines: seq<string>)
    requires NoChar(lines, '\n')
    ensures NoChar(DropCrAll(lines), '\n')
  {
  }
}
