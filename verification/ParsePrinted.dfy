/** Reading a printed comparison gives back its hunks, their ranges, lines and end-of-file markers,
    with the sides exchanged if it is read in reverse. */
module ParsePrinted {
  import opened Common
  import opened EditScript
  import opened Text
  import opened Hunks
  import opened Unified
  import opened PatchParser

  // ----- What a hunk reads as -----

  ghost predicate MarksOld(fa: FileLines, fb: FileLines, op: EditOp)
    requires InFiles(fa, fb, op)
  {
    match op
    case Equal(i, j) =>
      if PrintedAsChange(fa, fb, op) then !fa.hasTrailingNewline else Unterminated(fa, i) && Unterminated(fb, j)
    case Delete(i) => Unterminated(fa, i)
    case Insert(j) => false
  }

  ghost predicate MarksNew(fa: FileLines, fb: FileLines, op: EditOp)
    requires InFiles(fa, fb, op)
  {
    match op
    case Equal(i, j) =>
      if PrintedAsChange(fa, fb, op) then !fb.hasTrailingNewline else Unterminated(fa, i) && Unterminated(fb, j)
    case Delete(i) => false
    case Insert(j) => Unterminated(fb, j)
  }

  ghost function Signed(prefix: char, line: string, reverse: bool): string {
    [ActualPrefix(prefix, reverse)] + line
  }

  // The hunk lines of one operation.
  ghost function OpBody(fa: FileLines, fb: FileLines, op: EditOp, reverse: bool): seq<string>
    requires InFiles(fa, fb, op)
  {
    match op
    case Equal(i, j) =>
      if PrintedAsChange(fa, fb, op) then [Signed('-', fa.lines[i], reverse), Signed('+', fb.lines[j], reverse)]
      else [" " + fa.lines[i]]
    case Delete(i) => [Signed('-', fa.lines[i], reverse)]
    case Insert(j) => [Signed('+', fb.lines[j], reverse)]
  }

  ghost function OpsBody(fa: FileLines, fb: FileLines, ops: seq<EditOp>, reverse: bool): seq<string>
    requires AllInFiles(fa, fb, ops)
  {
    if ops == [] then [] else OpBody(fa, fb, ops[0], reverse) + OpsBody(fa, fb, ops[1..], reverse)
  }

  ghost predicate AnyMarksOld(fa: FileLines, fb: FileLines, ops: seq<EditOp>)
    requires AllInFiles(fa, fb, ops)
  {
    exists i :: 0 <= i < |ops| && MarksOld(fa, fb, ops[i])
  }

  ghost predicate AnyMarksNew(fa: FileLines, fb: FileLines, ops: seq<EditOp>)
    requires AllInFiles(fa, fb, ops)
  {
    exists i :: 0 <= i < |ops| && MarksNew(fa, fb, ops[i])
  }

  ghost function PatchHunkOf(fa: FileLines, fb: FileLines, h: Hunk, reverse: bool): PatchHunk
    requires AllInFiles(fa, fb, h.ops)
  {
    var lines := OpsBody(fa, fb, h.ops, reverse);
    var old', new' := AnyMarksOld(fa, fb, h.ops), AnyMarksNew(fa, fb, h.ops);
    if reverse then PatchHunk(h.newStart, h.newCount, h.oldStart, h.oldCount, lines, new', old')
    else PatchHunk(h.oldStart, h.oldCount, h.newStart, h.newCount, lines, old', new')
  }

  ghost function PatchHunksOf(fa: FileLines, fb: FileLines, hunks: seq<Hunk>, reverse: bool): seq<PatchHunk>
    requires HunksInFiles(fa, fb, hunks)
  {
    seq(|hunks|, k requires 0 <= k < |hunks| => PatchHunkOf(fa, fb, hunks[k], reverse))
  }

  // ----- Reading one operation -----

  ghost predicate At(lines: seq<string>, i: nat, part: seq<string>) {
    i + |part| <= |lines| && lines[i..i + |part|] == part
  }

  lemma AtSplit(lines: seq<string>, i: nat, s: seq<string>, t: seq<string>)
    requires At(lines, i, s + t)
    ensures At(lines, i, s) && At(lines, i + |s|, t)
  {
    var part := lines[i..i + |s + t|];
    assert part[..|s|] == s && part[|s|..] == t;
    assert lines[i..i + |s|] == part[..|s|];
    assert lines[i + |s|..i + |s| + |t|] == part[|s|..];
  }

  ghost function OldUse(op: EditOp, reverse: bool): nat {
    if (if reverse then op.Delete? else op.Insert?) then 0 else 1
  }

  ghost function NewUse(op: EditOp, reverse: bool): nat {
    if (if reverse then op.Insert? else op.Delete?) then 0 else 1
  }

  ghost function AddMarks(h: PatchHunk, minus: bool, plus: bool, reverse: bool): PatchHunk {
    h.(oldNoNewline := h.oldNoNewline || (if reverse then plus else minus),
       newNoNewline := h.newNoNewline || (if reverse then minus else plus))
  }

  // The body after the lines of one operation.
  ghost function AfterOp(fa: FileLines, fb: FileLines, b: Body, op: EditOp, reverse: bool): Body
    requires InFiles(fa, fb, op)
  {
    Body(AddMarks(b.hunk.(lines := b.hunk.lines + OpBody(fa, fb, op, reverse)),
                  MarksOld(fa, fb, op), MarksNew(fa, fb, op), reverse),
         b.oldSeen + OldUse(op, reverse), b.newSeen + NewUse(op, reverse))
  }

  // A printed line is taken; a marker under it marks the line's side.
  ghost function AfterLine(b: Body, prefix: char, line: string, marked: bool, reverse: bool): Body {
    var p := ActualPrefix(prefix, reverse);
    var h := b.hunk.(lines := b.hunk.lines + [Signed(prefix, line, reverse)]);
    Body(if !marked then h else h.(oldNoNewline := h.oldNoNewline || p != '+', newNoNewline := h.newNoNewline || p != '-'),
         b.oldSeen + (if p == '+' then 0 else 1), b.newSeen + if p == '-' then 0 else 1)
  }

  lemma LineParsed(lines: seq<string>, i: nat, b: Body, prefix: char, line: string, marked: bool, reverse: bool)
    requires prefix == ' ' || prefix == '-' || prefix == '+'
    requires At(lines, i, [[prefix] + line] + Mark(marked))
    requires var p := ActualPrefix(prefix, reverse);
             (p != '+' ==> b.oldSeen < b.hunk.oldCount) && (p != '-' ==> b.newSeen < b.hunk.newCount)
    ensures BodyFrom(lines, i, b, reverse) == BodyFrom(lines, i + 1 + |Mark(marked)|, AfterLine(b, prefix, line, marked, reverse), reverse)
  {
    AtSplit(lines, i, [[prefix] + line], Mark(marked));
    var ln := [prefix] + line;
    assert lines[i] == lines[i..i + 1][0] == ln;
    LineTaken(b, prefix, line, reverse);
    var b1 := AfterLine(b, prefix, line, false, reverse);
    assert BodyFrom(lines, i, b, reverse) == BodyFrom(lines, i + 1, b1, reverse);
    if marked {
      assert lines[i + 1] == lines[i + 1..i + 2][0] == MARKER;
      MarkTaken(b1, reverse);
    }
  }

  lemma LineTaken(b: Body, prefix: char, line: string, reverse: bool)
    requires prefix == ' ' || prefix == '-' || prefix == '+'
    requires var p := ActualPrefix(prefix, reverse);
             (p != '+' ==> b.oldSeen < b.hunk.oldCount) && (p != '-' ==> b.newSeen < b.hunk.newCount)
    ensures TakeLine(b, [prefix] + line, reverse) == Some(AfterLine(b, prefix, line, false, reverse))
  {
    var ln := [prefix] + line;
    assert ln[0] == prefix && ln[1..] == line;
    if StartsWith(ln, MARKER) {
      StartsWithFirst(ln, MARKER);
    }
    if StartsWith(ln, MARKER_LOWER) {
      StartsWithFirst(ln, MARKER_LOWER);
    }
  }

  lemma MarkTaken(b: Body, reverse: bool)
    ensures TakeLine(b, MARKER, reverse) == Some(b.(hunk := MarkHunk(b.hunk)))
  {
    assert MARKER[..|MARKER|] == MARKER;
  }

  lemma OpParsed(fa: FileLines, fb: FileLines, lines: seq<string>, i: nat, b: Body, op: EditOp, reverse: bool)
    requires InFiles(fa, fb, op) && At(lines, i, OpLines(fa, fb, op))
    requires op.Equal? ==> fa.lines[op.oldIdx] == fb.lines[op.newIdx]
    requires b.oldSeen + OldUse(op, reverse) <= b.hunk.oldCount && b.newSeen + NewUse(op, reverse) <= b.hunk.newCount
    ensures BodyFrom(lines, i, b, reverse) ==
            BodyFrom(lines, i + |OpLines(fa, fb, op)|, AfterOp(fa, fb, b, op, reverse), reverse)
  {
    hide BodyFrom, At, TakeLine, AfterOp, AfterLine, ActualPrefix;
    AfterOpLines(fa, fb, b, op, reverse);
    RoomForOp(b, op, reverse);
    match op {
      case Equal(x, y) =>
        if PrintedAsChange(fa, fb, op) {
          var minus := ["-" + fa.lines[x]] + Mark(!fa.hasTrailingNewline);
          var plus := ["+" + fb.lines[y]] + Mark(!fb.hasTrailingNewline);
          assert OpLines(fa, fb, op) == minus + plus;
          AtSplit(lines, i, minus, plus);
          LineParsed(lines, i, b, '-', fa.lines[x], !fa.hasTrailingNewline, reverse);
          var b1 := AfterLine(b, '-', fa.lines[x], !fa.hasTrailingNewline, reverse);
          RoomAfterMinus(b, fa.lines[x], !fa.hasTrailingNewline, reverse);
          LineParsed(lines, i + |minus|, b1, '+', fb.lines[y], !fb.hasTrailingNewline, reverse);
        } else {
          LineParsed(lines, i, b, ' ', fa.lines[x], Unterminated(fa, x) && Unterminated(fb, y), reverse);
        }
      case Delete(x) =>
        LineParsed(lines, i, b, '-', fa.lines[x], Unterminated(fa, x), reverse);
      case Insert(y) =>
        LineParsed(lines, i, b, '+', fb.lines[y], Unterminated(fb, y), reverse);
    }
  }

  lemma AfterOpLines(fa: FileLines, fb: FileLines, b: Body, op: EditOp, reverse: bool)
    requires InFiles(fa, fb, op)
    requires op.Equal? ==> fa.lines[op.oldIdx] == fb.lines[op.newIdx]
    ensures AfterOp(fa, fb, b, op, reverse) ==
            match op
            case Equal(x, y) =>
              if PrintedAsChange(fa, fb, op) then
                AfterLine(AfterLine(b, '-', fa.lines[x], !fa.hasTrailingNewline, reverse),
                          '+', fb.lines[y], !fb.hasTrailingNewline, reverse)
              else AfterLine(b, ' ', fa.lines[x], Unterminated(fa, x) && Unterminated(fb, y), reverse)
            case Delete(x) => AfterLine(b, '-', fa.lines[x], Unterminated(fa, x), reverse)
            case Insert(y) => AfterLine(b, '+', fb.lines[y], Unterminated(fb, y), reverse)
  {
    if PrintedAsChange(fa, fb, op) {
      var s := Signed('-', fa.lines[op.oldIdx], reverse);
      var t := Signed('+', fb.lines[op.newIdx], reverse);
      assert b.hunk.lines + [s, t] == b.hunk.lines + [s] + [t];
    }
  }

  lemma RoomForOp(b: Body, op: EditOp, reverse: bool)
    requires b.oldSeen + OldUse(op, reverse) <= b.hunk.oldCount && b.newSeen + NewUse(op, reverse) <= b.hunk.newCount
    ensures var p := ActualPrefix(if op.Delete? then '-' else if op.Insert? then '+' else ' ', reverse);
            (p != '+' ==> b.oldSeen < b.hunk.oldCount) && (p != '-' ==> b.newSeen < b.hunk.newCount)
    ensures op.Equal? ==> b.oldSeen < b.hunk.oldCount && b.newSeen < b.hunk.newCount
  {
  }

  lemma RoomAfterMinus(b: Body, line: string, marked: bool, reverse: bool)
    requires b.oldSeen < b.hunk.oldCount && b.newSeen < b.hunk.newCount
    ensures var b1 := AfterLine(b, '-', line, marked, reverse);
            var p := ActualPrefix('+', reverse);
            (p != '+' ==> b1.oldSeen < b1.hunk.oldCount) && (p != '-' ==> b1.newSeen < b1.hunk.newCount)
  {
  }

  // ----- Reading a hunk body -----

  // What the operations add to the body, one after the other.
  ghost function AfterOps(fa: FileLines, fb: FileLines, b: Body, ops: seq<EditOp>, reverse: bool): Body
    requires AllInFiles(fa, fb, ops)
    decreases |ops|
  {
    if ops == [] then b else AfterOps(fa, fb, AfterOp(fa, fb, b, ops[0], reverse), ops[1..], reverse)
  }

  ghost predicate KeepsEqual(fa: FileLines, fb: FileLines, ops: seq<EditOp>) {
    AllInFiles(fa, fb, ops) &&
    forall i :: 0 <= i < |ops| && ops[i].Equal? ==> fa.lines[ops[i].oldIdx] == fb.lines[ops[i].newIdx]
  }

  // The old and new lines the operations use, seen from the side of the reader.
  ghost function OldUses(ops: seq<EditOp>, reverse: bool): nat {
    if reverse then NewUsed(ops) else OldUsed(ops)
  }

  ghost function NewUses(ops: seq<EditOp>, reverse: bool): nat {
    if reverse then OldUsed(ops) else NewUsed(ops)
  }

  lemma UsesHead(ops: seq<EditOp>, reverse: bool)
    requires ops != []
    ensures OldUses(ops, reverse) == OldUse(ops[0], reverse) + OldUses(ops[1..], reverse)
    ensures NewUses(ops, reverse) == NewUse(ops[0], reverse) + NewUses(ops[1..], reverse)
  {
    UsedHead(ops);
  }

  lemma KeepsEqualHead(fa: FileLines, fb: FileLines, ops: seq<EditOp>)
    requires KeepsEqual(fa, fb, ops) && ops != []
    ensures InFiles(fa, fb, ops[0]) && KeepsEqual(fa, fb, ops[1..])
    ensures ops[0].Equal? ==> fa.lines[ops[0].oldIdx] == fb.lines[ops[0].newIdx]
  {
    var rest := ops[1..];
    assert forall i :: 0 <= i < |rest| ==> rest[i] == ops[i + 1];
  }

  lemma {:induction false} OpsParsed(fa: FileLines, fb: FileLines, lines: seq<string>, i: nat, b: Body, ops: seq<EditOp>, reverse: bool)
    requires KeepsEqual(fa, fb, ops) && At(lines, i, OpsLines(fa, fb, ops))
    requires b.oldSeen + OldUses(ops, reverse) <= b.hunk.oldCount && b.newSeen + NewUses(ops, reverse) <= b.hunk.newCount
    ensures BodyFrom(lines, i, b, reverse) ==
            BodyFrom(lines, i + |OpsLines(fa, fb, ops)|, AfterOps(fa, fb, b, ops, reverse), reverse)
    decreases |ops|
  {
    hide BodyFrom, At, OpLines, AfterOp, OldUses, NewUses, OldUse, NewUse, InFiles;
    if ops != [] {
      var o, rest := ops[0], ops[1..];
      UsesHead(ops, reverse);
      KeepsEqualHead(fa, fb, ops);
      AtSplit(lines, i, OpLines(fa, fb, o), OpsLines(fa, fb, rest));
      OpParsed(fa, fb, lines, i, b, o, reverse);
      AfterOpSeen(fa, fb, b, o, reverse);
      OpsParsed(fa, fb, lines, i + |OpLines(fa, fb, o)|, AfterOp(fa, fb, b, o, reverse), rest, reverse);
    }
  }

  lemma AfterOpSeen(fa: FileLines, fb: FileLines, b: Body, op: EditOp, reverse: bool)
    requires InFiles(fa, fb, op)
    ensures var c := AfterOp(fa, fb, b, op, reverse);
            && c.oldSeen == b.oldSeen + OldUse(op, reverse) && c.newSeen == b.newSeen + NewUse(op, reverse)
            && c.hunk.oldCount == b.hunk.oldCount && c.hunk.newCount == b.hunk.newCount
  {
  }

  lemma {:induction false} AfterOpsIs(fa: FileLines, fb: FileLines, b: Body, ops: seq<EditOp>, reverse: bool)
    requires AllInFiles(fa, fb, ops)
    ensures AfterOps(fa, fb, b, ops, reverse) ==
            Body(AddMarks(b.hunk.(lines := b.hunk.lines + OpsBody(fa, fb, ops, reverse)),
                          AnyMarksOld(fa, fb, ops), AnyMarksNew(fa, fb, ops), reverse),
                 b.oldSeen + OldUses(ops, reverse), b.newSeen + NewUses(ops, reverse))
    decreases |ops|
  {
    hide MarksOld, MarksNew, OpBody, InFiles;
    if ops == [] {
      assert b.hunk.lines + [] == b.hunk.lines;
    } else {
      var o, rest := ops[0], ops[1..];
      UsesHead(ops, reverse);
      AfterOpsIs(fa, fb, AfterOp(fa, fb, b, o, reverse), rest, reverse);
      MarksHead(fa, fb, ops);
      assert b.hunk.lines + OpBody(fa, fb, o, reverse) + OpsBody(fa, fb, rest, reverse)
          == b.hunk.lines + (OpBody(fa, fb, o, reverse) + OpsBody(fa, fb, rest, reverse));
    }
  }

  lemma MarksHead(fa: FileLines, fb: FileLines, ops: seq<EditOp>)
    requires AllInFiles(fa, fb, ops) && ops != []
    ensures AllInFiles(fa, fb, ops[1..])
    ensures AnyMarksOld(fa, fb, ops) <==> MarksOld(fa, fb, ops[0]) || AnyMarksOld(fa, fb, ops[1..])
    ensures AnyMarksNew(fa, fb, ops) <==> MarksNew(fa, fb, ops[0]) || AnyMarksNew(fa, fb, ops[1..])
  {
    hide MarksOld, MarksNew, InFiles;
    var rest := ops[1..];
    assert forall i :: 0 <= i < |rest| ==> rest[i] == ops[i + 1];
    assert forall i :: 0 < i < |ops| ==> ops[i] == rest[i - 1];
  }

  // ----- Reading a hunk header -----

  // A range, with its count or, if that is one, without.
  ghost predicate IsRange(r: string, start: int, count: int) {
    r == SignedDecimal(start) + "," + SignedDecimal(count) || (count == 1 && r == SignedDecimal(start))
  }

  // What the searches find in a range that stands at pos and is followed by a space.
  lemma RangeFound(hdr: string, pos: nat, r: string, start: int, count: int)
    requires IsRange(r, start, count)
    requires pos + |r| < |hdr| && hdr[pos..pos + |r|] == r && hdr[pos + |r|] == ' '
    ensures FindChar(hdr, ' ', pos) == pos + |r|
    ensures r == SignedDecimal(start) ==> (var comma := FindChar(hdr, ',', pos); comma == -1 || comma > pos + |r|)
    ensures r != SignedDecimal(start) ==> FindChar(hdr, ',', pos) == pos + |SignedDecimal(start)|
  {
    hide FindChar, SignedDecimal, IsRange;
    var d := SignedDecimal(start);
    RangeIs(r, start, count);
    FoundAt(hdr, ' ', pos, pos + |r|);
    if r == d {
      FoundLater(hdr, ',', pos, |r|);
    } else {
      assert hdr[pos..pos + |d|] == r[..|d|];
      assert hdr[pos + |d|] == r[|d|];
      FoundAt(hdr, ',', pos, pos + |d|);
    }
  }

  lemma RangeIs(r: string, start: int, count: int)
    requires IsRange(r, start, count)
    ensures var d := SignedDecimal(start);
            && r != [] && ' ' !in r && '+' !in r && ',' !in d && (r == d ==> count == 1)
            && (r != d ==> |d| + 1 < |r| && r[..|d|] == d && r[|d|] == ',' && r[|d| + 1..] == SignedDecimal(count))
  {
    hide SignedDecimal, ParseInt;
    var d, c := SignedDecimal(start), SignedDecimal(count);
    ParseSigned(start);
    ParseSigned(count);
    assert forall x :: x in d || x in c ==> IsDigit(x) || x == '-';
    if r != d {
      assert r == d + "," + c;
      assert r[..|d|] == d && r[|d| + 1..] == c;
    }
  }

  // The numbers before and after the comma.
  lemma RangeNumbers(hdr: string, pos: nat, r: string, start: int, count: int)
    requires IsRange(r, start, count) && pos + |r| <= |hdr| && hdr[pos..pos + |r|] == r
    ensures r == SignedDecimal(start) ==> count == 1 && ParseInt(hdr[pos..pos + |r|]) == start
    ensures r != SignedDecimal(start) ==>
              && |SignedDecimal(start)| + 1 < |r| && ParseInt(hdr[pos..pos + |SignedDecimal(start)|]) == start
              && ParseInt(hdr[pos + |SignedDecimal(start)| + 1..pos + |r|]) == count
  {
    hide ParseInt, SignedDecimal, IsRange;
    var d := SignedDecimal(start);
    RangeIs(r, start, count);
    ParseSigned(start);
    if r != d {
      ParseSigned(count);
      assert hdr[pos..pos + |d|] == r[..|d|] == d;
      assert hdr[pos + |d| + 1..pos + |r|] == r[|d| + 1..] == SignedDecimal(count);
    }
  }

  lemma OldRangeParsed(hdr: string, r: string, start: int, count: int, rest: string)
    requires IsRange(r, start, count) && hdr == "@@ -" + r + " +" + rest
    ensures ParseOldRange(hdr) == Some((LineRange(start, count), 5 + |r|))
  {
    hide IsRange, ParseInt, FindChar, SignedDecimal;
    RangeIs(r, start, count);
    FoundAt(hdr, '-', 3, 3);
    assert hdr[4..4 + |r|] == r;
    RangeFound(hdr, 4, r, start, count);
    RangeNumbers(hdr, 4, r, start, count);
    assert hdr[4..5 + |r|] == r + " ";
    FoundAt(hdr, '+', 4, 5 + |r|);
  }

  lemma NewRangeParsed(hdr: string, plus: nat, r: string, start: int, count: int, tail: string)
    requires IsRange(r, start, count) && plus < |hdr| && hdr[plus + 1..] == r + " @@" + tail
    ensures ParseNewRange(hdr, plus) == Some(LineRange(start, count))
  {
    var pos := plus + 1;
    hide IsRange, ParseInt, FindChar, SignedDecimal;
    RangeIs(r, start, count);
    var rest := hdr[pos..];
    assert hdr[pos..pos + |r|] == rest[..|r|] == r;
    assert hdr[pos + |r|] == rest[|r|] == ' ';
    RangeFound(hdr, pos, r, start, count);
    RangeNumbers(hdr, pos, r, start, count);
  }

  // A header with these ranges is read as one, whatever follows them.
  lemma RangesParsed(hdr: string, r: string, r': string, oldStart: int, oldCount: int, newStart: int, newCount: int, tail: string,
                     reverse: bool)
    requires IsRange(r, oldStart, oldCount) && IsRange(r', newStart, newCount) && hdr == "@@ -" + r + " +" + r' + " @@" + tail
    ensures StartsWith(hdr, "@@ ")
    ensures ParseHeader(hdr, reverse) ==
            Some(if reverse then PatchHunk(newStart, newCount, oldStart, oldCount, [], false, false)
                 else PatchHunk(oldStart, oldCount, newStart, newCount, [], false, false))
  {
    hide ParseOldRange, ParseNewRange, IsRange;
    assert hdr == "@@ -" + r + " +" + (r' + " @@" + tail);
    OldRangeParsed(hdr, r, oldStart, oldCount, r' + " @@" + tail);
    assert hdr[6 + |r|..] == r' + " @@" + tail;
    NewRangeParsed(hdr, 5 + |r|, r', newStart, newCount, tail);
  }

  lemma RangeTextIsRange(start: nat, count: nat)
    ensures IsRange(RangeText(start, count), start, count)
  {
    hide Decimal;
    assert Decimal(start) + "" == Decimal(start);
  }

  lemma HeaderParsed(h: Hunk, reverse: bool)
    ensures StartsWith(HunkHeader(h), "@@ ")
    ensures ParseHeader(HunkHeader(h), reverse) ==
            Some(if reverse then PatchHunk(h.newStart, h.newCount, h.oldStart, h.oldCount, [], false, false)
                 else PatchHunk(h.oldStart, h.oldCount, h.newStart, h.newCount, [], false, false))
  {
    hide ParseHeader, RangeText, IsRange;
    RangeTextIsRange(h.oldStart, h.oldCount);
    RangeTextIsRange(h.newStart, h.newCount);
    assert HunkHeader(h) + "" == HunkHeader(h);
    RangesParsed(HunkHeader(h), RangeText(h.oldStart, h.oldCount), RangeText(h.newStart, h.newCount),
                 h.oldStart, h.oldCount, h.newStart, h.newCount, "", reverse);
  }

  // ----- Reading hunks and files -----

  // A hunk whose numbers count its operations, which keep equal lines only.
  ghost predicate Countable(fa: FileLines, fb: FileLines, h: Hunk) {
    KeepsEqual(fa, fb, h.ops) && h.oldCount == OldUsed(h.ops) && h.newCount == NewUsed(h.ops)
  }

  ghost predicate AllCountable(fa: FileLines, fb: FileLines, hunks: seq<Hunk>) {
    forall k :: 0 <= k < |hunks| ==> Countable(fa, fb, hunks[k])
  }

  // After the body comes another header, or nothing.
  lemma BodyParsed(fa: FileLines, fb: FileLines, lines: seq<string>, i: nat, h: Hunk, start: PatchHunk, reverse: bool)
    requires Countable(fa, fb, h) && At(lines, i, OpsLines(fa, fb, h.ops))
    requires start == if reverse then PatchHunk(h.newStart, h.newCount, h.oldStart, h.oldCount, [], false, false)
                      else PatchHunk(h.oldStart, h.oldCount, h.newStart, h.newCount, [], false, false)
    requires var end := i + |OpsLines(fa, fb, h.ops)|;
             end < |lines| ==> StartsWith(lines[end], "@@ ")
    ensures BodyFrom(lines, i, Body(start, 0, 0), reverse)
         == (PatchHunkOf(fa, fb, h, reverse), i + |OpsLines(fa, fb, h.ops)|)
  {
    hide OpsLines, OpsBody, AnyMarksOld, AnyMarksNew, BodyFrom;
    var b := Body(start, 0, 0);
    OpsParsed(fa, fb, lines, i, b, h.ops, reverse);
    AfterOpsIs(fa, fb, b, h.ops, reverse);
    var done := AfterOps(fa, fb, b, h.ops, reverse);
    assert [] + OpsBody(fa, fb, h.ops, reverse) == OpsBody(fa, fb, h.ops, reverse);
    assert done.hunk == PatchHunkOf(fa, fb, h, reverse);
    BodyEnds(lines, i + |OpsLines(fa, fb, h.ops)|, done, reverse);
  }

  lemma BodyEnds(lines: seq<string>, i: nat, b: Body, reverse: bool)
    requires i <= |lines|
    requires i < |lines| ==> StartsWith(lines[i], "@@ ")
    ensures BodyFrom(lines, i, b, reverse) == (b.hunk, i)
  {
    if i < |lines| {
      StartsWithFirst(lines[i], "@@ ");
      if StartsWith(lines[i], MARKER) {
        StartsWithFirst(lines[i], MARKER);
      }
      if StartsWith(lines[i], MARKER_LOWER) {
        StartsWithFirst(lines[i], MARKER_LOWER);
      }
    }
  }

  lemma {:induction false} HunksParsed(fa: FileLines, fb: FileLines, lines: seq<string>, i: nat, hunks: seq<Hunk>,
                                       done: seq<PatchHunk>, reverse: bool)
    requires HunksInFiles(fa, fb, hunks) && AllCountable(fa, fb, hunks)
    requires At(lines, i, HunksLines(fa, fb, hunks)) && i + |HunksLines(fa, fb, hunks)| == |lines|
    ensures HunksFrom(lines, i, done, reverse) == (done + PatchHunksOf(fa, fb, hunks, reverse), |lines|)
    decreases |hunks|
  {
    hide BodyFrom, ParseHeader, HunkHeader, OpsLines, PatchHunkOf, Countable;
    if hunks == [] {
      assert done + PatchHunksOf(fa, fb, [], reverse) == done;
    } else {
      var h, rest := hunks[0], hunks[1..];
      var header, body, more := [HunkHeader(h)], OpsLines(fa, fb, h.ops), HunksLines(fa, fb, rest);
      assert Countable(fa, fb, h);
      AtSplit(lines, i, header + body, more);
      AtSplit(lines, i, header, body);
      assert lines[i] == lines[i..i + 1][0] == HunkHeader(h);
      HeaderParsed(h, reverse);
      NextHeader(fa, fb, lines, i + 1 + |body|, rest);
      var start := ParseHeader(lines[i], reverse).value;
      BodyParsed(fa, fb, lines, i + 1, h, start, reverse);
      HunksParsed(fa, fb, lines, i + 1 + |body|, rest, done + [PatchHunkOf(fa, fb, h, reverse)], reverse);
      assert PatchHunksOf(fa, fb, hunks, reverse) == [PatchHunkOf(fa, fb, h, reverse)] + PatchHunksOf(fa, fb, rest, reverse);
      assert done + [PatchHunkOf(fa, fb, h, reverse)] + PatchHunksOf(fa, fb, rest, reverse)
          == done + PatchHunksOf(fa, fb, hunks, reverse);
    }
  }

  lemma NextHeader(fa: FileLines, fb: FileLines, lines: seq<string>, i: nat, hunks: seq<Hunk>)
    requires HunksInFiles(fa, fb, hunks) && At(lines, i, HunksLines(fa, fb, hunks))
    requires i + |HunksLines(fa, fb, hunks)| == |lines|
    ensures i < |lines| ==> StartsWith(lines[i], "@@ ")
  {
    if hunks != [] {
      assert lines[i] == lines[i..i + |HunksLines(fa, fb, hunks)|][0] == HunkHeader(hunks[0]);
      HeaderParsed(hunks[0], false);
    }
  }

  // ----- What the line splitters make of a printed comparison -----

  // A file as the patch engine reads it: its lines without a carriage return at their end.
  function Dropped(f: FileLines): (r: FileLines)
    ensures |r.lines| == |f.lines| && r.hasTrailingNewline == f.hasTrailingNewline
  {
    FileLines(DropCrAll(f.lines), f.hasTrailingNewline)
  }

  ghost predicate Unbroken(lines: seq<string>) {
    NoChar(lines, '\n') && NoneEndsInCr(lines)
  }

  // The lines are not broken further, and come back as these.
  ghost predicate ReadAs(lines: seq<string>, back: seq<string>) {
    NoChar(lines, '\n') && DropCrAll(lines) == back
  }

  lemma ReadAsConcat(s: seq<string>, s': seq<string>, t: seq<string>, t': seq<string>)
    requires ReadAs(s, s') && ReadAs(t, t')
    ensures ReadAs(s + t, s' + t')
  {
    assert DropCrAll(s + t) == s' + t';
  }

  lemma UnbrokenIsReadAs(lines: seq<string>)
    ensures Unbroken(lines) <==> ReadAs(lines, lines)
  {
    if Unbroken(lines) {
      NothingToDrop(lines);
    }
  }

  lemma LineReadAs(prefix: char, lines: seq<string>, i: nat, marked: bool)
    requires NoChar(lines, '\n') && i < |lines| && prefix != '\n' && prefix != '\r'
    ensures ReadAs([[prefix] + lines[i]] + Mark(marked), [[prefix] + DropCrAll(lines)[i]] + Mark(marked))
  {
    var line := [prefix] + lines[i];
    assert DropCr(line) == [prefix] + DropCr(lines[i]);
    assert ReadAs([line], [DropCr(line)]);
    assert ReadAs(Mark(marked), Mark(marked));
    ReadAsConcat([line], [DropCr(line)], Mark(marked), Mark(marked));
  }

  lemma OpReadAs(fa: FileLines, fb: FileLines, op: EditOp)
    requires InFiles(fa, fb, op) && NoChar(fa.lines, '\n') && NoChar(fb.lines, '\n')
    ensures InFiles(Dropped(fa), Dropped(fb), op)
    ensures ReadAs(OpLines(fa, fb, op), OpLines(Dropped(fa), Dropped(fb), op))
  {
    hide ReadAs, NoChar;
    match op {
      case Equal(i, j) =>
        var x, y := !fa.hasTrailingNewline, !fb.hasTrailingNewline;
        LineReadAs('-', fa.lines, i, x);
        LineReadAs('+', fb.lines, j, y);
        LineReadAs(' ', fa.lines, i, Unterminated(fa, i) && Unterminated(fb, j));
        var a, b := Dropped(fa).lines, Dropped(fb).lines;
        ReadAsConcat(["-" + fa.lines[i]] + Mark(x), ["-" + a[i]] + Mark(x), ["+" + fb.lines[j]] + Mark(y), ["+" + b[j]] + Mark(y));
        Associates(["-" + fa.lines[i]], Mark(x), ["+" + fb.lines[j]], Mark(y));
        Associates(["-" + a[i]], Mark(x), ["+" + b[j]], Mark(y));
      case Delete(i) =>
        LineReadAs('-', fa.lines, i, Unterminated(fa, i));
      case Insert(j) =>
        LineReadAs('+', fb.lines, j, Unterminated(fb, j));
    }
  }

  lemma Associates(s: seq<string>, t: seq<string>, u: seq<string>, v: seq<string>)
    ensures s + t + u + v == (s + t) + (u + v)
  {
  }

  lemma {:induction false} OpsReadAs(fa: FileLines, fb: FileLines, ops: seq<EditOp>)
    requires AllInFiles(fa, fb, ops) && NoChar(fa.lines, '\n') && NoChar(fb.lines, '\n')
    ensures AllInFiles(Dropped(fa), Dropped(fb), ops)
    ensures ReadAs(OpsLines(fa, fb, ops), OpsLines(Dropped(fa), Dropped(fb), ops))
  {
    AllInDropped(fa, fb, ops);
    hide ReadAs, NoChar, OpLines, InFiles, Dropped;
    NothingReadAs();
    if ops != [] {
      OpReadAs(fa, fb, ops[0]);
      OpsReadAs(fa, fb, ops[1..]);
      ReadAsConcat(OpLines(fa, fb, ops[0]), OpLines(Dropped(fa), Dropped(fb), ops[0]),
                   OpsLines(fa, fb, ops[1..]), OpsLines(Dropped(fa), Dropped(fb), ops[1..]));
    }
  }

  lemma AllInDropped(fa: FileLines, fb: FileLines, ops: seq<EditOp>)
    requires AllInFiles(fa, fb, ops)
    ensures AllInFiles(Dropped(fa), Dropped(fb), ops)
  {
    forall i | 0 <= i < |ops| ensures InFiles(Dropped(fa), Dropped(fb), ops[i]) {
      assert InFiles(fa, fb, ops[i]);
    }
  }

  lemma HunksInDropped(fa: FileLines, fb: FileLines, hunks: seq<Hunk>)
    requires HunksInFiles(fa, fb, hunks)
    ensures HunksInFiles(Dropped(fa), Dropped(fb), hunks)
  {
    hide AllInFiles, Dropped;
    forall i | 0 <= i < |hunks| ensures AllInFiles(Dropped(fa), Dropped(fb), hunks[i].ops) {
      AllInDropped(fa, fb, hunks[i].ops);
    }
  }

  lemma NothingReadAs()
    ensures ReadAs([], [])
  {
  }

  lemma HeaderReadAs(h: Hunk)
    ensures ReadAs([HunkHeader(h)], [HunkHeader(h)])
  {
    hide Decimal;
    var r, r' := RangeText(h.oldStart, h.oldCount), RangeText(h.newStart, h.newCount);
    assert forall c :: c in r ==> IsDigit(c) || c == ',';
    assert forall c :: c in r' ==> IsDigit(c) || c == ',';
  }

  lemma {:induction false} HunksReadAs(fa: FileLines, fb: FileLines, hunks: seq<Hunk>)
    requires HunksInFiles(fa, fb, hunks) && NoChar(fa.lines, '\n') && NoChar(fb.lines, '\n')
    ensures HunksInFiles(Dropped(fa), Dropped(fb), hunks)
    ensures ReadAs(HunksLines(fa, fb, hunks), HunksLines(Dropped(fa), Dropped(fb), hunks))
  {
    HunksInDropped(fa, fb, hunks);
    hide ReadAs, NoChar, OpsLines, HunkHeader, AllInFiles, Dropped;
    NothingReadAs();
    if hunks != [] {
      var h, a, b := hunks[0], Dropped(fa), Dropped(fb);
      HeaderReadAs(h);
      OpsReadAs(fa, fb, h.ops);
      HunksReadAs(fa, fb, hunks[1..]);
      ReadAsConcat([HunkHeader(h)], [HunkHeader(h)], OpsLines(fa, fb, h.ops), OpsLines(a, b, h.ops));
      ReadAsConcat([HunkHeader(h)] + OpsLines(fa, fb, h.ops), [HunkHeader(h)] + OpsLines(a, b, h.ops),
                   HunksLines(fa, fb, hunks[1..]), HunksLines(a, b, hunks[1..]));
    }
  }

  // ----- The whole patch -----

  lemma DroppedCountable(fa: FileLines, fb: FileLines, hunks: seq<Hunk>)
    requires HunksInFiles(fa, fb, hunks) && AllCountable(fa, fb, hunks)
    ensures AllCountable(Dropped(fa), Dropped(fb), hunks)
  {
    hide OldUsed, NewUsed;
    forall k | 0 <= k < |hunks| ensures Countable(Dropped(fa), Dropped(fb), hunks[k]) {
      assert Countable(fa, fb, hunks[k]) && AllInFiles(fa, fb, hunks[k].ops);
    }
  }

  /** Parsing a printed comparison gives one file, with exactly the hunks that were printed: their
      ranges, their lines, and which sides end without a newline. Carriage returns at the ends of
      lines are lost. */
  lemma PrintedParses(fa: FileLines, fb: FileLines, hunks: seq<Hunk>, oldLabel: string, newLabel: string,
                      strip: int, reverse: bool)
    requires HunksInFiles(fa, fb, hunks) && AllCountable(fa, fb, hunks)
    requires NoChar(fa.lines, '\n') && NoChar(fb.lines, '\n') && Unbroken([oldLabel, newLabel])
    ensures HunksInFiles(Dropped(fa), Dropped(fb), hunks)
    ensures Parsed(Printed(UnifiedLines(fa, fb, hunks, oldLabel, newLabel)), strip, reverse) ==
            [FileOf("--- " + oldLabel, "+++ " + newLabel, strip, reverse)
             .(hunks := PatchHunksOf(Dropped(fa), Dropped(fb), hunks, reverse))]
  {
    hide FileOf, HunksLines, PatchHunksOf, HunksInFiles, AllCountable, HunksFrom, LinesOf, TextOf, Dropped;
    LinesComeBack(fa, fb, hunks, oldLabel, newLabel);
    DroppedCountable(fa, fb, hunks);
    var a, b := Dropped(fa), Dropped(fb);
    var lines := UnifiedLines(a, b, hunks, oldLabel, newLabel);
    var body := HunksLines(a, b, hunks);
    assert lines[2..2 + |body|] == body;
    assert At(lines, 2, body);
    HunksParsed(a, b, lines, 2, hunks, [], reverse);
    assert [] + PatchHunksOf(a, b, hunks, reverse) == PatchHunksOf(a, b, hunks, reverse);
    assert lines[0][..4] == "--- " && lines[1][..4] == "+++ ";
    assert FileHeaderAt(lines, 0);
    var pf := FileOf(lines[0], lines[1], strip, reverse).(hunks := PatchHunksOf(a, b, hunks, reverse));
    assert FilesFrom(lines, 0, [], strip, reverse) == FilesFrom(lines, |lines|, [] + [pf], strip, reverse);
    assert [] + [pf] == [pf];
  }

  lemma LinesComeBack(fa: FileLines, fb: FileLines, hunks: seq<Hunk>, oldLabel: string, newLabel: string)
    requires HunksInFiles(fa, fb, hunks)
    requires NoChar(fa.lines, '\n') && NoChar(fb.lines, '\n') && Unbroken([oldLabel, newLabel])
    ensures HunksInFiles(Dropped(fa), Dropped(fb), hunks)
    ensures DropCrAll(LinesOf(Printed(UnifiedLines(fa, fb, hunks, oldLabel, newLabel)))) ==
            UnifiedLines(Dropped(fa), Dropped(fb), hunks, oldLabel, newLabel)
  {
    hide HunksLines, HunksInFiles, LinesOf, TextOf, DropCrAll, Dropped, Unbroken;
    var lines, labels := UnifiedLines(fa, fb, hunks, oldLabel, newLabel), ["--- " + oldLabel, "+++ " + newLabel];
    HunksReadAs(fa, fb, hunks);
    LabelsUnbroken(oldLabel, newLabel);
    UnbrokenIsReadAs(labels);
    ReadAsConcat(labels, labels, HunksLines(fa, fb, hunks), HunksLines(Dropped(fa), Dropped(fb), hunks));
    LinesOfText(lines, true);
  }

  lemma LabelsUnbroken(oldLabel: string, newLabel: string)
    requires Unbroken([oldLabel, newLabel])
    ensures Unbroken(["--- " + oldLabel, "+++ " + newLabel])
  {
    assert '\n' !in [oldLabel, newLabel][0] && DropCr([oldLabel, newLabel][0]) == oldLabel;
    assert '\n' !in [oldLabel, newLabel][1] && DropCr([oldLabel, newLabel][1]) == newLabel;
  }
}
