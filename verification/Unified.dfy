/** The unified format: printing the hunks of a comparison and reading a patch back. */
module Unified {
  import opened EditScript
  import opened Text
  import opened Hunks

  const MARKER := "\\ No newline at end of file"
  const MARKER_LOWER := "\\ no newline at end of file"

  // ----- Printing -----

  predicate InFiles(fa: FileLines, fb: FileLines, op: EditOp) {
    && (!op.Insert? ==> op.oldIdx < |fa.lines|)
    && (!op.Delete? ==> op.newIdx < |fb.lines|)
  }

  predicate AllInFiles(fa: FileLines, fb: FileLines, ops: seq<EditOp>) {
    forall i :: 0 <= i < |ops| ==> InFiles(fa, fb, ops[i])
  }

  function Mark(marked: bool): seq<string> {
    if marked then [MARKER] else []
  }

  // The line is the last of its file and the file does not end with a newline.
  predicate Unterminated(f: FileLines, i: nat) {
    i == |f.lines| - 1 && !f.hasTrailingNewline
  }

  // A kept line whose end of file shows on one side only is printed as a change.
  predicate PrintedAsChange(fa: FileLines, fb: FileLines, op: EditOp) {
    op.Equal? && Unterminated(fa, op.oldIdx) != Unterminated(fb, op.newIdx)
  }

  // The lines printed for one operation.
  function OpLines(fa: FileLines, fb: FileLines, op: EditOp): seq<string>
    requires InFiles(fa, fb, op)
  {
    match op
    case Equal(i, j) =>
      if PrintedAsChange(fa, fb, op) then
        ["-" + fa.lines[i]] + Mark(!fa.hasTrailingNewline) + ["+" + fb.lines[j]] + Mark(!fb.hasTrailingNewline)
      else
        [" " + fa.lines[i]] + Mark(Unterminated(fa, i) && Unterminated(fb, j))
    case Delete(i) => ["-" + fa.lines[i]] + Mark(Unterminated(fa, i))
    case Insert(j) => ["+" + fb.lines[j]] + Mark(Unterminated(fb, j))
  }

  function OpsLines(fa: FileLines, fb: FileLines, ops: seq<EditOp>): seq<string>
    requires AllInFiles(fa, fb, ops)
  {
    if ops == [] then [] else OpLines(fa, fb, ops[0]) + OpsLines(fa, fb, ops[1..])
  }

  // "@@ -start,count +start,count @@", where a count of one is left out.
  function HunkHeader(h: Hunk): string {
    "@@ -" + RangeText(h.oldStart, h.oldCount) + " +" + RangeText(h.newStart, h.newCount) + " @@"
  }

  function RangeText(start: nat, count: nat): string {
    Decimal(start) + if count == 1 then "" else "," + Decimal(count)
  }

  predicate HunksInFiles(fa: FileLines, fb: FileLines, hunks: seq<Hunk>) {
    forall i :: 0 <= i < |hunks| ==> AllInFiles(fa, fb, hunks[i].ops)
  }

  function HunksLines(fa: FileLines, fb: FileLines, hunks: seq<Hunk>): seq<string>
    requires HunksInFiles(fa, fb, hunks)
  {
    if hunks == [] then []
    else [HunkHeader(hunks[0])] + OpsLines(fa, fb, hunks[0].ops) + HunksLines(fa, fb, hunks[1..])
  }

  function UnifiedLines(fa: FileLines, fb: FileLines, hunks: seq<Hunk>, oldLabel: string, newLabel: string): seq<string>
    requires HunksInFiles(fa, fb, hunks)
  {
    ["--- " + oldLabel, "+++ " + newLabel] + HunksLines(fa, fb, hunks)
  }

  lemma {:induction false} OpsLinesAppend(fa: FileLines, fb: FileLines, ops: seq<EditOp>, op: EditOp)
    requires AllInFiles(fa, fb, ops) && InFiles(fa, fb, op)
    ensures AllInFiles(fa, fb, ops + [op])
    ensures OpsLines(fa, fb, ops + [op]) == OpsLines(fa, fb, ops) + OpLines(fa, fb, op)
  {
    hide OpLines;
    if ops == [] {
      assert ops + [op] == [op] && [op][1..] == [];
    } else {
      OpsLinesAppend(fa, fb, ops[1..], op);
      assert (ops + [op])[1..] == ops[1..] + [op];
    }
  }

  lemma {:induction false} HunksLinesAppend(fa: FileLines, fb: FileLines, hunks: seq<Hunk>, h: Hunk)
    requires HunksInFiles(fa, fb, hunks) && AllInFiles(fa, fb, h.ops)
    ensures HunksInFiles(fa, fb, hunks + [h])
    ensures HunksLines(fa, fb, hunks + [h]) == HunksLines(fa, fb, hunks) + ([HunkHeader(h)] + OpsLines(fa, fb, h.ops))
  {
    hide OpsLines, HunkHeader, AllInFiles;
    if hunks == [] {
      assert hunks + [h] == [h] && [h][1..] == [];
    } else {
      HunksLinesAppend(fa, fb, hunks[1..], h);
      assert (hunks + [h])[1..] == hunks[1..] + [h];
    }
  }

  // Text of the lines, each with its newline.
  function Printed(lines: seq<string>): string {
    TextOf(lines, true)
  }

  lemma PrintedConcat(s: seq<string>, t: seq<string>)
    ensures Printed(s + t) == Printed(s) + Printed(t)
  {
    if t == [] {
      assert s + t == s;
    } else {
      TextOfConcat(s, t, true);
    }
  }

  method FormatOp(fa: FileLines, fb: FileLines, op: EditOp) returns (result: string)
    requires InFiles(fa, fb, op)
    ensures result == Printed(OpLines(fa, fb, op))
  {
    hide Printed, OpLines;
    OpText(fa, fb, op);
    match op {
      case Equal(i, j) =>
        var lastOld := i == |fa.lines| - 1;
        var lastNew := j == |fb.lines| - 1;
        var oldNeedAnnot := lastOld && !fa.hasTrailingNewline;
        var newNeedAnnot := lastNew && !fb.hasTrailingNewline;
        if oldNeedAnnot != newNeedAnnot {
          result := FormatLine('-', fa.lines[i], !fa.hasTrailingNewline);
          var plus := FormatLine('+', fb.lines[j], !fb.hasTrailingNewline);
          result := result + plus;
        } else {
          result := FormatLine(' ', fa.lines[i],
                               lastOld && !fa.hasTrailingNewline && lastNew && !fb.hasTrailingNewline);
        }
      case Delete(i) =>
        result := FormatLine('-', fa.lines[i], i == |fa.lines| - 1 && !fa.hasTrailingNewline);
      case Insert(j) =>
        result := FormatLine('+', fb.lines[j], j == |fb.lines| - 1 && !fb.hasTrailingNewline);
    }
  }

  // One printed line, and the marker under it if it is called for.
  method FormatLine(prefix: char, line: string, marked: bool) returns (result: string)
    ensures result == LineText(prefix, line, marked)
  {
    result := [prefix];
    result := result + line;
    result := result + "\n";
    if marked {
      result := result + (MARKER + "\n");
    }
  }

  function LineText(prefix: char, line: string, marked: bool): string {
    [prefix] + line + "\n" + if marked then MARKER + "\n" else ""
  }

  lemma PrintedLine(prefix: char, line: string, marked: bool)
    ensures Printed([[prefix] + line] + Mark(marked)) == LineText(prefix, line, marked)
  {
    var l := [prefix] + line;
    if marked {
      PrintedConcat([l], [MARKER]);
    } else {
      assert [l] + Mark(marked) == [l];
    }
  }

  lemma OpText(fa: FileLines, fb: FileLines, op: EditOp)
    requires InFiles(fa, fb, op)
    ensures Printed(OpLines(fa, fb, op)) ==
            match op
            case Equal(i, j) =>
              if PrintedAsChange(fa, fb, op) then
                LineText('-', fa.lines[i], !fa.hasTrailingNewline) + LineText('+', fb.lines[j], !fb.hasTrailingNewline)
              else LineText(' ', fa.lines[i], Unterminated(fa, i) && Unterminated(fb, j))
            case Delete(i) => LineText('-', fa.lines[i], Unterminated(fa, i))
            case Insert(j) => LineText('+', fb.lines[j], Unterminated(fb, j))
  {
    hide Printed, LineText;
    match op {
      case Equal(i, j) =>
        if PrintedAsChange(fa, fb, op) {
          var minus := ["-" + fa.lines[i]] + Mark(!fa.hasTrailingNewline);
          var plus := ["+" + fb.lines[j]] + Mark(!fb.hasTrailingNewline);
          assert OpLines(fa, fb, op) == minus + plus;
          PrintedConcat(minus, plus);
          PrintedLine('-', fa.lines[i], !fa.hasTrailingNewline);
          PrintedLine('+', fb.lines[j], !fb.hasTrailingNewline);
        } else {
          PrintedLine(' ', fa.lines[i], Unterminated(fa, i) && Unterminated(fb, j));
        }
      case Delete(i) =>
        PrintedLine('-', fa.lines[i], Unterminated(fa, i));
      case Insert(j) =>
        PrintedLine('+', fb.lines[j], Unterminated(fb, j));
    }
  }

  /** Prints the hunks under the two file labels. */
  method FormatUnified(fa: FileLines, fb: FileLines, hunks: seq<Hunk>, oldLabel: string, newLabel: string)
    returns (result: string)
    requires HunksInFiles(fa, fb, hunks)
    ensures result == Printed(UnifiedLines(fa, fb, hunks, oldLabel, newLabel))
  {
    hide OpsLines, OpLines, HunkHeader, Printed;
    result := "--- " + oldLabel + "\n" + "+++ " + newLabel + "\n";
    ghost var lines := ["--- " + oldLabel, "+++ " + newLabel];
    LabelText(oldLabel, newLabel);
    for k := 0 to |hunks|
      invariant HunksInFiles(fa, fb, hunks[..k])
      invariant result == Printed(lines + HunksLines(fa, fb, hunks[..k]))
    {
      var h := hunks[k];
      var body := FormatHunk(fa, fb, h);
      result := result + body;
      HunksLinesAppend(fa, fb, hunks[..k], h);
      assert hunks[..k + 1] == hunks[..k] + [h];
      var hl := [HunkHeader(h)] + OpsLines(fa, fb, h.ops);
      PrintedConcat(lines + HunksLines(fa, fb, hunks[..k]), hl);
      assert lines + HunksLines(fa, fb, hunks[..k]) + hl == lines + (HunksLines(fa, fb, hunks[..k]) + hl);
    }
    assert hunks[..|hunks|] == hunks;
  }

  lemma LabelText(oldLabel: string, newLabel: string)
    ensures Printed(["--- " + oldLabel, "+++ " + newLabel] + []) == "--- " + oldLabel + "\n" + "+++ " + newLabel + "\n"
  {
    var s, t := ["--- " + oldLabel], ["+++ " + newLabel];
    PrintedConcat(s, t);
    assert ["--- " + oldLabel, "+++ " + newLabel] + [] == s + t;
  }

  method FormatHunk(fa: FileLines, fb: FileLines, h: Hunk) returns (result: string)
    requires AllInFiles(fa, fb, h.ops)
    ensures result == Printed([HunkHeader(h)] + OpsLines(fa, fb, h.ops))
  {
    hide OpsLines, OpLines, Printed, HunkHeader;
    result := FormatHeader(h);
    HeaderText(fa, fb, h);
    for i := 0 to |h.ops|
      invariant AllInFiles(fa, fb, h.ops[..i])
      invariant result == Printed([HunkHeader(h)] + OpsLines(fa, fb, h.ops[..i]))
    {
      var lines := FormatOp(fa, fb, h.ops[i]);
      result := result + lines;
      OpsLinesAppend(fa, fb, h.ops[..i], h.ops[i]);
      assert h.ops[..i + 1] == h.ops[..i] + [h.ops[i]];
      var sofar := [HunkHeader(h)] + OpsLines(fa, fb, h.ops[..i]);
      PrintedConcat(sofar, OpLines(fa, fb, h.ops[i]));
      assert sofar + OpLines(fa, fb, h.ops[i]) == [HunkHeader(h)] + OpsLines(fa, fb, h.ops[..i + 1]);
    }
    assert h.ops[..|h.ops|] == h.ops;
  }

  lemma HeaderText(fa: FileLines, fb: FileLines, h: Hunk)
    ensures OpsLines(fa, fb, h.ops[..0]) == []
    ensures Printed([HunkHeader(h)] + OpsLines(fa, fb, h.ops[..0])) == HunkHeader(h) + "\n"
  {
    assert [HunkHeader(h)] + [] == [HunkHeader(h)];
  }

  method FormatHeader(h: Hunk) returns (result: string)
    ensures result == HunkHeader(h) + "\n"
  {
    if h.oldCount == 1 && h.newCount == 1 {
      result := "@@ -" + Decimal(h.oldStart) + " +" + Decimal(h.newStart) + " @@\n";
    } else if h.oldCount == 1 {
      result := "@@ -" + Decimal(h.oldStart) + " +" + Decimal(h.newStart) + "," + Decimal(h.newCount) + " @@\n";
    } else if h.newCount == 1 {
      result := "@@ -" + Decimal(h.oldStart) + "," + Decimal(h.oldCount) + " +" + Decimal(h.newStart) + " @@\n";
    } else {
      result := "@@ -" + Decimal(h.oldStart) + "," + Decimal(h.oldCount)
                + " +" + Decimal(h.newStart) + "," + Decimal(h.newCount) + " @@\n";
    }
  }
}
