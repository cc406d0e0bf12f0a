/** Comparing two files: the chosen algorithm, the treatment of a missing last newline, the hunks
    and their text. */
module DiffEngine {
  import opened EditScript
  import opened Myers
  import opened PatienceDiff
  import opened HistogramDiff
  import opened Text
  import opened Hunks
  import opened Unified
  import opened ParsePrinted

  function FileOfContent(content: string): FileLines {
    FileLines(LinesOf(content), EndsLine(content))
  }

  // A file that does not exist counts as empty, and so does /dev/null.
  function ContentAt(files: map<string, string>, path: string): string {
    if path == DEV_NULL || path == "" || path !in files then "" else files[path]
  }

  // What each of the algorithms promises of its script.
  ghost predicate Promised<T(!new)>(a: seq<T>, b: seq<T>, algorithm: DiffAlgorithm, ops: seq<EditOp>) {
    match algorithm
    case MyersAlgorithm => PlainScript(a, b, ops)
    case Minimal => Shortest(a, b, ops)
    case Patience => ByPatience(a, b, ops)
    case Histogram => ByHistogram(a, b, 0, ops)
  }

  method RunAlgorithm<T(==,!new)>(a: seq<T>, b: seq<T>, algorithm: DiffAlgorithm) returns (ops: seq<EditOp>)
    ensures ValidScript(a, b, ops) && FreeIfEqual(a, b, ops)
    ensures Promised(a, b, algorithm, ops)
  {
    hide ByPatience, ByHistogram, PlainScript, Shortest, ValidScript, FreeIfEqual;
    match algorithm {
      case Patience => ops := PatienceScript(a, b);
      case Histogram => ops := HistogramScript(a, b, 0);
      case _ => ops := MyersDiff(a, b, algorithm);
    }
  }

  // ----- The last line -----

  // The last lines of both files are not kept as one when only one of them has its newline.
  ghost predicate TailShown(fa: FileLines, fb: FileLines, ops: seq<EditOp>) {
    fa.hasTrailingNewline != fb.hasTrailingNewline ==>
      forall i :: 0 <= i < |ops| ==> !(ops[i].Equal? && KeepsLast(fa, fb, ops[i]))
  }

  predicate KeepsLast(fa: FileLines, fb: FileLines, op: EditOp)
    requires op.Equal?
  {
    op.oldIdx == |fa.lines| - 1 && op.newIdx == |fb.lines| - 1
  }

  // Only the last operation can keep the last line of both files.
  lemma KeepsLastAtEnd(fa: FileLines, fb: FileLines, ops: seq<EditOp>, i: nat)
    requires ValidScript(fa.lines, fb.lines, ops) && i < |ops| && ops[i].Equal? && KeepsLast(fa, fb, ops[i])
    ensures i == |ops| - 1
  {
    hide Path, Cost, Kept, OldUsed, NewUsed;
    PathAt(fa.lines, fb.lines, ops, i);
    PathAt(fa.lines, fb.lines, ops, i + 1);
    UsedNext(ops, 0, i);
    assert ops[0..i] == ops[..i] && ops[0..i + 1] == ops[..i + 1];
    PathBounds(fa.lines, fb.lines, ops[i + 1..], |fa.lines|, |fb.lines|, |fa.lines|, |fb.lines|);
  }

  // The script ends with the last line of both files, kept.
  predicate EndsKept(fa: FileLines, fb: FileLines, script: seq<EditOp>) {
    script != [] && script[|script| - 1].Equal? && KeepsLast(fa, fb, script[|script| - 1])
  }

  // Only that operation is replaced, by a deletion and an insertion.
  ghost predicate TailSplit(fa: FileLines, fb: FileLines, script: seq<EditOp>, ops: seq<EditOp>) {
    if EndsKept(fa, fb, script) then
      ops == script[..|script| - 1] + [Delete(|fa.lines| - 1), Insert(|fb.lines| - 1)]
    else ops == script
  }

  /** Turns a kept last line into a deletion and an insertion. */
  method SplitTail(fa: FileLines, fb: FileLines, script: seq<EditOp>) returns (ops: seq<EditOp>)
    requires ValidScript(fa.lines, fb.lines, script)
    requires fa.hasTrailingNewline != fb.hasTrailingNewline
    ensures ValidScript(fa.lines, fb.lines, ops) && TailShown(fa, fb, ops)
    ensures TailSplit(fa, fb, script, ops)
  {
    hide ValidScript;
    ops := script;
    var i: int := |ops| - 1;
    while i >= 0
      invariant ops == script && -1 <= i < |ops|
      invariant forall j :: i < j < |ops| ==> !ops[j].Equal?
      decreases i
    {
      var op := ops[i];
      if op.Equal? && op.oldIdx == |fa.lines| - 1 && op.newIdx == |fb.lines| - 1 {
        KeepsLastAtEnd(fa, fb, script, i);
        SplitLast(fa, fb, script);
        ops := ops[..i] + [Delete(op.oldIdx), Insert(op.newIdx)] + ops[i + 1..];
        assert ops == script[..i] + [Delete(op.oldIdx), Insert(op.newIdx)];
        return;
      }
      if op.Equal? {
        break;
      }
      i := i - 1;
    }
    forall j | 0 <= j < |ops| ensures !(ops[j].Equal? && KeepsLast(fa, fb, ops[j])) {
      if ops[j].Equal? && KeepsLast(fa, fb, ops[j]) {
        KeepsLastAtEnd(fa, fb, script, j);
      }
    }
  }

  lemma SplitLast(fa: FileLines, fb: FileLines, script: seq<EditOp>)
    requires script != [] && ValidScript(fa.lines, fb.lines, script)
    requires script[|script| - 1].Equal? && KeepsLast(fa, fb, script[|script| - 1])
    ensures var n, m := |fa.lines|, |fb.lines|;
            var ops := script[..|script| - 1] + [Delete(n - 1), Insert(m - 1)];
            ValidScript(fa.lines, fb.lines, ops) && TailShown(fa, fb, ops)
  {
    hide Path, OldUsed, NewUsed, Cost;
    var n, m := |fa.lines|, |fb.lines|;
    var init := script[..|script| - 1];
    PathAt(fa.lines, fb.lines, script, |script| - 1);
    DeletesPath(fa.lines, fb.lines, [Delete(n - 1)], n - 1, m - 1);
    InsertsPath(fa.lines, fb.lines, [Insert(m - 1)], n, m - 1);
    PathConcat(fa.lines, fb.lines, [Delete(n - 1)], [Insert(m - 1)], n - 1, m - 1, n, m - 1, n, m);
    assert [Delete(n - 1)] + [Insert(m - 1)] == [Delete(n - 1), Insert(m - 1)];
    PathConcat(fa.lines, fb.lines, init, [Delete(n - 1), Insert(m - 1)], 0, 0, n - 1, m - 1, n, m);
    forall j | 0 <= j < |init| ensures !(init[j].Equal? && KeepsLast(fa, fb, init[j])) {
      if init[j].Equal? && KeepsLast(fa, fb, init[j]) {
        KeepsLastAtEnd(fa, fb, script, j);
      }
    }
  }

  // ----- Whether there is a difference -----

  ghost predicate AllKept(ops: seq<EditOp>) {
    forall i :: 0 <= i < |ops| ==> ops[i].Equal?
  }

  lemma {:induction false} FreeIffAllKept(ops: seq<EditOp>)
    ensures Cost(ops) == 0 <==> AllKept(ops)
  {
    if ops != [] {
      FreeIffAllKept(ops[1..]);
      assert AllKept(ops) <==> ops[0].Equal? && AllKept(ops[1..]) by {
        assert ops == [ops[0]] + ops[1..];
        assert forall i :: 0 <= i < |ops[1..]| ==> ops[1..][i] == ops[i + 1];
      }
    }
  }

  lemma {:induction false} FreeMeansEqual<T>(a: seq<T>, b: seq<T>, ops: seq<EditOp>, x: nat)
    requires Path(a, b, ops, x, x, |a|, |b|) && Cost(ops) == 0 && x <= |a| && x <= |b|
    ensures a[x..] == b[x..]
    decreases |ops|
  {
    if ops != [] {
      FreeMeansEqual(a, b, ops[1..], x + 1);
      assert a[x..] == [a[x]] + a[x + 1..];
      assert b[x..] == [b[x]] + b[x + 1..];
    }
  }

  /** No change and the same end of file mean the same content, and the other way round. */
  lemma SameIffNothingToShow(oldContent: string, newContent: string, ops: seq<EditOp>)
    requires var fa, fb := FileOfContent(oldContent), FileOfContent(newContent);
             ValidScript(fa.lines, fb.lines, ops) && FreeIfEqual(fa.lines, fb.lines, ops)
    ensures var fa, fb := FileOfContent(oldContent), FileOfContent(newContent);
            oldContent == newContent <==>
            AllKept(ops) && (fa.lines == [] || fa.hasTrailingNewline == fb.hasTrailingNewline)
  {
    hide Path, Cost, LinesOf, TextOf;
    var fa, fb := FileOfContent(oldContent), FileOfContent(newContent);
    TextOfLines(oldContent);
    TextOfLines(newContent);
    FreeIffAllKept(ops);
    if AllKept(ops) {
      FreeMeansEqual(fa.lines, fb.lines, ops, 0);
      assert fa.lines[0..] == fa.lines && fb.lines[0..] == fb.lines;
      if fa.lines == [] {
        EmptyFile(oldContent);
        EmptyFile(newContent);
      }
    }
  }

  lemma EmptyFile(content: string)
    requires LinesOf(content) == []
    ensures content == ""
  {
    TextOfLines(content);
  }

  // ----- The comparison -----

  // ops compares the files, and the hunks are those of ops.
  ghost predicate Comparison(fa: FileLines, fb: FileLines, ops: seq<EditOp>, context: nat, hunks: seq<Hunk>,
                             spans: seq<Span>, ranges: seq<ChangeRange>) {
    ValidScript(fa.lines, fb.lines, ops) && TailShown(fa, fb, ops) && HunksOf(ops, context, hunks, spans, ranges)
  }

  // What the printer needs of the hunks.
  lemma ComparisonPrints(fa: FileLines, fb: FileLines, ops: seq<EditOp>, context: nat, hunks: seq<Hunk>,
                         spans: seq<Span>, ranges: seq<ChangeRange>)
    requires Comparison(fa, fb, ops, context, hunks, spans, ranges)
    ensures HunksInFiles(fa, fb, hunks) && AllCountable(fa, fb, hunks)
  {
    hide Path, OldUsed, NewUsed, WithContext, Covers;
    forall k | 0 <= k < |hunks| ensures AllInFiles(fa, fb, hunks[k].ops) && Countable(fa, fb, hunks[k]) {
      assert HunkAt(ops, hunks[k], spans[k]);
      var lo := spans[k].lo;
      forall i | 0 <= i < |hunks[k].ops|
        ensures InFiles(fa, fb, hunks[k].ops[i])
        ensures hunks[k].ops[i].Equal? ==>
                  fa.lines[hunks[k].ops[i].oldIdx] == fb.lines[hunks[k].ops[i].newIdx]
      {
        assert hunks[k].ops[i] == ops[lo + i];
        PathAt(fa.lines, fb.lines, ops, lo + i);
      }
    }
  }

  // What a comparison prints: nothing for equal contents, the hunks of a valid script otherwise.
  datatype Shown = Shown(ops: seq<EditOp>, hunks: seq<Hunk>, spans: seq<Span>, ranges: seq<ChangeRange>)

  ghost predicate Shows(fa: FileLines, fb: FileLines, context: nat, s: Shown, oldLabel: string, newLabel: string, output: string) {
    && Comparison(fa, fb, s.ops, context, s.hunks, s.spans, s.ranges)
    && HunksInFiles(fa, fb, s.hunks)
    && output == Printed(UnifiedLines(fa, fb, s.hunks, oldLabel, newLabel))
  }

  function LabelOf(name: string, path: string): string {
    if name == "" then path else name
  }

  // The script shown is that of the algorithm, with the end of file split off if only one lacks its newline.
  ghost predicate ByAlgorithm(fa: FileLines, fb: FileLines, algorithm: DiffAlgorithm, ops: seq<EditOp>) {
    if fa.hasTrailingNewline == fb.hasTrailingNewline then Promised(fa.lines, fb.lines, algorithm, ops)
    else exists script :: Promised(fa.lines, fb.lines, algorithm, script) && TailSplit(fa, fb, script, ops)
  }

  /** Compares two files. The exit code tells exactly whether their contents differ. */
  method BuiltinDiff(files: map<string, string>, oldPath: string, newPath: string, context: nat,
                     oldLabel: string, newLabel: string, algorithm: DiffAlgorithm)
    returns (exitCode: int, output: string, ghost shown: Shown)
    ensures exitCode == if ContentAt(files, oldPath) == ContentAt(files, newPath) then 0 else 1
    ensures exitCode == 0 ==> output == ""
    ensures exitCode == 1 ==>
              Shows(FileOfContent(ContentAt(files, oldPath)), FileOfContent(ContentAt(files, newPath)), context, shown,
                    LabelOf(oldLabel, oldPath), LabelOf(newLabel, newPath), output)
    ensures exitCode == 1 ==>
              ByAlgorithm(FileOfContent(ContentAt(files, oldPath)), FileOfContent(ContentAt(files, newPath)), algorithm, shown.ops)
  {
    hide ValidScript, FreeIfEqual, Promised, TailSplit, LinesOf, HunksOf, HunksInFiles, UnifiedLines, Printed, AllCountable, EndsLine;
    shown := Shown([], [], [], []);
    var oldContent, newContent := ContentAt(files, oldPath), ContentAt(files, newPath);
    var oldFl := SplitFileLines(oldContent);
    var newFl := SplitFileLines(newContent);
    var ops := RunAlgorithm(oldFl.lines, newFl.lines, algorithm);
    SameIffNothingToShow(oldContent, newContent, ops);
    var hasDiff := AnyChange(ops);
    if !hasDiff && oldFl.lines != [] && oldFl.hasTrailingNewline != newFl.hasTrailingNewline {
      hasDiff := true;
    }
    if !hasDiff {
      return 0, "", shown;
    }
    ghost var script := ops;
    if oldFl.lines != [] && oldFl.hasTrailingNewline != newFl.hasTrailingNewline {
      ops := SplitTail(oldFl, newFl, ops);
    } else {
      NoTail(oldFl, newFl, ops);
      NothingSplit(oldFl, newFl, ops);
    }
    assert ByAlgorithm(oldFl, newFl, algorithm, ops);
    var hunks, spans, ranges := BuildHunks(oldFl.lines, newFl.lines, ops, context);
    ComparisonPrints(oldFl, newFl, ops, context, hunks, spans, ranges);
    output := FormatUnified(oldFl, newFl, hunks, LabelOf(oldLabel, oldPath), LabelOf(newLabel, newPath));
    exitCode := 1;
    shown := Shown(ops, hunks, spans, ranges);
  }

  lemma NothingSplit(fa: FileLines, fb: FileLines, ops: seq<EditOp>)
    requires ValidScript(fa.lines, fb.lines, ops)
    ensures fa.lines == [] ==> TailSplit(fa, fb, ops, ops)
  {
    hide Path, OldUsed, NewUsed;
    if ops != [] {
      PathAt(fa.lines, fb.lines, ops, |ops| - 1);
    }
  }

  lemma NoTail(fa: FileLines, fb: FileLines, ops: seq<EditOp>)
    requires ValidScript(fa.lines, fb.lines, ops)
    requires fa.lines == [] || fa.hasTrailingNewline == fb.hasTrailingNewline
    ensures TailShown(fa, fb, ops)
  {
    hide Path, OldUsed, NewUsed;
    forall i | 0 <= i < |ops| && fa.lines == [] ensures !ops[i].Equal? {
      PathAt(fa.lines, fb.lines, ops, i);
    }
  }

  method AnyChange(ops: seq<EditOp>) returns (hasDiff: bool)
    ensures hasDiff <==> !AllKept(ops)
  {
    hasDiff := false;
    for i := 0 to |ops|
      invariant forall j :: 0 <= j < i ==> ops[j].Equal?
    {
      if !ops[i].Equal? {
        return true;
      }
    }
  }
}
