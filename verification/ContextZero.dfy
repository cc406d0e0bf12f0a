/** Comparing without context and patching with the outcome: exactly when the new file comes back. */
module ContextZero {
  import opened EditScript
  import opened Text
  import opened Hunks
  import opened Unified
  import opened ParsePrinted
  import opened PatchParser
  import opened PatchApply
  import opened PatchOutput
  import opened PatchFits
  import opened PatchEngine
  import opened LineEndings
  import opened PatchContextZero
  import opened DiffEngine
  import opened RoundTrip
  import opened DiffThenPatch

  // ----- The hunks fit -----

  // Lines of changes begin with their sign.
  lemma SignedLine(fa: FileLines, fb: FileLines, op: EditOp, reverse: bool)
    requires InFiles(fa, fb, op) && !op.Equal?
    ensures var lines := OpBody(fa, fb, op, reverse); |lines| == 1 && !IsContext(lines[0])
  {
  }

  lemma {:induction false} BodyHasEnds(fa: FileLines, fb: FileLines, ops: seq<EditOp>, reverse: bool)
    requires AllInFiles(fa, fb, ops) && ops != []
    ensures var lines := OpsBody(fa, fb, ops, reverse);
            && lines != []
            && (!ops[0].Equal? ==> !IsContext(lines[0]))
            && (!ops[|ops| - 1].Equal? ==> !IsContext(lines[|lines| - 1]))
    decreases |ops|
  {
    hide IsContext;
    assert InFiles(fa, fb, ops[0]);
    if !ops[0].Equal? {
      SignedLine(fa, fb, ops[0], reverse);
    }
    if |ops| > 1 {
      BodyHasEnds(fa, fb, ops[1..], reverse);
    } else {
      assert OpsBody(fa, fb, ops, reverse) == OpBody(fa, fb, ops[0], reverse);
    }
  }

  lemma NoContext(lines: seq<string>)
    requires lines != [] && !IsContext(lines[0]) && !IsContext(lines[|lines| - 1])
    ensures ContextOf(lines) == HunkContext(0, 0)
  {
  }

  // A span without context begins and ends with a change.
  lemma BareSpan(ops: seq<EditOp>, hunks: seq<Hunk>, spans: seq<Span>, ranges: seq<ChangeRange>, k: nat)
    requires HunksOf(ops, 0, hunks, spans, ranges) && k < |spans|
    ensures k < |hunks| && spans[k].lo < spans[k].hi <= |ops| && HunkAt(ops, hunks[k], spans[k])
    ensures !ops[spans[k].lo].Equal? && !ops[spans[k].hi - 1].Equal?
  {
    assert HunkAt(ops, hunks[k], spans[k]) && WithContext(ops, spans[k], ranges[k], 0);
  }

  lemma HunkFitsBareWindow(fa: FileLines, fb: FileLines, ops: seq<EditOp>, hunks: seq<Hunk>, spans: seq<Span>,
                           ranges: seq<ChangeRange>, k: nat, reverse: bool)
    requires ValidScript(fa.lines, fb.lines, ops) && HunksOf(ops, 0, hunks, spans, ranges)
    requires k < |spans| && spans[k].lo <= spans[k].hi <= |ops| && AllInFiles(fa, fb, hunks[k].ops)
    ensures HunkFitsBare(FromFile(fa, fb, reverse), ToFile(fa, fb, reverse), PatchHunkOf(fa, fb, hunks[k], reverse),
                         WindowOf(ops, spans[k], reverse))
  {
    hide Path, OldUsed, NewUsed, Side, OpsBody, AnyMarksOld, AnyMarksNew, AllInFiles, WithContext, Covers, HunksOf, IsContext,
      LeadingContext, TrailingContext;
    BareSpan(ops, hunks, spans, ranges, k);
    var lo, hi := spans[k].lo, spans[k].hi;
    PathBetween(fa.lines, fb.lines, ops, lo, hi);
    BodySides(fa, fb, hunks[k].ops, reverse, OldUsed(ops[..lo]), NewUsed(ops[..lo]), OldUsed(ops[..hi]), NewUsed(ops[..hi]));
    MarkedNew(fa, fb, ops, 0, hunks, spans, ranges, k);
    MarkedOld(fa, fb, ops, 0, hunks, spans, ranges, k);
    UsedSplit(ops, lo, hi);
    assert hunks[k].ops[0] == ops[lo] && hunks[k].ops[|hunks[k].ops| - 1] == ops[hi - 1];
    BodyHasEnds(fa, fb, hunks[k].ops, reverse);
    NoContext(OpsBody(fa, fb, hunks[k].ops, reverse));
    UsedOne(ops, lo);
    UsedGrows(ops, lo + 1, hi);
  }

  // Between two spans lines are used.
  lemma GapIsUsed(fa: FileLines, fb: FileLines, ops: seq<EditOp>, hunks: seq<Hunk>, spans: seq<Span>,
                  ranges: seq<ChangeRange>, k: nat)
    requires ValidScript(fa.lines, fb.lines, ops) && HunksOf(ops, 0, hunks, spans, ranges) && 0 < k < |spans|
    ensures spans[k - 1].hi <= spans[k].lo <= |ops|
    ensures OldUsed(ops[..spans[k - 1].hi]) < OldUsed(ops[..spans[k].lo])
    ensures NewUsed(ops[..spans[k - 1].hi]) < NewUsed(ops[..spans[k].lo])
  {
    hide Path, OldUsed, NewUsed, HunkAt, WithContext, Covers;
    GapFitsWindows(fa, fb, ops, 0, hunks, spans, ranges, k);
    var from, to := spans[k - 1].hi, spans[k].lo;
    assert from < to;
    UsedOne(ops, from);
    UsedGrows(ops, from + 1, to);
  }

  lemma GapFitsBareWindow(fa: FileLines, fb: FileLines, ops: seq<EditOp>, hunks: seq<Hunk>, spans: seq<Span>,
                          ranges: seq<ChangeRange>, k: nat, reverse: bool)
    requires ValidScript(fa.lines, fb.lines, ops) && HunksOf(ops, 0, hunks, spans, ranges) && k < |spans| && SpansInside(ops, spans)
    ensures GapFitsBare(FromFile(fa, fb, reverse), ToFile(fa, fb, reverse), WindowsOf(ops, spans, reverse), k)
  {
    hide Path, OldUsed, NewUsed, HunksOf;
    NothingUsed(ops);
    GapFitsWindows(fa, fb, ops, 0, hunks, spans, ranges, k);
    if k > 0 {
      GapIsUsed(fa, fb, ops, hunks, spans, ranges, k);
    }
  }

  /** The hunks of a comparison without context fit the files, in both directions. */
  lemma ComparisonFitsBare(fa: FileLines, fb: FileLines, ops: seq<EditOp>, hunks: seq<Hunk>, spans: seq<Span>,
                           ranges: seq<ChangeRange>, reverse: bool)
    requires Comparison(fa, fb, ops, 0, hunks, spans, ranges) && HunksInFiles(fa, fb, hunks)
    ensures SpansInside(ops, spans)
    ensures FitsBare(FromFile(fa, fb, reverse), ToFile(fa, fb, reverse), PatchHunksOf(fa, fb, hunks, reverse),
                     WindowsOf(ops, spans, reverse))
  {
    hide Path, OldUsed, NewUsed, HunkAt, WithContext, Covers, HunkFitsBare, GapFitsBare, PatchHunkOf, AllInFiles, TailShown;
    var a, b := FromFile(fa, fb, reverse), ToFile(fa, fb, reverse);
    forall k | 0 <= k < |spans| ensures spans[k].lo <= spans[k].hi <= |ops| {
      BareSpan(ops, hunks, spans, ranges, k);
    }
    var hs, ws := PatchHunksOf(fa, fb, hunks, reverse), WindowsOf(ops, spans, reverse);
    NothingUsed(ops);
    forall k | 0 <= k < |hs| ensures HunkFitsBare(a, b, hs[k], ws[k]) && GapFitsBare(a, b, ws, k) {
      HunkFitsBareWindow(fa, fb, ops, hunks, spans, ranges, k, reverse);
      GapFitsBareWindow(fa, fb, ops, hunks, spans, ranges, k, reverse);
    }
    GapFitsWindows(fa, fb, ops, 0, hunks, spans, ranges, |spans|);
    EndFits(fa, fb, ops, StandsAt(spans, |spans|));
  }

  // ----- Comparing and patching -----

  lemma {:induction false} EmptyLastLine(lines: seq<string>)
    requires lines != [] && lines[|lines| - 1] == ""
    ensures var t := TextOf(lines, false); t == "" || t[|t| - 1] == '\n'
  {
    if |lines| > 1 {
      EmptyLastLine(lines[1..]);
    }
  }

  lemma ContentIsFile(content: string)
    ensures IsFile(FileOfContent(content))
  {
    hide LinesOf, TextOf, NoChar;
    LinesHaveNo(content, '\n');
    TextOfLines(content);
    var lines := LinesOf(content);
    NothingInText();
    if lines != [] && lines[|lines| - 1] == "" && !EndsLine(content) {
      EmptyLastLine(lines);
    }
  }

  lemma NothingInText()
    ensures TextOf([], false) == ""
  {
  }

  ghost predicate AllHarmless(a: FileLines, b: FileLines, ws: seq<Window>) {
    forall k :: 0 <= k < |ws| ==> Harmless(a, b, ws[k])
  }

  // The windows of the hunks shown, which are inside the script.
  ghost predicate Spans(s: Shown) {
    SpansInside(s.ops, s.spans)
  }

  ghost predicate HarmlessHunks(s: Shown, reverse: bool, from: FileLines, to: FileLines) {
    Spans(s) && AllHarmless(from, to, WindowsOf(s.ops, s.spans, reverse))
  }

  /** Whatever file was compared with whatever other, without context: patching with what was printed
      rejects nothing, and the outcome is the other file if and only if every hunk is harmless, on the
      lines without their carriage returns, and the carriage returns come back. */
  lemma PatchWithoutContext(oldContent: string, newContent: string, s: Shown, oldLabel: string, newLabel: string, output: string,
                            files: map<string, string>, files': map<string, string>, opts: PatchOptions, o: Outcome)
    returns (got: string)
    requires OneCrAtMost(oldContent) && OneCrAtMost(newContent) && PlainLabel(oldLabel) && PlainLabel(newLabel)
    requires oldContent != newContent
    requires Shows(FileOfContent(oldContent), FileOfContent(newContent), 0, s, oldLabel, newLabel, output)
    requires opts.fuzz >= 0 && !opts.dryRun
    requires Finds(files, Header(oldLabel, newLabel, opts), opts, if opts.reverse then newContent else oldContent)
    requires AllPatched(files, files', Parsed(output, opts.stripLevel, opts.reverse), opts, o)
    ensures o.failed == [false] && files' == Written(files, Header(oldLabel, newLabel, opts), got, opts)
    ensures Spans(s)
    ensures var from, to := if opts.reverse then newContent else oldContent, if opts.reverse then oldContent else newContent;
            got == to <==>
            && AllHarmless(Dropped(FileOfContent(from)), Dropped(FileOfContent(to)), WindowsOf(s.ops, s.spans, opts.reverse))
            && AllComeBack(LinesOf(to), EndsLine(to), Crlf(from))
  {
    hide Comparison, HunksInFiles, AllCountable, FilePatched, Parsed, FileOf, UnifiedLines, LinesOf, TextOf, EndsLine,
      PatchHunksOf, Unbroken, Printed, Finds, Written, AllHarmless, Dropped, AllComeBack, Crlf, OneCrAtMost;
    var fa, fb := FileOfContent(oldContent), FileOfContent(newContent);
    LinesHaveNo(oldContent, '\n');
    LinesHaveNo(newContent, '\n');
    ComparisonPrints(fa, fb, s.ops, 0, s.hunks, s.spans, s.ranges);
    LabelsAreUnbroken(oldLabel, newLabel);
    PrintedParses(fa, fb, s.hunks, oldLabel, newLabel, opts.stripLevel, opts.reverse);
    var hs := PatchHunksOf(Dropped(fa), Dropped(fb), s.hunks, opts.reverse);
    var pf := Header(oldLabel, newLabel, opts).(hunks := hs);
    var pfs := Parsed(output, opts.stripLevel, opts.reverse);
    assert pfs == [pf];
    assert OnePatched(pfs[0], opts, o, 0);
    got := BareFileBecomes(oldContent, newContent, s, files, files', pf, Header(oldLabel, newLabel, opts), opts,
                           o.placements[0], o.states[0], o.failed[0]);
  }

  lemma BareFileBecomes(oldContent: string, newContent: string, s: Shown, files: map<string, string>, files': map<string, string>,
                        pf: PatchFile, header: PatchFile, opts: PatchOptions, ps: seq<Placement>, states: seq<PlaceState>,
                        failed: bool)
    returns (got: string)
    requires OneCrAtMost(oldContent) && OneCrAtMost(newContent) && oldContent != newContent
    requires ReadsHunks(oldContent, newContent, 0, s, opts.reverse, pf.hunks) && pf == header.(hunks := pf.hunks)
    requires opts.fuzz >= 0 && !opts.dryRun
    requires Finds(files, header, opts, if opts.reverse then newContent else oldContent)
    requires FilePatched(files, files', pf, opts, ps, states, failed)
    ensures !failed && files' == Written(files, header, got, opts) && Spans(s)
    ensures var from, to := if opts.reverse then newContent else oldContent, if opts.reverse then oldContent else newContent;
            got == to <==> HarmlessHunks(s, opts.reverse, Dropped(FileOfContent(from)), Dropped(FileOfContent(to)))
                           && AllComeBack(LinesOf(to), EndsLine(to), Crlf(from))
  {
    hide Comparison, HunksInFiles, LinesOf, TextOf, EndsLine, AllPlaced, FitsBare, PatchHunkOf, RejectText, RenderFrom, DropCrAll,
      Harmless, IsFile, Dropped, AllComeBack, Crlf, CleanText, Recovered, AllHarmless;
    var fa, fb := FileOfContent(oldContent), FileOfContent(newContent);
    var from, to := if opts.reverse then newContent else oldContent, if opts.reverse then oldContent else newContent;
    TextOfLines(oldContent);
    TextOfLines(newContent);
    SomeBareHunk(fa, fb, s);
    ComparisonDropped(fa, fb, s.ops, 0, s.hunks, s.spans, s.ranges);
    ComparisonFitsBare(Dropped(fa), Dropped(fb), s.ops, s.hunks, s.spans, s.ranges, opts.reverse);
    var ws := WindowsOf(s.ops, s.spans, opts.reverse);
    DroppedIs(from);
    DroppedIs(to);
    BareTextExactly(from, to, pf.hunks, ws, opts.fuzz, ps, states);
    assert ps[0].Placed?;
    got := NewContent(from, pf.hunks, ps);
  }

  lemma DroppedIs(content: string)
    ensures Dropped(FileOfContent(content)) == FileLines(FileLinesOf(content), EndsLine(content))
  {
  }

  // What hunks without context make of a file is the other one exactly if they are harmless and the
  // carriage returns come back.
  lemma BareTextExactly(from: string, to: string, hs: seq<PatchHunk>, ws: seq<Window>, maxFuzz: int, ps: seq<Placement>,
                        states: seq<PlaceState>)
    requires OneCrAtMost(from) && OneCrAtMost(to) && maxFuzz >= 0
    requires FitsBare(Dropped(FileOfContent(from)), Dropped(FileOfContent(to)), hs, ws)
    requires AllPlaced(FileLinesOf(from), hs, maxFuzz, ps, states)
    ensures forall k :: 0 <= k < |ps| ==> ps[k].Placed?
    ensures |ps| == |hs|
    ensures Rejoined(RenderFrom(FileLinesOf(from), EndsLine(from), hs, ps, 0), Crlf(from)) == to <==>
            && AllHarmless(Dropped(FileOfContent(from)), Dropped(FileOfContent(to)), ws)
            && AllComeBack(LinesOf(to), EndsLine(to), Crlf(from))
  {
    hide LinesOf, TextOf, EndsLine, AllPlaced, FitsBare, RenderFrom, DropCrAll, Harmless, IsFile, AllComeBack, Crlf, CleanText,
      Recovered, Rejoined, Dropped;
    var a, b := Dropped(FileOfContent(from)), Dropped(FileOfContent(to));
    DroppedIs(from);
    DroppedIs(to);
    SamePlaces(a.lines, hs, maxFuzz, ps, states);
    CleanContent(from);
    CleanContent(to);
    HunksAreClean(a, b, hs, ws);
    CleanRendered(a.lines, a.hasTrailingNewline, hs, ps, 0);
    RejoinedExactly(RenderFrom(a.lines, a.hasTrailingNewline, hs, ps, 0), from, to);
    RecoveredExactly(from, to);
    if AllComeBack(LinesOf(to), EndsLine(to), Crlf(from)) {
      BackIsFile(to, Crlf(from));
      ContextZeroExactly(a, b, hs, ws, maxFuzz, ps, states);
    } else {
      AllPlacedBare(a, b, hs, ws, maxFuzz, ps, states, |hs|);
      SizesBare(a, b, hs, ws);
    }
  }

  lemma CleanContent(content: string)
    requires OneCrAtMost(content)
    ensures CleanLines(FileLinesOf(content))
  {
    hide LinesOf;
    LinesHaveNo(content, '\n');
  }

  lemma HunksAreClean(a: FileLines, b: FileLines, hs: seq<PatchHunk>, ws: seq<Window>)
    requires FitsBare(a, b, hs, ws) && CleanLines(b.lines)
    ensures forall h :: h in hs ==> CleanLines(NewLines(h))
  {
    hide FitsBare, DropCr, Side;
    forall h | h in hs ensures CleanLines(NewLines(h)) {
      var k :| 0 <= k < |hs| && hs[k] == h;
      FitsAtBare(a, b, hs, ws, k);
    }
  }

  lemma BackIsFile(to: string, crlf: bool)
    requires AllComeBack(LinesOf(to), EndsLine(to), crlf)
    ensures IsFile(Dropped(FileOfContent(to)))
  {
    hide LinesOf;
    ContentIsFile(to);
    LinesHaveNo(to, '\n');
    var lines := LinesOf(to);
    if !EndsLine(to) {
      assert ComesBack(lines[|lines| - 1], crlf && (false || |lines| - 1 < |lines| - 1));
    }
  }

  // Different files are compared with at least one hunk.
  lemma SomeBareHunk(fa: FileLines, fb: FileLines, s: Shown)
    requires Comparison(fa, fb, s.ops, 0, s.hunks, s.spans, s.ranges) && HunksInFiles(fa, fb, s.hunks)
    requires TextOf(fa.lines, fa.hasTrailingNewline) != TextOf(fb.lines, fb.hasTrailingNewline)
    ensures s.hunks != []
  {
    hide Comparison, HunkFitsBare, GapFitsBare, HunksInFiles;
    ComparisonFitsBare(fa, fb, s.ops, s.hunks, s.spans, s.ranges, false);
    assert fa.lines[0..] == fa.lines && fb.lines[0..] == fb.lines;
  }

  // ----- Three comparisons whose patches do not give the new file -----

  // A change with kept lines around it is a hunk of its own.
  lemma ChangeAlone(ops: seq<EditOp>, hunks: seq<Hunk>, spans: seq<Span>, ranges: seq<ChangeRange>, p: nat) returns (k: nat)
    requires HunksOf(ops, 0, hunks, spans, ranges) && p < |ops| && !ops[p].Equal?
    requires (p > 0 ==> ops[p - 1].Equal?) && (p + 1 < |ops| ==> ops[p + 1].Equal?)
    requires forall i :: 0 <= i < |ops| && i != p ==> ops[i].Equal?
    ensures k < |spans| && spans[k] == Span(p, p + 1)
  {
    k := ChangeInSpan(ops, 0, hunks, spans, ranges, p);
    BareSpan(ops, hunks, spans, ranges, k);
  }

  // The window of a script's only change.
  lemma OnlyWindow(fa: FileLines, fb: FileLines, s: Shown, p: nat) returns (k: nat)
    requires Comparison(fa, fb, s.ops, 0, s.hunks, s.spans, s.ranges) && p < |s.ops| && !s.ops[p].Equal? && Spans(s)
    requires forall i :: 0 <= i < |s.ops| && i != p ==> s.ops[i].Equal?
    ensures k < |s.spans| && WindowsOf(s.ops, s.spans, false)[k] == WindowOf(s.ops, Span(p, p + 1), false)
  {
    hide HunksOf, TailShown;
    k := ChangeAlone(s.ops, s.hunks, s.spans, s.ranges, p);
  }

  lemma Lines(lines: seq<string>, newline: bool, content: string)
    requires NoChar(lines, '\n') && (lines != [] && !newline ==> lines[|lines| - 1] != []) && TextOf(lines, newline) == content
    requires lines != []
    ensures FileOfContent(content) == FileLines(lines, newline)
  {
    LinesOfText(lines, newline);
  }

  lemma Contents()
    ensures FileOfContent("a\nb\n") == FileLines(["a", "b"], true) && FileOfContent("a\nc\nb\n") == FileLines(["a", "c", "b"], true)
    ensures FileOfContent("a\nc") == FileLines(["a", "c"], false) && FileOfContent("a\nc\nc\n") == FileLines(["a", "c", "c"], true)
    ensures FileOfContent("a") == FileLines(["a"], false)
  {
    hide LinesOf, EndsLine;
    assert ["a", "b"][1..] == ["b"] && ["a", "c"][1..] == ["c"];
    assert ["a", "c", "b"][1..] == ["c", "b"] && ["c", "b"][1..] == ["b"];
    assert ["a", "c", "c"][1..] == ["c", "c"] && ["c", "c"][1..] == ["c"];
    Lines(["a", "b"], true, "a\nb\n");
    Lines(["a", "c", "b"], true, "a\nc\nb\n");
    Lines(["a", "c"], false, "a\nc");
    Lines(["a", "c", "c"], true, "a\nc\nc\n");
    Lines(["a"], false, "a");
  }

  // A script with one change, at position p.
  ghost predicate ChangesOnly(ops: seq<EditOp>, p: nat) {
    p < |ops| && !ops[p].Equal? && forall i :: 0 <= i < |ops| && i != p ==> ops[i].Equal?
  }

  lemma {:induction false} OneChange(ops: seq<EditOp>) returns (p: nat)
    requires Cost(ops) == 1
    ensures ChangesOnly(ops, p)
    decreases |ops|
  {
    if ops[0].Equal? {
      p := OneChange(ops[1..]);
      p := p + 1;
    } else {
      FreeIffAllKept(ops[1..]);
      p := 0;
    }
  }

  lemma {:induction false} KeptUses(ops: seq<EditOp>)
    requires AllKept(ops)
    ensures OldUsed(ops) == |ops| == NewUsed(ops)
    decreases |ops|
  {
    if ops != [] {
      KeptUses(ops[..|ops| - 1]);
    }
  }

  // How many lines are used before and behind the one change.
  lemma UsesAround(a: seq<string>, b: seq<string>, ops: seq<EditOp>, p: nat)
    requires ValidScript(a, b, ops) && ChangesOnly(ops, p)
    ensures OldUsed(ops[..p]) == p == NewUsed(ops[..p])
    ensures OldUsed(ops[..p + 1]) == (if ops[p].Insert? then p else p + 1) <= |a|
    ensures NewUsed(ops[..p + 1]) == (if ops[p].Delete? then p else p + 1) <= |b|
    ensures |a| == OldUsed(ops[..p + 1]) + |ops| - p - 1 && |b| == NewUsed(ops[..p + 1]) + |ops| - p - 1
  {
    hide Path, OldUsed, NewUsed;
    UsedOne(ops, p);
    KeptUses(ops[..p]);
    KeptUses(ops[p + 1..]);
    UsedAll(a, b, ops);
    UsedSplit(ops, p + 1, |ops|);
  }

  // What a script with one change says about the files, and its window.
  lemma SoleChange(a: seq<string>, b: seq<string>, ops: seq<EditOp>, p: nat)
    requires ValidScript(a, b, ops) && ChangesOnly(ops, p)
    ensures p <= |a| && p <= |b| && a[..p] == b[..p]
    ensures ops[p].Insert? ==> |b| == |a| + 1 && a[p..] == b[p + 1..]
                               && WindowOf(ops, Span(p, p + 1), false) == Window(p, p, p, p + 1)
    ensures ops[p].Delete? ==> |a| == |b| + 1 && a[p + 1..] == b[p..]
                               && WindowOf(ops, Span(p, p + 1), false) == Window(p, p + 1, p, p)
  {
    UsesAround(a, b, ops, p);
    hide Path, OldUsed, NewUsed;
    PathAt(a, b, ops, p);
    PathAt(a, b, ops, p + 1);
    KeptLinesEqual(a, b, ops[..p], 0, 0, p, p);
    var x, y := OldUsed(ops[..p + 1]), NewUsed(ops[..p + 1]);
    KeptLinesEqual(a, b, ops[p + 1..], x, y, |a|, |b|);
    assert a[..p] == a[0..p] && b[..p] == b[0..p] && a[x..|a|] == a[x..] && b[y..|b|] == b[y..];
  }

  // Behind an insertion that is not at the end, the last operation keeps the last line of both.
  lemma LastKept(a: seq<string>, b: seq<string>, ops: seq<EditOp>, p: nat)
    requires ValidScript(a, b, ops) && ChangesOnly(ops, p) && ops[p].Insert? && p < |a|
    ensures |ops| == |b| && ops[|b| - 1] == Equal(|a| - 1, |b| - 1)
  {
    UsesAround(a, b, ops, p);
    hide Path, OldUsed, NewUsed;
    PathAt(a, b, ops, |ops| - 1);
    UsedOne(ops, |ops| - 1);
    UsedAll(a, b, ops);
  }

  // An insertion before the last line; one behind a line that is not terminated; a deletion before an end
  // that is not terminated.
  ghost predicate Failing(oldContent: string, newContent: string) {
    || (oldContent == "a\nb\n" && newContent == "a\nc\nb\n")
    || (oldContent == "a\nc" && newContent == "a\nc\nc\n")
    || (oldContent == "a\nb\n" && newContent == "a")
  }

  lemma SomeHarm(oldContent: string, newContent: string, s: Shown) returns (k: nat)
    requires Failing(oldContent, newContent) && Cost(s.ops) == 1 && Spans(s)
    requires Comparison(FileOfContent(oldContent), FileOfContent(newContent), s.ops, 0, s.hunks, s.spans, s.ranges)
    ensures k < |s.spans|
    ensures !Harmless(FileOfContent(oldContent), FileOfContent(newContent), WindowsOf(s.ops, s.spans, false)[k])
  {
    hide HunksOf, LinesOf, EndsLine, Path, WindowOf;
    Contents();
    var fa, fb := FileOfContent(oldContent), FileOfContent(newContent);
    var p := OneChange(s.ops);
    SoleChange(fa.lines, fb.lines, s.ops, p);
    k := OnlyWindow(fa, fb, s, p);
    SlicesDiffer();
    if oldContent == "a\nc" {
      if s.ops[p].Insert? && p < 2 {
        LastKept(fa.lines, fb.lines, s.ops, p);
      }
      TailIsShown(fa, fb, s.ops, |fb.lines| - 1);
    }
  }

  lemma SlicesDiffer()
    ensures ["a", "b"][0..] != ["a", "c", "b"][1..] && ["a", "b"][..2] != ["a", "c", "b"][..2]
    ensures ["a", "c"][0..] != ["a", "c", "c"][1..] && ["a", "b"][1..] != ["a"][0..]
  {
    assert ["a", "b"][0..][0] == "a" && ["a", "c", "b"][1..][0] == "c";
    assert ["a", "b"][..2][1] == "b" && ["a", "c", "b"][..2][1] == "c";
    assert ["a", "c"][0..][0] == "a" && ["a", "c", "c"][1..][0] == "c";
    assert ["a", "b"][1..][0] == "b" && ["a"][0..][0] == "a";
  }

  lemma TailIsShown(fa: FileLines, fb: FileLines, ops: seq<EditOp>, i: nat)
    requires TailShown(fa, fb, ops) && fa.hasTrailingNewline != fb.hasTrailingNewline && fa.lines != [] && fb.lines != []
    ensures i < |ops| ==> ops[i] != Equal(|fa.lines| - 1, |fb.lines| - 1)
  {
  }

  /** For these three files and any script with a single change, patching with what a comparison without
      context prints does not give the new file. */
  lemma ContextZeroFails(oldContent: string, newContent: string, s: Shown, oldLabel: string, newLabel: string, output: string,
                         files: map<string, string>, files': map<string, string>, opts: PatchOptions, o: Outcome)
    returns (got: string)
    requires Failing(oldContent, newContent) && Cost(s.ops) == 1 && PlainLabel(oldLabel) && PlainLabel(newLabel)
    requires Shows(FileOfContent(oldContent), FileOfContent(newContent), 0, s, oldLabel, newLabel, output)
    requires opts.fuzz >= 0 && !opts.dryRun && !opts.reverse
    requires Finds(files, Header(oldLabel, newLabel, opts), opts, oldContent)
    requires AllPatched(files, files', Parsed(output, opts.stripLevel, opts.reverse), opts, o)
    ensures o.failed == [false] && files' == Written(files, Header(oldLabel, newLabel, opts), got, opts)
    ensures got != newContent
  {
    hide Comparison, AllPatched, Finds, Written, Harmless, LinesOf, EndsLine, Parsed, Printed, HunksInFiles, FileOf;
    Contents();
    FailingIsPlain(oldContent, newContent);
    PlainIsClean(oldContent);
    PlainIsClean(newContent);
    PlainComesBack(oldContent, newContent);
    got := PatchWithoutContext(oldContent, newContent, s, oldLabel, newLabel, output, files, files', opts, o);
    var k := SomeHarm(oldContent, newContent, s);
  }

  lemma PlainIsClean(content: string)
    requires Plain(content)
    ensures OneCrAtMost(content) && Dropped(FileOfContent(content)) == FileOfContent(content)
  {
    PlainIsDropped(content);
  }

  lemma PlainComesBack(from: string, to: string)
    requires Plain(from) && Plain(to)
    ensures AllComeBack(LinesOf(to), EndsLine(to), Crlf(from))
  {
    PlainContent(from);
  }

  lemma FailingIsPlain(oldContent: string, newContent: string)
    requires Failing(oldContent, newContent)
    ensures Plain(oldContent) && Plain(newContent) && oldContent != newContent
  {
    hide LinesOf, EndsLine;
    Contents();
    assert FileOfContent(oldContent).lines == LinesOf(oldContent) && FileOfContent(newContent).lines == LinesOf(newContent);
  }
}
