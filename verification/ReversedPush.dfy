/** Patches that are pushed in reverse: a pop that is not forced tries them in reverse again, and refuses
    to take them off. */
module ReversedPush {
  import opened Text
  import opened Unified
  import opened DiffEngine
  import opened ParsePrinted
  import opened PatchParser
  import opened PatchApply
  import opened PatchOutput
  import opened PatchFits
  import opened PatchEngine
  import opened PatchOutcome
  import opened LineEndings
  import opened RoundTrip
  import opened QuiltFiles
  import opened QuiltStack
  import opened OwnPatches

  lemma {:induction false} OneLine(lines: seq<string>, sign: char, l: string)
    requires l in lines && OnSide(l, sign)
    ensures l[1..] in Side(lines, sign)
    decreases |lines|
  {
    if lines[|lines| - 1] != l {
      assert l in lines[..|lines| - 1];
      OneLine(lines[..|lines| - 1], sign, l);
    }
  }

  // A hunk whose sides have no line in common has no context.
  lemma NothingShared(h: PatchHunk)
    requires forall l :: l in Pattern(h) ==> l !in NewLines(h)
    ensures ContextOf(h.lines) == HunkContext(0, 0)
  {
    hide Side;
    if h.lines != [] {
      NotContext(h, h.lines[0]);
      NotContext(h, h.lines[|h.lines| - 1]);
    }
  }

  lemma NotContext(h: PatchHunk, line: string)
    requires line in h.lines && forall l :: l in Pattern(h) ==> l !in NewLines(h)
    ensures !IsContext(line)
  {
    hide Side, Pattern, NewLines;
    ContextIsShared(h, line);
  }

  lemma ContextIsShared(h: PatchHunk, line: string)
    requires line in h.lines
    ensures IsContext(line) ==> line[1..] in Pattern(h) && line[1..] in NewLines(h)
  {
    hide Side;
    if IsContext(line) {
      OneLine(h.lines, '-', line);
      OneLine(h.lines, '+', line);
    }
  }

  lemma NowhereIn(file: seq<string>, pattern: seq<string>, pos: int)
    requires pattern != [] && pattern[0] !in file
    ensures !Matches(file, pos, pattern, 0, 0)
  {
    if 0 <= pos < |file| {
      assert file[pos] in file;
    }
    assert Matches(file, pos, pattern, 0, 0) ==> LineMatches(file, pos, pattern, 0);
  }

  // Such a hunk has no place in the file it makes.
  lemma NoPlaceAgain(a: FileLines, b: FileLines, h: PatchHunk, w: Window, st: PlaceState, maxFuzz: int, p: Placement)
    requires HunkFits(a, b, h, w) && a.lines != [] && forall l :: l in b.lines ==> l !in a.lines
    requires PlacedRight(b.lines, h, maxFuzz, p, st)
    ensures p.Rejected?
  {
    hide Side, LeadingContext, TrailingContext, Matches;
    assert forall l :: l in a.lines[w.lo..w.hi] ==> l in a.lines;
    assert forall l :: l in b.lines[w.newLo..w.newHi] ==> l in b.lines;
    NothingShared(h);
    var s := SearchFor(b.lines, h, st);
    assert s.pattern[0] in a.lines;
    forall pos ensures !Matches(s.file, pos, s.pattern, 0, 0) {
      NowhereIn(s.file, s.pattern, pos);
    }
    if p.Placed? {
      var found, used :| PlacedWith(s, maxFuzz, p, found, used);
    }
  }

  // The patch of a change from an earlier content to the one the file has now, with no line in common.
  ghost predicate Rewritten(n: Names, files: Files, was: string, context: nat, s: Shown, patch: string) {
    && PlainNames(n) && n.file in files && files[n.file] != "" && context >= 1
    && (forall l :: l in FileLinesOf(was) ==> l !in FileLinesOf(files[n.file]))
    && Shows(FileOfContent(was), FileOfContent(files[n.file]), context, s, OldLabel(n, false), NewLabel(n, false), patch)
  }

  // What a hunk of the patch is, read in reverse.
  lemma ReadsReverse(n: Names, files: Files, was: string, context: nat, s: Shown, patch: string, opts: PatchOptions)
    requires Rewritten(n, files, was, context, s, patch) && opts.stripLevel == 1 && opts.reverse
    ensures was != files[n.file]
    ensures DiffThenPatch.PlainLabel(OldLabel(n, false)) && DiffThenPatch.PlainLabel(NewLabel(n, false))
    ensures DiffThenPatch.Header(OldLabel(n, false), NewLabel(n, false), opts).targetPath == n.file
    ensures var pfs := Parsed(patch, opts.stripLevel, opts.reverse);
            |pfs| == 1 && pfs[0].targetPath == n.file && !pfs[0].isCreation
            && DiffThenPatch.ReadsHunks(was, files[n.file], context, s, true, pfs[0].hunks)
  {
    hide Comparison, AllCountable, FileOf, Parsed, UnifiedLines, LinesOf, TextOf, EndsLine, PatchHunksOf, Unbroken, Printed, Dropped,
      HunksInFiles, DropCrAll;
    var now := files[n.file];
    var fa, fb := FileOfContent(was), FileOfContent(now);
    SomeLine(now);
    TwoLabels(n, opts);
    LinesHaveNo(was, '\n');
    LinesHaveNo(now, '\n');
    ComparisonPrints(fa, fb, s.ops, context, s.hunks, s.spans, s.ranges);
    DiffThenPatch.LabelsAreUnbroken(OldLabel(n, false), NewLabel(n, false));
    PrintedParses(fa, fb, s.hunks, OldLabel(n, false), NewLabel(n, false), opts.stripLevel, opts.reverse);
  }

  lemma SomeLine(content: string)
    requires content != ""
    ensures FileLinesOf(content) != [] && FileLinesOf(content)[0] in FileLinesOf(content)
  {
  }

  lemma TwoLabels(n: Names, opts: PatchOptions)
    requires PlainNames(n) && opts.stripLevel == 1 && opts.reverse
    ensures DiffThenPatch.PlainLabel(OldLabel(n, false)) && DiffThenPatch.PlainLabel(NewLabel(n, false))
    ensures var pf := DiffThenPatch.Header(OldLabel(n, false), NewLabel(n, false), opts); pf.targetPath == n.file && !pf.isCreation
  {
    hide ExtractPath, StripPath, TargetOf, Label, PlainDir, PlainFile, PlainStamp;
    LabelNamesFile(n.oldDir, n.file, n.oldStamp);
    LabelNamesFile(n.newDir, n.file, n.newStamp);
    LabelIsPlain(n.oldDir, n.file, n.oldStamp);
    LabelIsPlain(n.newDir, n.file, n.newStamp);
    var oldLine, newLine := "--- " + OldLabel(n, false), "+++ " + NewLabel(n, false);
    assert oldLine[4..] == OldLabel(n, false) && newLine[4..] == NewLabel(n, false);
  }

  // Every hunk of it is rejected by the file that holds the earlier lines.
  lemma AllRejectedAgain(was: string, now: string, context: nat, s: Shown, hs: seq<PatchHunk>, maxFuzz: int, ps: seq<Placement>,
                         states: seq<PlaceState>)
    requires DiffThenPatch.ReadsHunks(was, now, context, s, true, hs) && context >= 1 && now != "" && was != now
    requires forall l :: l in FileLinesOf(was) ==> l !in FileLinesOf(now)
    requires AllPlaced(FileLinesOf(was), hs, maxFuzz, ps, states)
    ensures AnyRejected(ps)
  {
    hide Comparison, HunksInFiles, LinesOf, TextOf, EndsLine, PatchHunkOf, PlacedRight, DropCrAll, HunkFits, GapFits;
    var fa, fb := FileOfContent(was), FileOfContent(now);
    TextOfLines(was);
    TextOfLines(now);
    SomeLine(now);
    DiffThenPatch.SomeHunk(fa, fb, s.ops, context, s.hunks, s.spans, s.ranges);
    DiffThenPatch.ComparisonDropped(fa, fb, s.ops, context, s.hunks, s.spans, s.ranges);
    ComparisonFits(Dropped(fa), Dropped(fb), s.ops, context, s.hunks, s.spans, s.ranges, true);
    assert Follows(FileLinesOf(was), hs[0], maxFuzz, ps[0], states, 0);
    NoPlaceAgain(Dropped(fb), Dropped(fa), hs[0], WindowsOf(s.ops, s.spans, true)[0], states[0], maxFuzz, ps[0]);
  }

  /** Such a patch goes on in reverse, and an unforced pop then refuses to take it off: it tries it in
      reverse once more. */
  lemma ReversedIsRefused(q: QuiltState, st: Stack, name: string, n: Names, was: string, context: nat, s: Shown, patch: string,
                          opts: PatchOptions, leaveRejects: bool)
    requires Rewritten(n, st.files, was, context, s, patch) && AllComeBack(LinesOf(was), EndsLine(was), Crlf(st.files[n.file]))
    requires opts.stripLevel == 1 && opts.reverse && opts.removeEmpty && !opts.dryRun && opts.fuzz >= 0
    requires name in q.patches && q.patches[name] == patch && patch != "" && q.StripLevel(name) == 1
    ensures var (code, st') := PushResult(st, name, patch, opts, leaveRejects);
            && code == 0 && st'.files == (if was == "" then st.files - {n.file} else st.files[n.file := was])
            && !q.Removable(st', name)
  {
    hide PatchedBy, TargetsOf, BackedUp, Rewritten, AllComeBack, LinesOf, EndsLine, Crlf;
    PushedInReverse(st.files, n, was, context, s, patch, opts);
    var after := if was == "" then st.files - {n.file} else st.files[n.file := was];
    TriedAgain(st.files, after, n, was, context, s, patch, q.VerifyOptions(name));
  }

  lemma PushedInReverse(files: Files, n: Names, was: string, context: nat, s: Shown, patch: string, opts: PatchOptions)
    requires Rewritten(n, files, was, context, s, patch) && AllComeBack(LinesOf(was), EndsLine(was), Crlf(files[n.file]))
    requires opts.stripLevel == 1 && opts.reverse && opts.removeEmpty && !opts.dryRun && opts.fuzz >= 0
    ensures PatchedBy(patch, opts, files) == (0, if was == "" then files - {n.file} else files[n.file := was])
  {
    hide PlainNames, Shows, DiffThenPatch.PlainLabel, DiffThenPatch.Header, Parsed, AllPatched, OldLabel, NewLabel, AllComeBack,
      Recovered, LinesOf, EndsLine, Crlf, DiffThenPatch.ReadsHunks;
    ReadsReverse(n, files, was, context, s, patch, opts);
    TwoLabels(n, opts);
    NamesAFile(n);
    var r := PatchedBy(patch, opts, files);
    var o :| PatchesWith(patch, opts, files, r.0, r.1, o);
    DiffThenPatch.PatchOfDiffIsNewFile(was, files[n.file], context, s, OldLabel(n, false), NewLabel(n, false), patch, files, r.1, opts, o);
  }

  lemma TriedAgain(files: Files, after: Files, n: Names, was: string, context: nat, s: Shown, patch: string, opts: PatchOptions)
    requires Rewritten(n, files, was, context, s, patch) && TriesToPop(opts)
    requires ContentOf(after, n.file) == was
    ensures PatchedBy(patch, opts, after).0 == 1
  {
    hide PlainNames, Shows, DiffThenPatch.PlainLabel, DiffThenPatch.Header, Parsed, AllPlaced, OldLabel, NewLabel, LinesOf,
      DropCrAll, DiffThenPatch.ReadsHunks, AnyRejected;
    ReadsReverse(n, files, was, context, s, patch, opts);
    NamesAFile(n);
    var r := PatchedBy(patch, opts, after);
    var o :| PatchesWith(patch, opts, after, r.0, r.1, o);
    var pfs := Parsed(patch, opts.stripLevel, opts.reverse);
    assert OnePatched(pfs[0], opts, o, 0);
    AllRejectedAgain(was, files[n.file], context, s, pfs[0].hunks, opts.fuzz, o.placements[0], o.states[0]);
    assert o.failed[0];
  }
}
