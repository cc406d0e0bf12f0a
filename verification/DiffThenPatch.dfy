/** The two engines one after the other: comparing, then patching with the result. */
module DiffThenPatch {
  import opened EditScript
  import opened Myers
  import opened Text
  import opened Hunks
  import opened Unified
  import opened PatchParser
  import opened ParsePrinted
  import opened PatchOutput
  import opened PatchFits
  import opened PatchEngine
  import opened LineEndings
  import opened DiffEngine
  import opened RoundTrip

  // No line ends in a carriage return, which the line splitters of the patch engine would drop.
  ghost predicate Plain(content: string) {
    NoneEndsInCr(LinesOf(content))
  }

  ghost predicate PlainLabel(name: string) {
    '\n' !in name && DropCr(name) == name
  }

  // The file a patch with these labels is for.
  ghost function Header(oldLabel: string, newLabel: string, opts: PatchOptions): PatchFile {
    FileOf("--- " + oldLabel, "+++ " + newLabel, opts.stripLevel, opts.reverse)
  }

  // The patch finds the given content at its target; a missing file counts as empty if the patch
  // creates it or is forced.
  ghost predicate Finds(files: map<string, string>, pf: PatchFile, opts: PatchOptions, content: string) {
    && pf.targetPath != "" && !CannotFind(files, pf, opts)
    && ContentOf(files, pf.targetPath) == content
  }

  lemma PlainContent(content: string)
    requires Plain(content)
    ensures FileLinesOf(content) == LinesOf(content) && !Crlf(content)
    ensures Unbroken(LinesOf(content))
  {
    LinesHaveNo(content, '\n');
    NothingToDrop(LinesOf(content));
    var firstLf := FindChar(content, '\n', 0);
    if firstLf > 0 {
      assert LinesOf(content)[0] == content[..firstLf];
      assert DropCr(content[..firstLf]) == content[..firstLf];
    }
  }

  lemma PlainIsDropped(content: string)
    requires Plain(content)
    ensures Dropped(FileOfContent(content)) == FileOfContent(content)
  {
    NothingToDrop(LinesOf(content));
  }

  // ----- The comparison, without carriage returns -----

  lemma {:induction false} PathDropped(a: seq<string>, b: seq<string>, ops: seq<EditOp>, x: nat, y: nat, u: nat, v: nat)
    requires Path(a, b, ops, x, y, u, v)
    ensures Path(DropCrAll(a), DropCrAll(b), ops, x, y, u, v)
  {
    if ops != [] {
      match ops[0] {
        case Equal(_, _) => PathDropped(a, b, ops[1..], x + 1, y + 1, u, v);
        case Delete(_) => PathDropped(a, b, ops[1..], x + 1, y, u, v);
        case Insert(_) => PathDropped(a, b, ops[1..], x, y + 1, u, v);
      }
    }
  }

  // A comparison also compares the files as the patch engine reads them.
  lemma ComparisonDropped(fa: FileLines, fb: FileLines, ops: seq<EditOp>, context: nat, hunks: seq<Hunk>,
                          spans: seq<Span>, ranges: seq<ChangeRange>)
    requires Comparison(fa, fb, ops, context, hunks, spans, ranges)
    ensures Comparison(Dropped(fa), Dropped(fb), ops, context, hunks, spans, ranges)
  {
    hide Path, HunksOf;
    PathDropped(fa.lines, fb.lines, ops, 0, 0, |fa.lines|, |fb.lines|);
  }

  // ----- Comparing, then patching -----

  // Different files are compared with at least one hunk.
  lemma SomeHunk(fa: FileLines, fb: FileLines, ops: seq<EditOp>, context: nat, hunks: seq<Hunk>,
                 spans: seq<Span>, ranges: seq<ChangeRange>)
    requires Comparison(fa, fb, ops, context, hunks, spans, ranges) && context >= 1 && HunksInFiles(fa, fb, hunks)
    requires TextOf(fa.lines, fa.hasTrailingNewline) != TextOf(fb.lines, fb.hasTrailingNewline)
    ensures hunks != []
  {
    hide Comparison, HunkFits, GapFits, HunksInFiles;
    ComparisonFits(fa, fb, ops, context, hunks, spans, ranges, false);
    assert fa.lines[0..] == fa.lines && fb.lines[0..] == fb.lines;
  }

  /** Whatever file was compared with whatever other, by any of the algorithms: the patch that was
      printed turns the first into the second without rejects; applied in reverse it turns the second
      into the first. It does so byte for byte if and only if the lines end as those of the file it is
      applied to. */
  lemma PatchOfDiffIsNewFile(oldContent: string, newContent: string, context: nat, s: Shown,
                             oldLabel: string, newLabel: string, output: string,
                             files: map<string, string>, files': map<string, string>, opts: PatchOptions, o: Outcome)
    requires PlainLabel(oldLabel) && PlainLabel(newLabel) && context >= 1 && oldContent != newContent
    requires Shows(FileOfContent(oldContent), FileOfContent(newContent), context, s, oldLabel, newLabel, output)
    requires opts.fuzz >= 0
    requires Finds(files, Header(oldLabel, newLabel, opts), opts, if opts.reverse then newContent else oldContent)
    requires AllPatched(files, files', Parsed(output, opts.stripLevel, opts.reverse), opts, o)
    ensures o.failed == [false]
    ensures var from, to := if opts.reverse then newContent else oldContent, if opts.reverse then oldContent else newContent;
            && files' == (if opts.dryRun then files else Written(files, Header(oldLabel, newLabel, opts), Recovered(from, to), opts))
            && (Recovered(from, to) == to <==> AllComeBack(LinesOf(to), EndsLine(to), Crlf(from)))
  {
    hide Comparison, HunksInFiles, AllCountable, FilePatched, Parsed, FileOf, UnifiedLines, LinesOf, TextOf, EndsLine,
      PatchHunksOf, Unbroken, Printed, Finds, Written, Dropped, Recovered, AllComeBack, Crlf;
    var fa, fb := FileOfContent(oldContent), FileOfContent(newContent);
    LinesHaveNo(oldContent, '\n');
    LinesHaveNo(newContent, '\n');
    ComparisonPrints(fa, fb, s.ops, context, s.hunks, s.spans, s.ranges);
    LabelsAreUnbroken(oldLabel, newLabel);
    PrintedParses(fa, fb, s.hunks, oldLabel, newLabel, opts.stripLevel, opts.reverse);
    var hs := PatchHunksOf(Dropped(fa), Dropped(fb), s.hunks, opts.reverse);
    var pf := Header(oldLabel, newLabel, opts).(hunks := hs);
    var pfs := Parsed(output, opts.stripLevel, opts.reverse);
    assert pfs == [pf];
    assert OnePatched(pfs[0], opts, o, 0);
    FileBecomes(oldContent, newContent, context, s, files, files', pf, Header(oldLabel, newLabel, opts), opts,
                o.placements[0], o.states[0], o.failed[0]);
    RecoveredExactly(oldContent, newContent);
    RecoveredExactly(newContent, oldContent);
  }

  lemma LabelsAreUnbroken(oldLabel: string, newLabel: string)
    requires PlainLabel(oldLabel) && PlainLabel(newLabel)
    ensures Unbroken([oldLabel, newLabel])
  {
  }

  // The printed hunks as they are read back, of a comparison of these contents.
  ghost predicate ReadsHunks(oldContent: string, newContent: string, context: nat, s: Shown, reverse: bool, hs: seq<PatchHunk>) {
    var fa, fb := FileOfContent(oldContent), FileOfContent(newContent);
    && Comparison(fa, fb, s.ops, context, s.hunks, s.spans, s.ranges) && HunksInFiles(fa, fb, s.hunks)
    && HunksInFiles(Dropped(fa), Dropped(fb), s.hunks)
    && hs == PatchHunksOf(Dropped(fa), Dropped(fb), s.hunks, reverse)
  }

  lemma FileBecomes(oldContent: string, newContent: string, context: nat, s: Shown,
                    files: map<string, string>, files': map<string, string>, pf: PatchFile, header: PatchFile, opts: PatchOptions,
                    ps: seq<Placement>, states: seq<PlaceState>, failed: bool)
    requires context >= 1 && oldContent != newContent
    requires ReadsHunks(oldContent, newContent, context, s, opts.reverse, pf.hunks) && pf == header.(hunks := pf.hunks)
    requires opts.fuzz >= 0
    requires Finds(files, header, opts, if opts.reverse then newContent else oldContent)
    requires FilePatched(files, files', pf, opts, ps, states, failed)
    ensures !failed
    ensures var from, to := if opts.reverse then newContent else oldContent, if opts.reverse then oldContent else newContent;
            files' == if opts.dryRun then files else Written(files, header, Recovered(from, to), opts)
  {
    hide Comparison, HunksInFiles, LinesOf, TextOf, EndsLine, AllPlaced, Fits, PatchHunkOf, RejectText, RenderFrom, DropCrAll;
    var fa, fb := FileOfContent(oldContent), FileOfContent(newContent);
    var from, to := if opts.reverse then newContent else oldContent, if opts.reverse then oldContent else newContent;
    TextOfLines(oldContent);
    TextOfLines(newContent);
    SomeHunk(fa, fb, s.ops, context, s.hunks, s.spans, s.ranges);
    ComparisonDropped(fa, fb, s.ops, context, s.hunks, s.spans, s.ranges);
    ComparisonFits(Dropped(fa), Dropped(fb), s.ops, context, s.hunks, s.spans, s.ranges, opts.reverse);
    FittingHunksApply(Dropped(FileOfContent(from)), Dropped(FileOfContent(to)), pf.hunks, WindowsOf(s.ops, s.spans, opts.reverse),
                      opts.fuzz, ps, states);
    assert ps[0].Placed?;
    assert NewContent(from, pf.hunks, ps) == Recovered(from, to);
  }

  /** Compares two files of a store and patches with the outcome. */
  method DiffThenPatch(fs: FileStore, oldPath: string, newPath: string, context: nat, oldLabel: string, newLabel: string,
                       algorithm: DiffAlgorithm, opts: PatchOptions)
    returns (exitCode: int)
    requires context >= 1 && opts.fuzz >= 0
    requires PlainLabel(LabelOf(oldLabel, oldPath)) && PlainLabel(LabelOf(newLabel, newPath))
    requires Finds(fs.files, Header(LabelOf(oldLabel, oldPath), LabelOf(newLabel, newPath), opts), opts,
                   ContentAt(fs.files, if opts.reverse then newPath else oldPath))
    modifies fs
    ensures exitCode == 0
    ensures if old(ContentAt(fs.files, oldPath)) == old(ContentAt(fs.files, newPath)) || opts.dryRun then fs.files == old(fs.files)
            else fs.files == old(Written(fs.files, Header(LabelOf(oldLabel, oldPath), LabelOf(newLabel, newPath), opts),
                                         Recovered(ContentAt(fs.files, if opts.reverse then newPath else oldPath),
                                                   ContentAt(fs.files, if opts.reverse then oldPath else newPath)), opts))
  {
    hide Shows, AllPatched, Finds, Written, Header, PlainLabel, Recovered;
    ghost var files := fs.files;
    var differ, output, shown := BuiltinDiff(fs.files, oldPath, newPath, context, oldLabel, newLabel, algorithm);
    exitCode := 0;
    if differ == 1 {
      ghost var o: Outcome;
      exitCode, o := BuiltinPatch(fs, output, opts);
      PatchOfDiffIsNewFile(ContentAt(files, oldPath), ContentAt(files, newPath), context, shown,
                           LabelOf(oldLabel, oldPath), LabelOf(newLabel, newPath), output, files, fs.files, opts, o);
    }
  }
}
