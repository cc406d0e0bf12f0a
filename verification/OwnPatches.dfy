/** The patches that a refresh writes: pushing one makes the change again, and popping it takes the
    change back, unless the change was to delete the file. */
module OwnPatches {
  import opened Common
  import opened EditScript
  import opened Text
  import opened Hunks
  import opened Unified
  import opened DiffEngine
  import opened ParsePrinted
  import opened PatchEngine
  import opened LineEndings
  import opened PatchOutcome
  import opened QuiltFiles
  import opened QuiltStack
  import DiffThenPatch

  // ----- Labels -----

  // The directories the labels put before a file, and the timestamps after it.
  datatype Names = Names(oldDir: string, newDir: string, file: string, oldStamp: string, newStamp: string)

  predicate PlainNames(n: Names) {
    && PlainDir(n.oldDir) && PlainDir(n.newDir) && PlainFile(n.file) && PlainStamp(n.oldStamp) && PlainStamp(n.newStamp)
  }

  predicate PlainDir(dir: string) {
    dir != "" && !Blank(dir[0]) && '/' !in dir && '\t' !in dir && '\n' !in dir
  }

  predicate PlainFile(file: string) {
    file != "" && file[0] != '/' && !Blank(file[|file| - 1]) && '\t' !in file && '\n' !in file
  }

  predicate PlainStamp(stamp: string) {
    stamp == "" || (stamp[0] == '\t' && stamp[|stamp| - 1] != '\r' && '\n' !in stamp)
  }

  function Label(dir: string, file: string, stamp: string): string {
    dir + "/" + file + stamp
  }

  function OldLabel(n: Names, missing: bool): string {
    if missing then DEV_NULL else Label(n.oldDir, n.file, n.oldStamp)
  }

  function NewLabel(n: Names, missing: bool): string {
    if missing then DEV_NULL else Label(n.newDir, n.file, n.newStamp)
  }

  lemma TabIsAfter(path: string, stamp: string)
    requires '\t' !in path && PlainStamp(stamp)
    ensures var tab := FindChar(path + stamp, '\t', 0);
            path == if tab >= 0 then (path + stamp)[..tab] else path + stamp
  {
    hide FindChar;
    var text := path + stamp;
    assert text[..|path|] == path && text[|path|..] == stamp;
    if stamp == "" {
      NotFound(text, '\t', 0);
    } else {
      assert text[0..|path|] == path;
      FoundAt(text, '\t', 0, |path|);
    }
  }

  // The file behind the one leading directory.
  lemma BehindDir(dir: string, file: string)
    requires PlainDir(dir) && PlainFile(file)
    ensures var slash := FindChar(dir + "/" + file, '/', 0); slash >= 0 && (dir + "/" + file)[slash + 1..] == file
  {
    hide FindChar;
    var path := dir + "/" + file;
    assert path[0..|dir|] == dir && path[|dir|] == '/' && path[|dir| + 1..] == file;
    FoundAt(path, '/', 0, |dir|);
  }

  predicate Bounded(path: string) {
    path != "" && !Blank(path[0]) && path[0] != '/' && !Blank(path[|path| - 1]) && '\t' !in path && '\n' !in path
  }

  lemma PathIsBounded(dir: string, file: string)
    requires PlainDir(dir) && PlainFile(file)
    ensures Bounded(dir + "/" + file)
  {
    var path := dir + "/" + file;
    assert path[0] == dir[0] && dir[0] in dir && path[|path| - 1] == file[|file| - 1];
  }

  // The two readings of a header line.
  lemma HeaderPath(path: string, stamp: string)
    requires Bounded(path) && PlainStamp(stamp)
    ensures PatchParser.ExtractPath(path + stamp) == path != DEV_NULL
    ensures TargetOf("+++ " + (path + stamp), 1) == StripComponents(path, 1)
  {
    hide FindChar, StripComponents;
    TabIsAfter(path, stamp);
    NotNowhere(path, stamp);
    var line := "+++ " + (path + stamp);
    assert line[..4] == "+++ " && line[4..] == path + stamp;
  }

  lemma NotNowhere(path: string, stamp: string)
    requires path != "" && path[0] != '/'
    ensures path != DEV_NULL && !StartsWith(path + stamp, DEV_NULL)
  {
    if StartsWith(path + stamp, DEV_NULL) {
      StartsWithFirst(path + stamp, DEV_NULL);
    }
  }

  // Both come to the file.
  lemma LabelNamesFile(dir: string, file: string, stamp: string)
    requires PlainDir(dir) && PlainFile(file) && PlainStamp(stamp)
    ensures PatchParser.ExtractPath(Label(dir, file, stamp)) == dir + "/" + file != DEV_NULL
    ensures PatchParser.StripPath(dir + "/" + file, 1) == file
    ensures TargetOf("+++ " + Label(dir, file, stamp), 1) == file
  {
    hide FindChar, TargetOf, PatchParser.ExtractPath;
    var path := dir + "/" + file;
    PathIsBounded(dir, file);
    BehindDir(dir, file);
    HeaderPath(path, stamp);
    assert PatchParser.SkipSlashes(file) == file;
    assert StripComponents(path, 1) == StripComponents(file, 0);
  }

  lemma LabelIsPlain(dir: string, file: string, stamp: string)
    requires PlainDir(dir) && PlainFile(file) && PlainStamp(stamp)
    ensures DiffThenPatch.PlainLabel(Label(dir, file, stamp))
  {
    PathIsBounded(dir, file);
    var text := Label(dir, file, stamp);
    assert text == dir + "/" + file + stamp;
    assert text[|text| - 1] == if stamp == "" then file[|file| - 1] else stamp[|stamp| - 1];
  }

  lemma NowhereLabel()
    ensures PatchParser.ExtractPath(DEV_NULL) == DEV_NULL
    ensures TargetOf("+++ " + DEV_NULL, 1) == []
    ensures DiffThenPatch.PlainLabel(DEV_NULL)
  {
    NotFound(DEV_NULL, '\t', 0);
    var line := "+++ " + DEV_NULL;
    assert line[4..] == DEV_NULL;
  }

  // ----- What the patch changes -----

  // The patch of one file as it is written from what the file was and what it is now.
  ghost predicate Refreshed(n: Names, files: Files, now: Option<string>, context: nat, s: Shown, patch: string) {
    var old', new' := ContentOf(files, n.file), ContentNow(now);
    && PlainNames(n) && (now == None ==> n.file in files)
    && old' != new' && context >= 1 && AllComeBack(LinesOf(new'), EndsLine(new'), Crlf(old'))
    && Shows(FileOfContent(old'), FileOfContent(new'), context, s, OldLabel(n, n.file !in files), NewLabel(n, now == None), patch)
  }

  function ContentNow(now: Option<string>): string {
    if now.Some? then now.value else ""
  }

  // A file that comes out empty is removed.
  function Changed(files: Files, file: string, now: Option<string>): Files {
    if ContentNow(now) == "" then files - {file} else files[file := ContentNow(now)]
  }

  predicate PushesForward(opts: PatchOptions) {
    opts.stripLevel == 1 && !opts.reverse && opts.removeEmpty && !opts.dryRun && opts.fuzz >= 0
  }

  lemma HeaderIsFor(n: Names, files: Files, now: Option<string>, opts: PatchOptions)
    requires PlainNames(n) && opts.stripLevel == 1 && !opts.reverse && (now == None ==> n.file in files)
    ensures var pf := DiffThenPatch.Header(OldLabel(n, n.file !in files), NewLabel(n, now == None), opts);
            pf.targetPath == n.file && (pf.isCreation <==> n.file !in files)
    ensures DiffThenPatch.PlainLabel(OldLabel(n, n.file !in files)) && DiffThenPatch.PlainLabel(NewLabel(n, now == None))
  {
    hide PatchParser.ExtractPath, PatchParser.StripPath, TargetOf, Label, PlainDir, PlainFile, PlainStamp;
    LabelNamesFile(n.oldDir, n.file, n.oldStamp);
    LabelNamesFile(n.newDir, n.file, n.newStamp);
    LabelIsPlain(n.oldDir, n.file, n.oldStamp);
    LabelIsPlain(n.newDir, n.file, n.newStamp);
    NowhereLabel();
    var oldLine, newLine := "--- " + OldLabel(n, n.file !in files), "+++ " + NewLabel(n, now == None);
    assert oldLine[4..] == OldLabel(n, n.file !in files) && newLine[4..] == NewLabel(n, now == None);
  }

  lemma ReverseHeaderIsFor(n: Names, files: Files, now: Option<string>, opts: PatchOptions)
    requires PlainNames(n) && opts.stripLevel == 1 && opts.reverse && (now == None ==> n.file in files)
    ensures DiffThenPatch.Header(OldLabel(n, n.file !in files), NewLabel(n, now == None), opts).targetPath == n.file
  {
    hide PatchParser.ExtractPath, PatchParser.StripPath, TargetOf, Label, PlainDir, PlainFile, PlainStamp;
    LabelNamesFile(n.oldDir, n.file, n.oldStamp);
    LabelNamesFile(n.newDir, n.file, n.newStamp);
    NowhereLabel();
    var oldLine, newLine := "--- " + OldLabel(n, n.file !in files), "+++ " + NewLabel(n, now == None);
    assert oldLine[4..] == OldLabel(n, n.file !in files) && newLine[4..] == NewLabel(n, now == None);
  }

  // Applying the patch makes exactly the change.
  lemma PatchMakesChange(n: Names, files: Files, now: Option<string>, context: nat, s: Shown, patch: string, opts: PatchOptions)
    requires Refreshed(n, files, now, context, s, patch) && PushesForward(opts)
    ensures PatchedBy(patch, opts, files) == (0, Changed(files, n.file, now))
  {
    hide PlainNames, Shows, DiffThenPatch.PlainLabel, DiffThenPatch.Header, PatchParser.Parsed, AllPatched,
      OldLabel, NewLabel, AllComeBack, Recovered, LinesOf, EndsLine, Crlf;
    HeaderIsFor(n, files, now, opts);
    var oldLabel, newLabel := OldLabel(n, n.file !in files), NewLabel(n, now == None);
    var r := PatchedBy(patch, opts, files);
    var o :| PatchesWith(patch, opts, files, r.0, r.1, o);
    NamesAFile(n);
    DiffThenPatch.PatchOfDiffIsNewFile(ContentOf(files, n.file), ContentNow(now), context, s, oldLabel, newLabel, patch, files, r.1, opts, o);
  }

  // How a pop tries whether a patch comes off: in reverse, forced, and without writing anything.
  predicate TriesToPop(opts: PatchOptions) {
    opts.stripLevel == 1 && opts.reverse && opts.dryRun && opts.force && opts.fuzz >= 0
  }

  // Tried in reverse on the changed file, the patch applies.
  lemma PatchComesOff(n: Names, files: Files, now: Option<string>, context: nat, s: Shown, patch: string, forward: PatchOptions,
                      opts: PatchOptions)
    requires Refreshed(n, files, now, context, s, patch) && PushesForward(forward) && TriesToPop(opts)
    ensures PatchedBy(patch, opts, Changed(files, n.file, now)).0 == 0
  {
    hide PlainNames, Shows, DiffThenPatch.PlainLabel, DiffThenPatch.Header, PatchParser.Parsed, AllPatched,
      OldLabel, NewLabel, AllComeBack, Recovered, LinesOf, EndsLine, Crlf;
    HeaderIsFor(n, files, now, forward);
    ReverseHeaderIsFor(n, files, now, opts);
    var oldLabel, newLabel := OldLabel(n, n.file !in files), NewLabel(n, now == None);
    var after := Changed(files, n.file, now);
    var r := PatchedBy(patch, opts, after);
    var o :| PatchesWith(patch, opts, after, r.0, r.1, o);
    NamesAFile(n);
    assert ContentOf(after, n.file) == ContentNow(now);
    DiffThenPatch.PatchOfDiffIsNewFile(ContentOf(files, n.file), ContentNow(now), context, s, oldLabel, newLabel, patch, after, r.1, opts, o);
  }

  lemma NamesAFile(n: Names)
    requires PlainNames(n)
    ensures n.file != ""
  {
  }

  // ----- What is backed up for it -----

  predicate NoneAdded(lines: seq<string>) {
    forall l :: l in lines ==> l != [] && l[0] != '+'
  }

  lemma {:induction false} OpsAddNothing(fa: FileLines, fb: FileLines, ops: seq<EditOp>)
    requires AllInFiles(fa, fb, ops) && fb.lines == []
    ensures NoneAdded(OpsLines(fa, fb, ops))
  {
    if ops != [] {
      assert InFiles(fa, fb, ops[0]);
      OpsAddNothing(fa, fb, ops[1..]);
    }
  }

  lemma {:induction false} HunksAddNothing(fa: FileLines, fb: FileLines, hunks: seq<Hunk>)
    requires HunksInFiles(fa, fb, hunks) && fb.lines == []
    ensures NoneAdded(HunksLines(fa, fb, hunks))
  {
    hide OpsLines, InFiles;
    if hunks != [] {
      OpsAddNothing(fa, fb, hunks[0].ops);
      HunksAddNothing(fa, fb, hunks[1..]);
      assert HunkHeader(hunks[0])[0] == '@';
    }
  }

  lemma {:induction false} NoTargets(lines: seq<string>, strip: int)
    requires forall l :: l in lines ==> TargetOf(l, strip) == []
    ensures Targets(lines, strip) == []
    decreases |lines|
  {
    hide TargetOf;
    if lines != [] {
      assert lines[|lines| - 1] in lines;
      NoTargets(lines[..|lines| - 1], strip);
    }
  }

  lemma {:induction false} TargetIsListed(lines: seq<string>, strip: int, i: nat)
    requires i < |lines| && TargetOf(lines[i], strip) != []
    ensures TargetOf(lines[i], strip) in Targets(lines, strip)
    decreases |lines|
  {
    hide TargetOf;
    if i < |lines| - 1 {
      TargetIsListed(lines[..|lines| - 1], strip, i);
    }
  }

  lemma NoneTargeted(first: string, second: string, lines: seq<string>)
    requires NoneAdded([first]) && TargetOf(second, 1) == [] && NoneAdded(lines)
    ensures Targets([first, second] + lines, 1) == []
  {
    hide TargetOf;
    forall l | l in [first, second] + lines ensures TargetOf(l, 1) == [] {
      NotAdded(l);
    }
    NoTargets([first, second] + lines, 1);
  }

  // What the line of the new label names is a target, and without one and without new lines there is none.
  lemma LabelTargets(a: FileLines, b: FileLines, hunks: seq<Hunk>, oldLabel: string, newLabel: string)
    requires HunksInFiles(a, b, hunks)
    ensures var file, targets := TargetOf("+++ " + newLabel, 1), Targets(UnifiedLines(a, b, hunks, oldLabel, newLabel), 1);
            if file != [] then file in targets else b.lines == [] ==> targets == []
  {
    hide TargetOf, Targets, HunksLines, HunksInFiles;
    var lines := UnifiedLines(a, b, hunks, oldLabel, newLabel);
    assert lines[1] == "+++ " + newLabel;
    if TargetOf(lines[1], 1) != [] {
      TargetIsListed(lines, 1, 1);
    } else if b.lines == [] {
      HunksAddNothing(a, b, hunks);
      NoneTargeted("--- " + oldLabel, "+++ " + newLabel, HunksLines(a, b, hunks));
    }
  }

  // The file is among those backed up, unless the patch deletes it: then none is.
  lemma FilesBackedUp(n: Names, files: Files, now: Option<string>, context: nat, s: Shown, patch: string)
    requires Refreshed(n, files, now, context, s, patch)
    ensures if now == None then TargetsOf(patch, 1) == [] else n.file in TargetsOf(patch, 1)
  {
    hide Comparison, UnifiedLines, HunksInFiles, TargetOf, Targets, Printed, LinesOf, EndsLine, DropCrAll, PlainDir, PlainFile, PlainStamp,
      DiffThenPatch.PlainLabel, Unbroken, Label, AllComeBack, Crlf, Dropped;
    var oldLabel, newLabel := OldLabel(n, n.file !in files), NewLabel(n, now == None);
    HeaderIsFor(n, files, now, PatchOptions(1, 0, false, false, false, true));
    var fa, fb := FileOfContent(ContentOf(files, n.file)), FileOfContent(ContentNow(now));
    LinesHaveNo(ContentOf(files, n.file), '\n');
    LinesHaveNo(ContentNow(now), '\n');
    DiffThenPatch.LabelsAreUnbroken(oldLabel, newLabel);
    LinesComeBack(fa, fb, s.hunks, oldLabel, newLabel);
    LabelTargets(Dropped(fa), Dropped(fb), s.hunks, oldLabel, newLabel);
    if now == None {
      NowhereLabel();
      EmptyHasNoLines();
    } else {
      LabelNamesFile(n.newDir, n.file, n.newStamp);
      NamesAFile(n);
    }
  }

  lemma EmptyHasNoLines()
    ensures LinesOf("") == []
  {
  }

  lemma NotAdded(line: string)
    ensures line != [] && line[0] != '+' ==> TargetOf(line, 1) == []
  {
    if StartsWith(line, "+++ ") {
      StartsWithFirst(line, "+++ ");
    }
  }

  /** Pushing a patch that was written from a change makes exactly this change again; and popping it then
      brings all files back as they were if and only if the change was not to delete the file, its name is
      not hidden, and no file that is backed up for the patch was empty. */
  lemma PushedAndPopped(st: Stack, name: string, n: Names, now: Option<string>, context: nat, s: Shown, patch: string,
                        opts: PatchOptions, leaveRejects: bool)
    requires Refreshed(n, st.files, now, context, s, patch) && PushesForward(opts)
    ensures var (code, st') := PushResult(st, name, patch, opts, leaveRejects);
            && code == 0 && st'.applied == st.applied + [name] && st'.files == Changed(st.files, n.file, now)
            && (PopResult(st').files == st.files <==>
                now.Some? && !Hidden(n.file) && forall f :: f in TargetsOf(patch, 1) && !Hidden(f) ==> !EmptyAt(st.files, f))
  {
    hide Refreshed, PatchedBy, Restored, Visible, BackedUp, TargetsOf, Hidden;
    PatchMakesChange(n, st.files, now, context, s, patch, opts);
    FilesBackedUp(n, st.files, now, context, s, patch);
    var affected := TargetsOf(patch, 1);
    var after := Changed(st.files, n.file, now);
    PopUndoesPush(st.files, after, affected);
    IsAChange(n, st.files, now, context, s, patch);
    forall f | f != n.file ensures SameAt(st.files, after, f) {
    }
    assert !SameAt(st.files, after, n.file);
  }

  /** A pop that is not forced takes the pushed patch off: tried in reverse, it applies. */
  lemma PopIsAccepted(q: QuiltState, st: Stack, name: string, n: Names, now: Option<string>, context: nat, s: Shown, patch: string,
                      opts: PatchOptions, leaveRejects: bool)
    requires Refreshed(n, st.files, now, context, s, patch) && PushesForward(opts) && name !in st.needsRefresh
    requires name in q.patches && q.patches[name] == patch && q.StripLevel(name) == 1
    ensures q.Removable(PushResult(st, name, patch, opts, leaveRejects).1, name)
  {
    hide Refreshed, PatchedBy, TargetsOf, BackedUp;
    PatchMakesChange(n, st.files, now, context, s, patch, opts);
    PatchComesOff(n, st.files, now, context, s, patch, opts, q.VerifyOptions(name));
  }

  lemma IsAChange(n: Names, files: Files, now: Option<string>, context: nat, s: Shown, patch: string)
    requires Refreshed(n, files, now, context, s, patch)
    ensures ContentOf(files, n.file) != ContentNow(now) && (now == None ==> n.file in files)
  {
  }
}
