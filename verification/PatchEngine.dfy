/** Applying a patch to a set of files: every file it names, its rejects, and the exit code. */
module PatchEngine {
  import opened Text
  import opened PatchParser
  import opened PatchOutput

  datatype PatchOptions = PatchOptions(stripLevel: int, fuzz: int, reverse: bool, dryRun: bool, force: bool, removeEmpty: bool)

  // The files a patch reads and writes.
  class FileStore {
    var files: map<string, string>

    constructor (files: map<string, string>)
      ensures this.files == files
    {
      this.files := files;
    }
  }

  // ----- Rejected hunks -----

  function RejectHunk(h: PatchHunk): string {
    "@@ -" + SignedDecimal(h.oldStart) + "," + SignedDecimal(h.oldCount)
    + " +" + SignedDecimal(h.newStart) + "," + SignedDecimal(h.newCount) + " @@\n"
    + TextOf(h.lines, true) + if h.oldNoNewline then "\\ No newline at end of file\n" else ""
  }

  function RejectHunks(hunks: seq<PatchHunk>, ps: seq<Placement>): string
    requires |hunks| == |ps|
  {
    if hunks == [] then ""
    else
      RejectHunks(hunks[..|hunks| - 1], ps[..|ps| - 1])
      + if ps[|ps| - 1].Rejected? then RejectHunk(hunks[|hunks| - 1]) else ""
  }

  predicate AnyRejected(ps: seq<Placement>) {
    exists k :: 0 <= k < |ps| && ps[k].Rejected?
  }

  predicate AnyPlaced(ps: seq<Placement>) {
    exists k :: 0 <= k < |ps| && ps[k].Placed?
  }

  // The text of the reject file; empty if no hunk was rejected.
  function RejectText(pf: PatchFile, ps: seq<Placement>): string
    requires |ps| == |pf.hunks|
  {
    if AnyRejected(ps) then RejectHeader(pf) + RejectHunks(pf.hunks, ps) else ""
  }

  function RejectHeader(pf: PatchFile): string {
    "--- " + pf.oldPath + "\n+++ " + pf.newPath + "\n"
  }

  method FormatRejects(pf: PatchFile, ps: seq<Placement>) returns (result: string)
    requires |ps| == |pf.hunks|
    ensures result == RejectText(pf, ps)
  {
    hide *;
    result := "";
    var hasAny := false;
    NoHunkRejected();
    assert ps[..0] == [];
    for h := 0 to |pf.hunks|
      invariant hasAny <==> AnyRejected(ps[..h])
      invariant result == if hasAny then RejectHeader(pf) + RejectHunks(pf.hunks[..h], ps[..h]) else ""
    {
      NextReject(pf.hunks, ps, h);
      if ps[h].Rejected? {
        if !hasAny {
          result := "--- " + pf.oldPath + "\n+++ " + pf.newPath + "\n";
          IsRejectHeader(pf, result);
          NoneRejected(pf.hunks[..h], ps[..h]);
          hasAny := true;
        }
        result := result + RejectHunk(pf.hunks[h]);
      }
    }
    assert pf.hunks[..|pf.hunks|] == pf.hunks && ps[..|ps|] == ps;
    IsRejectText(pf, ps);
  }

  lemma NoHunkRejected()
    ensures !AnyRejected([])
  {
  }

  lemma IsRejectHeader(pf: PatchFile, text: string)
    requires text == "--- " + pf.oldPath + "\n+++ " + pf.newPath + "\n"
    ensures text == RejectHeader(pf)
  {
  }

  lemma IsRejectText(pf: PatchFile, ps: seq<Placement>)
    requires |ps| == |pf.hunks|
    ensures RejectText(pf, ps) == if AnyRejected(ps) then RejectHeader(pf) + RejectHunks(pf.hunks, ps) else ""
  {
  }

  lemma NextReject(hunks: seq<PatchHunk>, ps: seq<Placement>, h: nat)
    requires |hunks| == |ps| && h < |ps|
    ensures AnyRejected(ps[..h + 1]) <==> AnyRejected(ps[..h]) || ps[h].Rejected?
    ensures RejectHunks(hunks[..h + 1], ps[..h + 1]) ==
            RejectHunks(hunks[..h], ps[..h]) + if ps[h].Rejected? then RejectHunk(hunks[h]) else ""
  {
    hide RejectHunk;
    assert hunks[..h + 1][..h] == hunks[..h] && ps[..h + 1][..h] == ps[..h];
    assert ps[..h + 1][h] == ps[h];
    assert forall k :: 0 <= k < h ==> ps[..h + 1][k] == ps[..h][k];
  }

  lemma {:induction false} NoneRejected(hunks: seq<PatchHunk>, ps: seq<Placement>)
    requires |hunks| == |ps| && !AnyRejected(ps)
    ensures RejectHunks(hunks, ps) == ""
    decreases |hunks|
  {
    hide RejectHunk;
    if hunks != [] {
      NoneRejected(hunks[..|hunks| - 1], ps[..|ps| - 1]);
    }
  }

  // ----- Carriage returns -----

  // Puts a carriage return before each newline that has none.
  function RestoreCr(s: string): string {
    if s == [] then ""
    else
      var n := |s|;
      RestoreCr(s[..n - 1])
      + (if s[n - 1] == '\n' && (n == 1 || s[n - 2] != '\r') then "\r" else "") + [s[n - 1]]
  }

  method RestoreLineEndings(s: string) returns (crlfContent: string)
    ensures crlfContent == RestoreCr(s)
  {
    crlfContent := "";
    for k := 0 to |s|
      invariant crlfContent == RestoreCr(s[..k])
    {
      assert s[..k + 1][..k] == s[..k];
      if s[k] == '\n' && (k == 0 || s[k - 1] != '\r') {
        crlfContent := crlfContent + "\r";
      }
      crlfContent := crlfContent + [s[k]];
    }
    assert s[..|s|] == s;
  }

  // ----- One file -----

  function FileLinesOf(content: string): seq<string> {
    DropCrAll(LinesOf(content))
  }

  // The new content of a file whose hunks were placed.
  function NewContent(content: string, hunks: seq<PatchHunk>, ps: seq<Placement>): string
    requires |hunks| == |ps|
  {
    var text := RenderFrom(FileLinesOf(content), EndsLine(content), hunks, ps, 0);
    if Crlf(content) then RestoreCr(text) else text
  }

  // The target is written, or removed if it came out empty and that was asked for.
  function Written(files: map<string, string>, pf: PatchFile, content: string, opts: PatchOptions): map<string, string> {
    if opts.removeEmpty && content == "" && !pf.isCreation then files - {pf.targetPath}
    else files[pf.targetPath := content]
  }

  function WithRejects(files: map<string, string>, pf: PatchFile, ps: seq<Placement>): map<string, string>
    requires |ps| == |pf.hunks|
  {
    var text := RejectText(pf, ps);
    if text == "" then files else files[pf.targetPath + ".rej" := text]
  }

  function AllRejected(n: nat): (ps: seq<Placement>)
    ensures |ps| == n
  {
    seq(n, _ => Rejected)
  }

  predicate CannotFind(files: map<string, string>, pf: PatchFile, opts: PatchOptions) {
    pf.targetPath !in files && !pf.isCreation && !opts.force
  }

  function ContentOf(files: map<string, string>, path: string): string {
    if path in files then files[path] else ""
  }

  // The files with what the hunks placed make of one of them, before any rejects are written.
  function WithOutput(files: map<string, string>, pf: PatchFile, ps: seq<Placement>, opts: PatchOptions): map<string, string>
    requires |ps| == |pf.hunks|
  {
    if AnyPlaced(ps) || pf.isCreation then
      Written(files, pf, NewContent(ContentOf(files, pf.targetPath), pf.hunks, ps), opts)
    else files
  }

  // What one file of a patch does to the files, with its hunks placed as the search finds them.
  ghost predicate FilePatched(files: map<string, string>, files': map<string, string>, pf: PatchFile, opts: PatchOptions,
                              ps: seq<Placement>, states: seq<PlaceState>, failed: bool) {
    |ps| == |pf.hunks| &&
    if pf.targetPath == "" then files' == files && !failed
    else if CannotFind(files, pf, opts) then
      failed && files' == if opts.dryRun then files else WithRejects(files, pf, AllRejected(|pf.hunks|))
    else
      && AllPlaced(FileLinesOf(ContentOf(files, pf.targetPath)), pf.hunks, opts.fuzz, ps, states)
      && (failed <==> AnyRejected(ps))
      && files' == if opts.dryRun then files
                   else if failed then WithRejects(WithOutput(files, pf, ps, opts), pf, ps)
                   else WithOutput(files, pf, ps, opts)
  }

  lemma OutputAndRejects(files: map<string, string>, files': map<string, string>, pf: PatchFile, opts: PatchOptions,
                         ps: seq<Placement>, states: seq<PlaceState>)
    requires |ps| == |pf.hunks| && pf.targetPath != "" && !CannotFind(files, pf, opts)
    requires AllPlaced(FileLinesOf(ContentOf(files, pf.targetPath)), pf.hunks, opts.fuzz, ps, states)
    requires files' == if opts.dryRun then files
                       else if AnyRejected(ps) then WithRejects(WithOutput(files, pf, ps, opts), pf, ps)
                       else WithOutput(files, pf, ps, opts)
    ensures FilePatched(files, files', pf, opts, ps, states, AnyRejected(ps))
  {
  }

  method PatchOneFile(fs: FileStore, pf: PatchFile, opts: PatchOptions)
    returns (failed: bool, ghost placements: seq<Placement>, ghost states: seq<PlaceState>)
    modifies fs
    ensures FilePatched(old(fs.files), fs.files, pf, opts, placements, states, failed)
  {
    hide AllPlaced, RenderFrom, RejectText, RestoreCr, LinesOf, EndsLine, Crlf;
    failed, placements, states := false, AllRejected(|pf.hunks|), [];
    if pf.targetPath == "" {
      return;
    }
    if pf.targetPath !in fs.files && !pf.isCreation && !opts.force {
      failed := true;
      if !opts.dryRun {
        var rejected := AllRejected(|pf.hunks|);
        var text := FormatRejects(pf, rejected);
        if text != "" {
          fs.files := fs.files[pf.targetPath + ".rej" := text];
        }
      }
      return;
    }
    hide FilePatched;
    var content := if pf.targetPath in fs.files then fs.files[pf.targetPath] else "";
    var fc := LoadFileLines(content);
    var ps;
    ps, states := PlaceHunks(fc.lines, pf.hunks, opts.fuzz);
    placements := ps;
    SamePlaces(fc.lines, pf.hunks, opts.fuzz, ps, states);
    failed := AnyRejected(ps);
    if !opts.dryRun {
      if AnyPlaced(ps) || pf.isCreation {
        var newContent := BuildOutput(fc.lines, fc.hasTrailingNewline, pf.hunks, ps);
        if fc.crlf {
          newContent := RestoreLineEndings(newContent);
        }
        if opts.removeEmpty && newContent == "" && !pf.isCreation {
          fs.files := fs.files - {pf.targetPath};
        } else {
          fs.files := fs.files[pf.targetPath := newContent];
        }
      }
      assert fs.files == WithOutput(old(fs.files), pf, ps, opts);
      if failed {
        var text := FormatRejects(pf, ps);
        if text != "" {
          fs.files := fs.files[pf.targetPath + ".rej" := text];
        }
      }
    }
    OutputAndRejects(old(fs.files), fs.files, pf, opts, ps, states);
  }

  lemma SamePlaces(file: seq<string>, hunks: seq<PatchHunk>, maxFuzz: int, ps: seq<Placement>, states: seq<PlaceState>)
    requires AllPlaced(file, hunks, maxFuzz, ps, states)
    ensures |ps| == |hunks|
  {
  }

  // ----- All files -----

  // What applying the files of a patch one after the other leaves behind.
  datatype Outcome = Outcome(files: seq<map<string, string>>, placements: seq<seq<Placement>>,
                             states: seq<seq<PlaceState>>, failed: seq<bool>)

  ghost predicate AllPatched(files: map<string, string>, files': map<string, string>, pfs: seq<PatchFile>,
                             opts: PatchOptions, o: Outcome) {
    && |o.files| == |pfs| + 1 && |o.placements| == |o.states| == |o.failed| == |pfs|
    && o.files[0] == files && o.files[|pfs|] == files'
    && forall k :: 0 <= k < |pfs| ==> OnePatched(pfs[k], opts, o, k)
  }

  ghost predicate OnePatched(pf: PatchFile, opts: PatchOptions, o: Outcome, k: nat)
    requires k + 1 < |o.files| && k < |o.placements| && k < |o.states| && k < |o.failed|
  {
    FilePatched(o.files[k], o.files[k + 1], pf, opts, o.placements[k], o.states[k], o.failed[k])
  }

  /** Applies a patch. The exit code is 1 exactly when some file could not be found or some hunk was
      rejected. */
  method BuiltinPatch(fs: FileStore, patchText: string, opts: PatchOptions)
    returns (exitCode: int, ghost o: Outcome)
    modifies fs
    ensures AllPatched(old(fs.files), fs.files, Parsed(patchText, opts.stripLevel, opts.reverse), opts, o)
    ensures exitCode == if true in o.failed then 1 else 0
  {
    hide FilePatched, Parsed;
    exitCode := 0;
    o := Outcome([fs.files], [], [], []);
    var pfs := ParsePatch(patchText, opts.stripLevel, opts.reverse);
    for k := 0 to |pfs|
      invariant |o.files| == k + 1 && |o.placements| == |o.states| == |o.failed| == k
      invariant o.files[0] == old(fs.files) && o.files[k] == fs.files
      invariant forall j :: 0 <= j < k ==> OnePatched(pfs[j], opts, o, j)
      invariant exitCode == if true in o.failed then 1 else 0
    {
      ghost var before := o;
      var failed, ps, states := PatchOneFile(fs, pfs[k], opts);
      if failed {
        exitCode := 1;
      }
      o := Outcome(o.files + [fs.files], o.placements + [ps], o.states + [states], o.failed + [failed]);
      forall j | 0 <= j < k + 1 ensures OnePatched(pfs[j], opts, o, j) {
        assert j < k ==> OnePatched(pfs[j], opts, before, j);
      }
    }
  }
}
