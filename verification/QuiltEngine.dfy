/** What a patch leaves alone, so that the files backed up for it are enough to take it off again. */
module QuiltEngine {
  import opened Text
  import opened PatchParser
  import opened PatchApply
  import opened PatchOutput
  import opened PatchEngine
  import opened PatchOutcome
  import opened QuiltFiles

  // ----- What a patch leaves alone -----

  // No file is empty that was not empty before, rejects aside.
  ghost predicate NoneEmptied(files: Files, after: Files) {
    forall f :: !IsReject(f) && EmptyAt(after, f) ==> EmptyAt(files, f)
  }

  // A call that touches no other files than these, rejects aside, and leaves no file empty behind.
  ghost predicate TameCall(files: Files, after: Files, affected: seq<string>) {
    (forall f :: f !in affected && !IsReject(f) ==> SameAt(files, after, f)) && NoneEmptied(files, after)
  }

  // A hunk that only adds lines.
  predicate OnlyAdds(h: PatchHunk) {
    forall l :: l in h.lines ==> l != [] && l[0] == '+'
  }

  // A new file has some text.
  predicate MakesText(pf: PatchFile) {
    && (forall h :: h in pf.hunks ==> OnlyAdds(h))
    && (exists h :: h in pf.hunks && AddsText(h))
  }

  predicate AddsText(h: PatchHunk) {
    TextOf(NewLines(h), !h.newNoNewline) != ""
  }

  /** A patch that can be taken off again: every target is among the files its "+++" lines name, which
      are those backed up, and the files it creates are not empty. */
  predicate Reversible(content: string, strip: int, reverse: bool) {
    forall pf :: pf in Parsed(content, strip, reverse) ==>
      && (pf.targetPath == "" || pf.targetPath in TargetsOf(content, strip))
      && (pf.isCreation ==> MakesText(pf))
  }

  lemma {:induction false} AddingSides(lines: seq<string>)
    requires forall l :: l in lines ==> l != [] && l[0] == '+'
    ensures Side(lines, '-') == [] && ContextOf(lines) == HunkContext(0, 0)
    decreases |lines|
  {
    if lines != [] {
      var init := lines[..|lines| - 1];
      assert forall l :: l in init ==> l in lines;
      AddingSides(init);
      assert lines[|lines| - 1] in lines && lines[0] in lines;
    }
  }

  // Hunks that only add lines always find a place.
  lemma {:induction false} AddingPlaced(file: seq<string>, hunks: seq<PatchHunk>, maxFuzz: int, ps: seq<Placement>,
                                        states: seq<PlaceState>, k: nat)
    requires AllPlaced(file, hunks, maxFuzz, ps, states) && maxFuzz >= 0 && k <= |hunks|
    requires forall h :: h in hunks ==> OnlyAdds(h)
    ensures states[k].frozen <= |file|
    ensures forall j :: 0 <= j < k ==> ps[j].Placed? && ps[j].prefix == ps[j].suffix == 0
  {
    if k > 0 {
      var j := k - 1;
      AddingPlaced(file, hunks, maxFuzz, ps, states, j);
      assert Follows(file, hunks[j], maxFuzz, ps[j], states, j);
      assert hunks[j] in hunks;
      AddingSides(hunks[j].lines);
      AddingFound(file, hunks[j], maxFuzz, ps[j], states[j]);
    }
  }

  lemma AddingFound(file: seq<string>, h: PatchHunk, maxFuzz: int, p: Placement, st: PlaceState)
    requires PlacedRight(file, h, maxFuzz, p, st) && maxFuzz >= 0 && st.frozen <= |file|
    requires Pattern(h) == [] && ContextOf(h.lines) == HunkContext(0, 0)
    ensures p.Placed? && p.prefix == p.suffix == 0 && p.pos <= |file|
  {
    var s := SearchFor(file, h, st);
    if p.Rejected? {
      assert NoCandidate(s, 0);
      assert Candidate(s, 0, |file|);
      assert false;
    } else {
      var found, used :| PlacedWith(s, maxFuzz, p, found, used);
    }
  }

  lemma {:induction false} AddedTextShows(file: seq<string>, newline: bool, hunks: seq<PatchHunk>, ps: seq<Placement>, last: nat)
    requires |hunks| == |ps| && last <= |file|
    requires forall j :: 0 <= j < |ps| ==> ps[j].Placed? && ps[j].prefix == ps[j].suffix == 0
    requires exists h :: h in hunks && AddsText(h)
    ensures RenderFrom(file, newline, hunks, ps, last) != ""
    decreases |hunks|
  {
    hide TextOf, Copied, Side;
    if AddsText(hunks[0]) {
      var new' := NewLines(hunks[0]);
      assert new'[0..|new'|] == new';
      assert Replacement(hunks[0], ps[0]) == new';
    } else {
      var h :| h in hunks && AddsText(h);
      assert h in hunks[1..];
      AddedTextShows(file, newline, hunks[1..], ps[1..], WindowEnd(file, hunks[0], ps[0]));
    }
  }

  // What a patch that creates a file puts there is not empty.
  lemma CreatedHasText(content: string, pf: PatchFile, maxFuzz: int, ps: seq<Placement>, states: seq<PlaceState>)
    requires MakesText(pf) && maxFuzz >= 0 && AllPlaced(FileLinesOf(content), pf.hunks, maxFuzz, ps, states)
    ensures NewContent(content, pf.hunks, ps) != ""
  {
    hide LinesOf, DropCrAll, RenderFrom, AddsText, OnlyAdds, AllPlaced, TextOf;
    AddingPlaced(FileLinesOf(content), pf.hunks, maxFuzz, ps, states, |pf.hunks|);
    SamePlaces(FileLinesOf(content), pf.hunks, maxFuzz, ps, states);
    AddedTextShows(FileLinesOf(content), EndsLine(content), pf.hunks, ps, 0);
  }

  lemma OneFileTame(files: Files, files': Files, pf: PatchFile, opts: PatchOptions, ps: seq<Placement>,
                    states: seq<PlaceState>, failed: bool)
    requires FilePatched(files, files', pf, opts, ps, states, failed)
    requires opts.removeEmpty && !opts.dryRun && opts.fuzz >= 0 && (pf.isCreation ==> MakesText(pf))
    ensures TameCall(files, files', [pf.targetPath]) && (pf.targetPath == "" ==> files' == files)
  {
    hide AllPlaced, MakesText, NewContent, RejectText, AnyRejected, AnyPlaced, LinesOf, DropCrAll, EndsWith;
    RejectNames(pf.targetPath);
    if pf.targetPath != "" && !CannotFind(files, pf, opts) && pf.isCreation {
      CreatedHasText(ContentOf(files, pf.targetPath), pf, opts.fuzz, ps, states);
    }
    forall f | f != pf.targetPath && !IsReject(f) ensures SameAt(files, files', f) {
    }
    assert !IsReject(pf.targetPath) && pf.targetPath in files' ==>
        SameAt(files, files', pf.targetPath) || files'[pf.targetPath] != [];
  }

  lemma RejectNames(path: string)
    ensures IsReject(path + ".rej")
  {
  }

  lemma {:induction false} FilesTame(files: Files, files': Files, pfs: seq<PatchFile>, opts: PatchOptions, o: Outcome,
                                     affected: seq<string>, k: nat)
    requires AllPatched(files, files', pfs, opts, o) && k <= |pfs|
    requires opts.removeEmpty && !opts.dryRun && opts.fuzz >= 0
    requires forall pf :: pf in pfs ==> (pf.targetPath == "" || pf.targetPath in affected) && (pf.isCreation ==> MakesText(pf))
    ensures TameCall(files, o.files[k], affected)
  {
    hide FilePatched, MakesText, IsReject;
    if k > 0 {
      var j := k - 1;
      FilesTame(files, files', pfs, opts, o, affected, j);
      assert pfs[j] in pfs && OnePatched(pfs[j], opts, o, j);
      OneFileTame(o.files[j], o.files[k], pfs[j], opts, o.placements[j], o.states[j], o.failed[j]);
      forall f | f !in affected && !IsReject(f) ensures SameAt(files, o.files[k], f) {
        assert SameAt(files, o.files[j], f) && (f !in [pfs[j].targetPath] ==> SameAt(o.files[j], o.files[k], f));
      }
    }
  }

  /** A reversible patch changes no file but those backed up for it, rejects aside, and leaves no file
      empty that was not, whether it applies or not. */
  lemma ReversibleIsTame(content: string, opts: PatchOptions, files: Files)
    requires Reversible(content, opts.stripLevel, opts.reverse)
    requires opts.removeEmpty && !opts.dryRun && opts.fuzz >= 0
    ensures TameCall(files, PatchedBy(content, opts, files).1, TargetsOf(content, opts.stripLevel))
  {
    hide AllPatched, MakesText, Parsed, TargetsOf, NoneEmptied, IsReject;
    var r := PatchedBy(content, opts, files);
    var o :| PatchesWith(content, opts, files, r.0, r.1, o);
    var pfs := Parsed(content, opts.stripLevel, opts.reverse);
    FilesTame(files, r.1, pfs, opts, o, TargetsOf(content, opts.stripLevel), |pfs|);
    LastFiles(files, r.1, pfs, opts, o);
  }

  lemma LastFiles(files: Files, files': Files, pfs: seq<PatchFile>, opts: PatchOptions, o: Outcome)
    requires AllPatched(files, files', pfs, opts, o)
    ensures o.files[|pfs|] == files'
  {
  }
}
