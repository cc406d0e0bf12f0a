/** What a patch split off from the top one has for backups: the files as the top patch made them, so that
    popping it takes off just what was changed since. */
module SplitOff {
  import opened Text
  import opened PatchParser
  import opened PatchOutput
  import opened PatchEngine
  import opened PatchOutcome
  import opened QuiltFiles
  import opened QuiltEngine
  import opened QuiltStack

  // Of these files the part has all that the whole has; one that the whole lacks may be there, empty.
  ghost predicate Carries(files: Files, part: Files, affected: seq<string>) {
    forall f :: f in affected ==> ContentOf(part, f) == ContentOf(files, f) && (f in files ==> f in part)
  }

  // Options that differ only in what becomes of missing and empty files.
  predicate Alike(opts: PatchOptions, opts': PatchOptions) {
    && opts'.stripLevel == opts.stripLevel && opts'.fuzz == opts.fuzz && opts'.reverse == opts.reverse
    && !opts.dryRun && !opts'.dryRun && !opts.force && (opts'.removeEmpty ==> opts.removeEmpty)
  }

  // A file of a patch that applies does the same to the part.
  lemma OnePartPatched(files: Files, files': Files, part: Files, part': Files, pf: PatchFile, opts: PatchOptions, opts': PatchOptions,
                       affected: seq<string>, ps: seq<Placement>, states: seq<PlaceState>, ps': seq<Placement>,
                       states': seq<PlaceState>, failed': bool)
    requires FilePatched(files, files', pf, opts, ps, states, false) && FilePatched(part, part', pf, opts', ps', states', failed')
    requires Alike(opts, opts') && Carries(files, part, affected) && (pf.targetPath == "" || pf.targetPath in affected)
    ensures !failed' && Carries(files', part', affected)
  {
    hide AllPlaced, NewContent, LinesOf, DropCrAll, AnyRejected, AnyPlaced, WithRejects;
    if pf.targetPath != "" {
      SamePlaced(files, part, pf, opts, opts', ps, states, ps', states');
    }
  }

  lemma SamePlaced(files: Files, part: Files, pf: PatchFile, opts: PatchOptions, opts': PatchOptions, ps: seq<Placement>,
                   states: seq<PlaceState>, ps': seq<Placement>, states': seq<PlaceState>)
    requires ContentOf(part, pf.targetPath) == ContentOf(files, pf.targetPath) && opts'.fuzz == opts.fuzz
    requires AllPlaced(FileLinesOf(ContentOf(files, pf.targetPath)), pf.hunks, opts.fuzz, ps, states)
    requires AllPlaced(FileLinesOf(ContentOf(part, pf.targetPath)), pf.hunks, opts'.fuzz, ps', states')
    ensures ps == ps'
  {
    hide Follows, LinesOf, DropCrAll;
    AllPlacedOnce(FileLinesOf(ContentOf(files, pf.targetPath)), pf.hunks, opts.fuzz, ps, states, ps', states', |pf.hunks|);
    assert ps[..|ps|] == ps && ps'[..|ps'|] == ps';
  }

  lemma {:induction false} AllPartPatched(files: Files, files': Files, part: Files, part': Files, pfs: seq<PatchFile>,
                                          opts: PatchOptions, opts': PatchOptions, affected: seq<string>, o: Outcome, o': Outcome, k: nat)
    requires AllPatched(files, files', pfs, opts, o) && AllPatched(part, part', pfs, opts', o') && k <= |pfs|
    requires Alike(opts, opts') && Carries(files, part, affected) && true !in o.failed
    requires forall pf :: pf in pfs ==> pf.targetPath == "" || pf.targetPath in affected
    ensures Carries(o.files[k], o'.files[k], affected) && forall j :: 0 <= j < k ==> !o'.failed[j]
  {
    hide FilePatched, Carries;
    if k > 0 {
      var j := k - 1;
      AllPartPatched(files, files', part, part', pfs, opts, opts', affected, o, o', j);
      assert OnePatched(pfs[j], opts, o, j) && OnePatched(pfs[j], opts', o', j) && pfs[j] in pfs;
      assert o.failed[j] in o.failed;
      OnePartPatched(o.files[j], o.files[k], o'.files[j], o'.files[k], pfs[j], opts, opts', affected, o.placements[j], o.states[j],
                     o'.placements[j], o'.states[j], o'.failed[j]);
    }
  }

  // A patch that applies to files applies to the part of them it is about, with the same outcome there.
  lemma PatchCarried(content: string, opts: PatchOptions, opts': PatchOptions, files: Files, part: Files)
    requires Reversible(content, opts.stripLevel, opts.reverse) && Alike(opts, opts')
    requires Carries(files, part, TargetsOf(content, opts.stripLevel)) && PatchedBy(content, opts, files).0 == 0
    ensures PatchedBy(content, opts', part).0 == 0
    ensures Carries(PatchedBy(content, opts, files).1, PatchedBy(content, opts', part).1, TargetsOf(content, opts.stripLevel))
  {
    hide AllPatched, Parsed, TargetsOf, Carries, MakesText;
    var affected := TargetsOf(content, opts.stripLevel);
    var r, r' := PatchedBy(content, opts, files), PatchedBy(content, opts', part);
    var o :| PatchesWith(content, opts, files, r.0, r.1, o);
    var o' :| PatchesWith(content, opts', part, r'.0, r'.1, o');
    var pfs := Parsed(content, opts.stripLevel, opts.reverse);
    AllPartPatched(files, r.1, part, r'.1, pfs, opts, opts', affected, o, o', |pfs|);
    LastFiles(files, r.1, pfs, opts, o);
    LastFiles(part, r'.1, pfs, opts', o');
    NoFailure(part, r'.1, pfs, opts', o');
  }

  lemma NoFailure(part: Files, part': Files, pfs: seq<PatchFile>, opts: PatchOptions, o: Outcome)
    requires AllPatched(part, part', pfs, opts, o) && forall j :: 0 <= j < |pfs| && j < |o.failed| ==> !o.failed[j]
    ensures true !in o.failed
  {
  }

  // The backups of the files, without those that stand for missing ones.
  lemma PartOfBackup(files: Files, affected: seq<string>)
    requires NoEmptyTarget(files, affected)
    ensures var backup := BackedUp(files, affected);
            Carries(files, map f | f in backup && backup[f] != [] :: backup[f], affected)
  {
  }

  // What the backups bring back: the files after the patch.
  lemma BackupBringsBack(after: Files, now: Files, backup: Files, affected: seq<string>)
    requires backup == map f | f in affected :: BackupOf(after, f)
    requires forall f :: f in affected ==> !Hidden(f) && !EmptyAt(after, f)
    requires forall f :: f !in affected ==> SameAt(after, now, f)
    ensures Restored(now, Visible(backup)) == after
  {
    hide Hidden;
    var restored := Restored(now, Visible(backup));
    forall f ensures SameAt(after, restored, f) {
      if f !in affected {
        assert SameAt(after, now, f);
      }
    }
    SameFiles(after, restored);
  }

  /** The patch split off from one that applied without force is backed up with the files as that patch made
      them. So whatever is changed in its files afterwards, popping the new patch brings these back. */
  lemma SplitOffIsPushed(q: QuiltState, name: string, files: Files)
    requires name in q.patches && ProperPatch(q.patches[name], q.StripLevel(name), name in q.reversed)
    requires name in q.backups && q.backups[name] == BackedUp(files, TargetsOf(q.patches[name], q.StripLevel(name)))
    requires NoEmptyTarget(files, TargetsOf(q.patches[name], q.StripLevel(name)))
    requires PatchedBy(q.patches[name], q.PushOptions(name, false, 2), files).0 == 0
    ensures var after := PatchedBy(q.patches[name], q.PushOptions(name, false, 2), files).1;
            && q.Between(name) == (map f | f in TargetsOf(q.patches[name], q.StripLevel(name)) :: BackupOf(after, f))
            && forall now: Files ::
                 (forall f :: f !in TargetsOf(q.patches[name], q.StripLevel(name)) ==> SameAt(after, now, f)) ==>
                   Restored(now, Visible(q.Between(name))) == after
  {
    hide PatchedBy, TargetsOf, Restored, Visible, Reversible, IsReject, Hidden, TameCall;
    var content, opts := q.patches[name], q.PushOptions(name, false, 2);
    var opts' := PatchOptions(q.StripLevel(name), 2, name in q.reversed, false, false, false);
    var affected := TargetsOf(content, q.StripLevel(name));
    var after := PatchedBy(content, opts, files).1;
    AllVisible(files, affected);
    PartOfBackup(files, affected);
    NoTargetsOfNothing(q.StripLevel(name));
    var backup := BackedUp(files, affected);
    var start := map f | f in backup && backup[f] != [] :: backup[f];
    if content != [] {
      PatchCarried(content, opts, opts', files, start);
    }
    SameBackup(q, name, files, start);
    ReversibleIsTame(content, opts, files);
    StillNotEmpty(files, after, affected);
    forall now: Files | forall f :: f !in affected ==> SameAt(after, now, f)
      ensures Restored(now, Visible(q.Between(name))) == after
    {
      BackupBringsBack(after, now, q.Between(name), affected);
    }
  }

  lemma AllVisible(files: Files, affected: seq<string>)
    requires Proper(affected)
    ensures Visible(BackedUp(files, affected)) == BackedUp(files, affected)
  {
    hide Hidden;
  }

  lemma NoTargetsOfNothing(strip: int)
    ensures TargetsOf("", strip) == []
  {
  }

  lemma StillNotEmpty(files: Files, after: Files, affected: seq<string>)
    requires TameCall(files, after, affected) && NoEmptyTarget(files, affected) && Proper(affected)
    ensures forall f :: f in affected ==> !Hidden(f) && !EmptyAt(after, f)
  {
    hide IsReject, Hidden;
  }

  lemma SameBackup(q: QuiltState, name: string, files: Files, start: Files)
    requires name in q.patches && name in q.backups
    requires var affected := TargetsOf(q.patches[name], q.StripLevel(name));
             && Visible(q.backups[name]) == BackedUp(files, affected) && Carries(files, start, affected)
             && start == (map f | f in BackedUp(files, affected) && BackedUp(files, affected)[f] != [] :: BackedUp(files, affected)[f])
             && (q.patches[name] == [] ==> affected == [])
             && (q.patches[name] != [] ==>
                   Carries(PatchedBy(q.patches[name], q.PushOptions(name, false, 2), files).1,
                           PatchedBy(q.patches[name], PatchOptions(q.StripLevel(name), 2, name in q.reversed, false, false, false), start).1,
                           affected))
    ensures var after := PatchedBy(q.patches[name], q.PushOptions(name, false, 2), files).1;
            q.Between(name) == map f | f in TargetsOf(q.patches[name], q.StripLevel(name)) :: BackupOf(after, f)
  {
    hide PatchedBy, TargetsOf, Visible;
  }
}
