/** What applying a patch to a set of files comes to: there is always an outcome, and only one. */
module PatchOutcome {
  import opened Common
  import opened Text
  import opened PatchParser
  import opened PatchApply
  import opened PatchOutput
  import opened PatchEngine

  // The files that exist, with their contents.
  type Files = map<string, string>

  // ----- The outcome is determined -----

  lemma PlacedIfSomewhere(file: seq<string>, h: PatchHunk, maxFuzz: int, p: Placement, st: PlaceState)
    requires PlacedRight(file, h, maxFuzz, p, st)
    ensures p.Placed? <==> !Nowhere(SearchFor(file, h, st), maxFuzz)
  {
    hide Candidate;
    var s := SearchFor(file, h, st);
    if p.Placed? {
      var found, used :| PlacedWith(s, maxFuzz, p, found, used);
      assert Candidate(s, found, p.pos);
      assert !NoCandidate(s, found);
    }
  }

  lemma PlacedOnce(file: seq<string>, h: PatchHunk, maxFuzz: int, p: Placement, q: Placement, st: PlaceState)
    requires PlacedRight(file, h, maxFuzz, p, st) && PlacedRight(file, h, maxFuzz, q, st)
    ensures p == q
  {
    hide Candidate, Matches;
    PlacedIfSomewhere(file, h, maxFuzz, p, st);
    PlacedIfSomewhere(file, h, maxFuzz, q, st);
    var s := SearchFor(file, h, st);
    if p.Placed? {
      var found, used :| PlacedWith(s, maxFuzz, p, found, used);
      var found', used' :| PlacedWith(s, maxFuzz, q, found', used');
      LocatedOnce(s, maxFuzz, p.pos, found, q.pos, found');
    }
  }

  lemma {:induction false} AllPlacedOnce(file: seq<string>, hunks: seq<PatchHunk>, maxFuzz: int, ps: seq<Placement>,
                                         states: seq<PlaceState>, ps': seq<Placement>, states': seq<PlaceState>, k: nat)
    requires AllPlaced(file, hunks, maxFuzz, ps, states) && AllPlaced(file, hunks, maxFuzz, ps', states') && k <= |hunks|
    ensures states[k] == states'[k] && ps[..k] == ps'[..k]
  {
    hide PlacedRight, NextState;
    if k > 0 {
      AllPlacedOnce(file, hunks, maxFuzz, ps, states, ps', states', k - 1);
      assert Follows(file, hunks[k - 1], maxFuzz, ps[k - 1], states, k - 1);
      assert Follows(file, hunks[k - 1], maxFuzz, ps'[k - 1], states', k - 1);
      PlacedOnce(file, hunks[k - 1], maxFuzz, ps[k - 1], ps'[k - 1], states[k - 1]);
      assert ps[..k] == ps[..k - 1] + [ps[k - 1]] && ps'[..k] == ps'[..k - 1] + [ps'[k - 1]];
    }
  }

  lemma FilePatchedOnce(files: Files, a: Files, b: Files, pf: PatchFile, opts: PatchOptions, ps: seq<Placement>,
                        states: seq<PlaceState>, failed: bool, ps': seq<Placement>, states': seq<PlaceState>, failed': bool)
    requires FilePatched(files, a, pf, opts, ps, states, failed) && FilePatched(files, b, pf, opts, ps', states', failed')
    ensures a == b && failed == failed'
  {
    hide AllPlaced, Written, WithRejects, NewContent, LinesOf, DropCrAll;
    if pf.targetPath != "" && !CannotFind(files, pf, opts) {
      AllPlacedOnce(FileLinesOf(ContentOf(files, pf.targetPath)), pf.hunks, opts.fuzz, ps, states, ps', states', |pf.hunks|);
      assert ps[..|ps|] == ps && ps'[..|ps'|] == ps';
    }
  }

  lemma {:induction false} AllPatchedOnce(files: Files, a: Files, b: Files, pfs: seq<PatchFile>, opts: PatchOptions,
                                          o: Outcome, o': Outcome, k: nat)
    requires AllPatched(files, a, pfs, opts, o) && AllPatched(files, b, pfs, opts, o') && k <= |pfs|
    ensures o.files[k] == o'.files[k] && o.failed[..k] == o'.failed[..k]
  {
    hide FilePatched;
    if k > 0 {
      AllPatchedOnce(files, a, b, pfs, opts, o, o', k - 1);
      var j := k - 1;
      assert OnePatched(pfs[j], opts, o, j) && OnePatched(pfs[j], opts, o', j);
      FilePatchedOnce(o.files[j], o.files[k], o'.files[k], pfs[j], opts, o.placements[j], o.states[j], o.failed[j],
                      o'.placements[j], o'.states[j], o'.failed[j]);
      assert o.failed[..k] == o.failed[..j] + [o.failed[j]] && o'.failed[..k] == o'.failed[..j] + [o'.failed[j]];
    }
  }

  // ----- There is an outcome -----

  // How far a place is from the guess; of two at the same distance the one after it comes first.
  function Rank(guess: int, p: int): nat {
    2 * Distance(guess, p) + if p < guess then 1 else 0
  }

  lemma {:induction false} NearestExists(s: Search, fuzz: nat, p: int) returns (nearest: int)
    requires Candidate(s, fuzz, p)
    ensures Candidate(s, fuzz, nearest) && forall q :: Candidate(s, fuzz, q) ==> NotFarther(s.guess, nearest, q)
    decreases Rank(s.guess, p)
  {
    hide Candidate;
    nearest := p;
    if q :| Candidate(s, fuzz, q) && !NotFarther(s.guess, p, q) {
      nearest := NearestExists(s, fuzz, q);
    }
  }

  lemma {:induction false} LeastFuzzExists(s: Search, fuzz: nat) returns (least: nat)
    requires !NoCandidate(s, fuzz)
    ensures least <= fuzz && !NoCandidate(s, least) && forall f: nat :: f < least ==> NoCandidate(s, f)
  {
    hide NoCandidate;
    least := fuzz;
    if f: nat :| f < fuzz && !NoCandidate(s, f) {
      least := LeastFuzzExists(s, f);
    }
  }

  ghost predicate MatchesWith(s: Search, pos: int, fuzz: nat) {
    Matches(s.file, pos, s.pattern, Min(fuzz, s.ctx.prefix), Min(fuzz, s.ctx.suffix))
  }

  lemma {:induction false} LeastMatchExists(s: Search, pos: int, fuzz: nat) returns (least: nat)
    requires MatchesWith(s, pos, fuzz)
    ensures least <= fuzz && MatchesWith(s, pos, least) && forall f: nat :: f < least ==> !MatchesWith(s, pos, f)
  {
    hide MatchesWith;
    least := fuzz;
    if f: nat :| f < fuzz && MatchesWith(s, pos, f) {
      least := LeastMatchExists(s, pos, f);
    }
  }

  lemma PlaceExists(file: seq<string>, h: PatchHunk, maxFuzz: int, st: PlaceState) returns (p: Placement)
    ensures PlacedRight(file, h, maxFuzz, p, st)
  {
    hide Matches, LeadingContext, TrailingContext, Side;
    var s := SearchFor(file, h, st);
    p := Rejected;
    if fuzz: nat :| fuzz <= maxFuzz && !NoCandidate(s, fuzz) {
      var found := LeastFuzzExists(s, fuzz);
      var any :| Candidate(s, found, any);
      var pos := NearestExists(s, found, any);
      var used := LeastMatchExists(s, pos, found);
      p := Placed(pos, Min(used, s.ctx.prefix), Min(used, s.ctx.suffix));
      forall f: nat | f < used ensures !Matches(file, pos, s.pattern, Min(f, s.ctx.prefix), Min(f, s.ctx.suffix)) {
        assert !MatchesWith(s, pos, f);
      }
      assert MatchesWith(s, pos, used);
      assert PlacedWith(s, maxFuzz, p, found, used);
    }
  }

  lemma {:induction false} PlacesExist(file: seq<string>, hunks: seq<PatchHunk>, maxFuzz: int, k: nat)
    returns (ps: seq<Placement>, states: seq<PlaceState>)
    requires k <= |hunks|
    ensures |ps| == k && |states| == k + 1 && states[0] == PlaceState(0, 0)
    ensures forall j :: 0 <= j < k ==> Follows(file, hunks[j], maxFuzz, ps[j], states, j)
  {
    hide PlacedRight, NextState;
    if k == 0 {
      ps, states := [], [PlaceState(0, 0)];
    } else {
      ps, states := PlacesExist(file, hunks, maxFuzz, k - 1);
      var p := PlaceExists(file, hunks[k - 1], maxFuzz, states[k - 1]);
      var next := NextState(hunks[k - 1], p, states[k - 1]);
      FollowsKept(file, hunks, maxFuzz, ps, states, p, next);
      ps, states := ps + [p], states + [next];
    }
  }

  lemma FileOutcomeExists(files: Files, pf: PatchFile, opts: PatchOptions)
    returns (files': Files, ps: seq<Placement>, states: seq<PlaceState>, failed: bool)
    ensures FilePatched(files, files', pf, opts, ps, states, failed)
  {
    hide Follows, RejectText, NewContent, LinesOf, DropCrAll;
    if pf.targetPath == "" || CannotFind(files, pf, opts) {
      ps, states, failed := AllRejected(|pf.hunks|), [], pf.targetPath != "";
      files' := if pf.targetPath == "" || opts.dryRun then files else WithRejects(files, pf, ps);
    } else {
      var content := ContentOf(files, pf.targetPath);
      ps, states := PlacesExist(FileLinesOf(content), pf.hunks, opts.fuzz, |pf.hunks|);
      failed := AnyRejected(ps);
      var written := if AnyPlaced(ps) || pf.isCreation then Written(files, pf, NewContent(content, pf.hunks, ps), opts) else files;
      files' := if opts.dryRun then files else if failed then WithRejects(written, pf, ps) else written;
    }
  }

  lemma {:induction false} OutcomeExists(files: Files, pfs: seq<PatchFile>, opts: PatchOptions, k: nat) returns (o: Outcome)
    requires k <= |pfs|
    ensures |o.files| == k + 1 && |o.placements| == |o.states| == |o.failed| == k && o.files[0] == files
    ensures forall j :: 0 <= j < k ==> OnePatched(pfs[j], opts, o, j)
  {
    hide FilePatched;
    if k == 0 {
      o := Outcome([files], [], [], []);
    } else {
      var before := OutcomeExists(files, pfs, opts, k - 1);
      var files', ps, states, failed := FileOutcomeExists(before.files[k - 1], pfs[k - 1], opts);
      o := Outcome(before.files + [files'], before.placements + [ps], before.states + [states], before.failed + [failed]);
      forall j | 0 <= j < k ensures OnePatched(pfs[j], opts, o, j) {
        assert j < k - 1 ==> OnePatched(pfs[j], opts, before, j);
      }
    }
  }

  lemma SomeOutcome(content: string, opts: PatchOptions, files: Files)
    ensures exists code, files' :: Patches(content, opts, files, code, files')
  {
    hide Parsed, FilePatched;
    var pfs := Parsed(content, opts.stripLevel, opts.reverse);
    var o := OutcomeExists(files, pfs, opts, |pfs|);
    var code := if true in o.failed then 1 else 0;
    assert PatchesWith(content, opts, files, code, o.files[|pfs|], o);
    assert Patches(content, opts, files, code, o.files[|pfs|]);
  }

  ghost predicate Patches(content: string, opts: PatchOptions, files: Files, code: int, files': Files) {
    exists o :: PatchesWith(content, opts, files, code, files', o)
  }

  ghost predicate PatchesWith(content: string, opts: PatchOptions, files: Files, code: int, files': Files, o: Outcome) {
    && AllPatched(files, files', Parsed(content, opts.stripLevel, opts.reverse), opts, o)
    && code == if true in o.failed then 1 else 0
  }

  // The exit code of the engine and the files it leaves.
  ghost function PatchedBy(content: string, opts: PatchOptions, files: Files): (r: (int, Files))
    ensures Patches(content, opts, files, r.0, r.1)
  {
    SomeOutcome(content, opts, files);
    var code, files' :| Patches(content, opts, files, code, files');
    (code, files')
  }

  /** The engine has one outcome only, which does not depend on how the search goes about it. */
  lemma OneOutcome(content: string, opts: PatchOptions, files: Files, code: int, files': Files)
    ensures Patches(content, opts, files, code, files') <==> PatchedBy(content, opts, files) == (code, files')
  {
    hide AllPatched, Parsed;
    var r := PatchedBy(content, opts, files);
    var o' :| PatchesWith(content, opts, files, r.0, r.1, o');
    if Patches(content, opts, files, code, files') {
      var o :| PatchesWith(content, opts, files, code, files', o);
      OutcomesAgree(files, files', r.1, Parsed(content, opts.stripLevel, opts.reverse), opts, o, o');
    }
  }

  lemma OutcomesAgree(files: Files, a: Files, b: Files, pfs: seq<PatchFile>, opts: PatchOptions, o: Outcome, o': Outcome)
    requires AllPatched(files, a, pfs, opts, o) && AllPatched(files, b, pfs, opts, o')
    ensures a == b && o.failed == o'.failed
  {
    AllPatchedOnce(files, a, b, pfs, opts, o, o', |pfs|);
    assert o.failed[..|pfs|] == o.failed && o'.failed[..|pfs|] == o'.failed;
  }

  method ApplyPatch(content: string, opts: PatchOptions, files: Files) returns (code: int, files': Files)
    ensures (code, files') == PatchedBy(content, opts, files)
  {
    hide AllPatched, Parsed, PatchedBy;
    var fs := new FileStore(files);
    ghost var o;
    code, o := BuiltinPatch(fs, content, opts);
    files' := fs.files;
    assert PatchesWith(content, opts, files, code, files', o);
    OneOutcome(content, opts, files, code, files');
  }
}
