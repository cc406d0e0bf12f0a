/** The stack of applied patches: the commands that change the series, the applied list and the
    tracked files. */
module QuiltStack {
  import opened Common
  import opened QuiltFiles
  import opened QuiltHeaders
  import opened PatchEngine
  import opened PatchOutcome
  import opened QuiltEngine

  // How many patches to push.
  datatype Amount = One | Count(n: nat) | All | Upto(target: string)

  ghost predicate NoRepeats(s: seq<string>) {
    forall i, j :: 0 <= i < j < |s| ==> s[i] != s[j]
  }

  function Without(s: seq<string>, i: nat): seq<string>
    requires i < |s|
  {
    s[..i] + s[i + 1..]
  }

  function Inserted(s: seq<string>, i: nat, x: string): seq<string>
    requires i <= |s|
  {
    s[..i] + [x] + s[i..]
  }

  lemma InsertedFacts(s: seq<string>, i: nat, x: string)
    requires i <= |s| && NoRepeats(s) && x !in s
    ensures NoRepeats(Inserted(s, i, x)) && Inserted(s, i, x)[..i] == s[..i] && Inserted(s, i, x)[i] == x
  {
    var t := Inserted(s, i, x);
    forall j, k | 0 <= j < k < |t| ensures t[j] != t[k] {
      assert t[j] == if j < i then s[j] else if j == i then x else s[j - 1];
      assert t[k] == if k < i then s[k] else if k == i then x else s[k - 1];
    }
  }

  lemma InsertedAll(s: seq<string>, x: string)
    ensures Inserted(s, |s|, x) == s + [x] && forall i: nat :: i <= |s| ==> |Inserted(s, i, x)| == |s| + 1
  {
  }

  lemma WithoutFacts(s: seq<string>, i: nat)
    requires i < |s| && NoRepeats(s)
    ensures NoRepeats(Without(s, i)) && Without(s, i)[..i] == s[..i]
  {
    var t := Without(s, i);
    forall j, k | 0 <= j < k < |t| ensures t[j] != t[k] {
      assert t[j] == if j < i then s[j] else s[j + 1];
      assert t[k] == if k < i then s[k] else s[k + 1];
    }
  }

  lemma ReplacedFacts(s: seq<string>, i: nat, x: string)
    requires i < |s| && NoRepeats(s) && x !in s
    ensures NoRepeats(s[i := x])
  {
  }

  // What is kept for a patch goes to another name.
  function Moved<V>(m: map<string, V>, was: string, name: string): map<string, V> {
    if was in m then (m - {was})[name := m[was]] else m
  }

  function Copied<V>(m: map<string, V>, from: string, name: string): map<string, V> {
    if from in m then m[name := m[from]] else m
  }

  function MovedIn(s: set<string>, was: string, name: string): set<string> {
    if was in s then s - {was} + {name} else s
  }

  // The applied patches, the files, what is backed up for each patch, and the patches forced on.
  datatype Stack = Stack(applied: seq<string>, files: Files, backups: map<string, Files>, needsRefresh: set<string>)

  // Pushing one patch puts it on the stack with the backups of its files; unless it does not apply
  // and is not forced: then the backups are restored again.
  ghost function PushResult(st: Stack, name: string, content: string, opts: PatchOptions, leaveRejects: bool): (int, Stack) {
    var affected := TargetsOf(content, opts.stripLevel);
    var result := PatchedBy(content, opts, st.files);
    var backup := BackedUp(st.files, affected);
    if result.0 == 0 then
      (0, Stack(st.applied + [name], result.1, st.backups[name := backup], st.needsRefresh))
    else if opts.force then
      (1, Stack(st.applied + [name], result.1, st.backups[name := backup], st.needsRefresh + {name}))
    else
      var restored := Restored(result.1, backup);
      (1, st.(files := if leaveRejects then restored else restored - Rejects(affected)))
  }

  // Taking the top patch off: its visible backups are restored.
  function PopResult(st: Stack): Stack
    requires st.applied != [] && st.applied[|st.applied| - 1] in st.backups
  {
    var name := st.applied[|st.applied| - 1];
    Stack(st.applied[..|st.applied| - 1], Restored(st.files, Visible(st.backups[name])), st.backups - {name}, st.needsRefresh - {name})
  }

  // The files with all patches but the first n taken off.
  function Bottom(st: Stack, n: nat): Files {
    Unwound(st.files, st.applied, st.backups, n)
  }

  // ----- Where pushes and pops stop -----

  ghost function IndexIn(s: seq<string>, x: string): nat
    requires x in s
  {
    var i: nat :| i < |s| && s[i] == x;
    i
  }

  lemma IndexIs(s: seq<string>, x: string, i: nat)
    requires NoRepeats(s) && i < |s| && s[i] == x
    ensures IndexIn(s, x) == i
  {
    var k := IndexIn(s, x);
    assert s[k] == x;
  }

  // The exit code of a push that does not even start, or 0 and how many patches are to be applied.
  ghost function PushTarget(amount: Amount, st: Stack, series: seq<string>): (int, nat) {
    var start := |st.applied|;
    if st.applied != [] && st.applied[start - 1] in st.needsRefresh then (1, 0)
    else if start >= |series| then (2, 0)
    else
      match amount
      case One => (0, start + 1)
      case Count(n) => (0, if start + n <= |series| then start + n else |series|)
      case All => (0, |series|)
      case Upto(target) =>
        if target !in series then (1, 0)
        else if target in st.applied then (2, 0)
        else (0, IndexIn(series, target) + 1)
  }

  // The same for a pop, and how many patches are to stay.
  ghost function PopTarget(amount: Amount, applied: seq<string>): (int, nat) {
    if applied == [] then (2, 0)
    else
      match amount
      case One => (0, |applied| - 1)
      case Count(n) => (0, if |applied| >= n then |applied| - n else 0)
      case All => (0, 0)
      case Upto(target) =>
        if target !in applied then (1, 0)
        else if target == applied[|applied| - 1] then (2, 0)
        else (0, IndexIn(applied, target) + 1)
  }

  // ----- What pushing leaves of the layers below -----

  // Names that are backed up, seen in the backup directory, and not taken for rejects.
  predicate Proper(affected: seq<string>) {
    forall f :: f in affected ==> !Hidden(f) && !IsReject(f)
  }

  lemma RestoredPlain(files: Files, files': Files, backup: Files)
    requires Plain(files) == Plain(files')
    ensures Plain(Restored(files, backup)) == Plain(Restored(files', backup))
  {
    assert forall f :: !IsReject(f) ==> (f in files <==> f in Plain(files)) && (f in files' <==> f in Plain(files'));
    assert forall f :: !IsReject(f) && f in files ==> files[f] == Plain(files)[f] == files'[f];
  }

  lemma {:induction false} BottomPlain(files: Files, files': Files, applied: seq<string>, backups: map<string, Files>, n: nat)
    requires Plain(files) == Plain(files')
    ensures Plain(Unwound(files, applied, backups, n)) == Plain(Unwound(files', applied, backups, n))
    decreases |applied|
  {
    hide Plain, Restored, Visible;
    if |applied| > n {
      var name := applied[|applied| - 1];
      if name in backups {
        RestoredPlain(files, files', Visible(backups[name]));
        BottomPlain(Restored(files, Visible(backups[name])), Restored(files', Visible(backups[name])),
                    applied[..|applied| - 1], backups, n);
      } else {
        BottomPlain(files, files', applied[..|applied| - 1], backups, n);
      }
    }
  }

  predicate ProperPatch(content: string, strip: int, reverse: bool) {
    Proper(TargetsOf(content, strip)) && Reversible(content, strip, reverse)
  }

  // None of these files is empty.
  predicate NoEmptyTarget(files: Files, affected: seq<string>) {
    forall f :: f in affected ==> !EmptyAt(files, f)
  }

  // Restoring the backups of a tame call brings all files back, rejects aside, exactly if none of the
  // files backed up was empty.
  lemma TameRestored(files: Files, after: Files, affected: seq<string>)
    requires TameCall(files, after, affected) && Proper(affected)
    ensures Plain(Restored(after, BackedUp(files, affected))) == Plain(files) <==> NoEmptyTarget(files, affected)
    ensures NoneEmptied(files, Restored(after, BackedUp(files, affected)))
    ensures Visible(BackedUp(files, affected)) == BackedUp(files, affected)
  {
    var restored := Restored(after, BackedUp(files, affected));
    hide Hidden, IsReject;
    forall f ensures SameAt(Plain(files), Plain(restored), f) <==> IsReject(f) || f !in affected || !EmptyAt(files, f) {
      if !IsReject(f) {
        assert f in files <==> f in Plain(files);
        if f !in affected {
          assert SameAt(files, after, f);
        }
      }
    }
    if NoEmptyTarget(files, affected) {
      SameFiles(Plain(files), Plain(restored));
    }
  }

  // Pushing a patch leaves no file empty that was not, rejects aside.
  lemma PushEmptiesNone(st: Stack, name: string, content: string, opts: PatchOptions, leaveRejects: bool)
    requires opts.removeEmpty && !opts.dryRun && opts.fuzz >= 0
    requires Reversible(content, opts.stripLevel, opts.reverse) && Proper(TargetsOf(content, opts.stripLevel))
    ensures NoneEmptied(st.files, PushResult(st, name, content, opts, leaveRejects).1.files)
  {
    hide Restored, BackedUp, TargetsOf, Visible, Rejects, Proper, Reversible, PatchedBy, IsReject;
    var affected := TargetsOf(content, opts.stripLevel);
    var result := PatchedBy(content, opts, st.files);
    ReversibleIsTame(content, opts, st.files);
    TameRestored(st.files, result.1, affected);
  }

  /** Pushing a patch, with success or not, forced or not, leaves every layer below as it was, if none of
      its files is empty: the files that popping down to it would bring back are the same. */
  lemma PushKeepsBottom(st: Stack, name: string, content: string, opts: PatchOptions, leaveRejects: bool, n: nat)
    requires opts.removeEmpty && !opts.dryRun && opts.fuzz >= 0
    requires Reversible(content, opts.stripLevel, opts.reverse) && NoEmptyTarget(st.files, TargetsOf(content, opts.stripLevel))
    requires Proper(TargetsOf(content, opts.stripLevel)) && name !in st.applied && n <= |st.applied|
    ensures var st' := PushResult(st, name, content, opts, leaveRejects).1;
            && Plain(Bottom(st', n)) == Plain(Bottom(st, n))
            && (|st'.applied| == |st.applied| ==> Plain(st'.files) == Plain(st.files))
  {
    hide Plain, Restored, BackedUp, TargetsOf, Visible, NoEmptyTarget, NoneEmptied, Rejects, TameCall, Proper, Unwound, Reversible,
      PatchedBy;
    var affected := TargetsOf(content, opts.stripLevel);
    var result := PatchedBy(content, opts, st.files);
    var st' := PushResult(st, name, content, opts, leaveRejects).1;
    var backup := BackedUp(st.files, affected);
    ReversibleIsTame(content, opts, st.files);
    TameRestored(st.files, result.1, affected);
    if |st'.applied| > |st.applied| {
      PushedLayer(st, st', name, n);
      BottomPlain(Restored(result.1, backup), st.files, st.applied, st.backups, n);
    } else {
      PlainRejects(Restored(result.1, backup), affected);
      BottomPlain(st'.files, st.files, st.applied, st.backups, n);
    }
  }

  // Below a patch just pushed are the layers of the files that its backup brings back.
  lemma PushedLayer(st: Stack, st': Stack, name: string, n: nat)
    requires st'.applied == st.applied + [name] && name !in st.applied && n <= |st.applied|
    requires name in st'.backups && st'.backups == st.backups[name := st'.backups[name]]
    ensures Bottom(st', n) == Unwound(Restored(st'.files, Visible(st'.backups[name])), st.applied, st.backups, n)
  {
    hide Restored, Visible;
    OneLayer(st'.files, st.applied, name, st'.backups, n);
    UnwoundSame(Restored(st'.files, Visible(st'.backups[name])), st.applied, st'.backups, st.backups, n);
  }

  /** Just below the patch the layer is as it was, rejects aside, if and only if no file of the patch was
      empty, be the patch applied, forced on or undone again. */
  lemma PushRestoresExactly(st: Stack, name: string, content: string, opts: PatchOptions, leaveRejects: bool)
    requires opts.removeEmpty && !opts.dryRun && opts.fuzz >= 0 && name !in st.applied
    requires Reversible(content, opts.stripLevel, opts.reverse) && Proper(TargetsOf(content, opts.stripLevel))
    ensures Plain(Bottom(PushResult(st, name, content, opts, leaveRejects).1, |st.applied|)) == Plain(st.files)
       <==> NoEmptyTarget(st.files, TargetsOf(content, opts.stripLevel))
  {
    hide Plain, Restored, BackedUp, TargetsOf, Visible, NoEmptyTarget, NoneEmptied, Rejects, TameCall, Proper, Reversible, PatchedBy;
    var affected := TargetsOf(content, opts.stripLevel);
    var result := PatchedBy(content, opts, st.files);
    var st' := PushResult(st, name, content, opts, leaveRejects).1;
    ReversibleIsTame(content, opts, st.files);
    TameRestored(st.files, result.1, affected);
    if |st'.applied| > |st.applied| {
      PushedLayer(st, st', name, |st.applied|);
    } else {
      PlainRejects(Restored(result.1, BackedUp(st.files, affected)), affected);
    }
  }

  lemma OneLayer(files: Files, applied: seq<string>, name: string, backups: map<string, Files>, n: nat)
    requires name in backups && n <= |applied|
    ensures Unwound(files, applied + [name], backups, n) == Unwound(Restored(files, Visible(backups[name])), applied, backups, n)
  {
    assert (applied + [name])[..|applied|] == applied;
  }

  lemma PlainRejects(files: Files, affected: seq<string>)
    ensures Plain(files - Rejects(affected)) == Plain(files)
  {
    forall f | f in Rejects(affected) ensures IsReject(f) {
    }
  }

  lemma BackedUpNone(files: Files)
    ensures BackedUp(files, []) == map[]
  {
  }

  lemma BackedUpNext(files: Files, affected: seq<string>, f: string)
    ensures BackedUp(files, affected + [f]) == BackedUp(files, affected)[f := BackupOf(files, f)]
  {
  }

  lemma KeysOf(files: Files, affected: seq<string>)
    ensures BackedUp(files, affected).Keys == Elements(affected)
  {
  }

  class QuiltState {
    var series: seq<string>
    var applied: seq<string>
    var strip: map<string, int>
    var reversed: set<string>
    var patches: map<string, string>
    var files: Files
    var backups: map<string, Files>
    var needsRefresh: set<string>

    // The series has no patch twice, the applied patches are the first of it, and exactly these
    // have backups.
    ghost predicate Good()
      reads this
    {
      && NoRepeats(series)
      && |applied| <= |series| && applied == series[..|applied|]
      && backups.Keys == Elements(applied)
      && needsRefresh <= Elements(applied)
    }

    constructor (series: seq<string>, patches: map<string, string>, files: Files)
      requires NoRepeats(series)
      ensures Good() && this.series == series && applied == [] && this.files == files
    {
      this.series, this.patches, this.files := series, patches, files;
      applied, strip, reversed, backups, needsRefresh := [], map[], {}, map[], {};
    }

    // ----- Looking patches up -----

    method FindInSeries(patch: string) returns (idx: int)
      ensures idx == -1 ==> patch !in series
      ensures idx != -1 ==> 0 <= idx < |series| && series[idx] == patch
    {
      idx := 0;
      while idx < |series|
        invariant 0 <= idx <= |series|
        invariant patch !in series[..idx]
      {
        if series[idx] == patch {
          return;
        }
        idx := idx + 1;
      }
      idx := -1;
    }

    method TopIndex() returns (top: int)
      requires Good()
      ensures top == |applied| - 1
    {
      if applied == [] {
        return -1;
      }
      top := FindInSeries(applied[|applied| - 1]);
      assert series[|applied| - 1] == applied[|applied| - 1];
    }

    function StripLevel(patch: string): int
      reads this`strip
    {
      if patch in strip then strip[patch] else 1
    }

    // ----- Backing up and restoring -----

    method BackUpAll(patch: string, affected: seq<string>)
      requires patch !in backups
      modifies this`backups
      ensures backups == old(backups)[patch := BackedUp(files, affected)]
    {
      hide BackedUp;
      BackedUpNone(files);
      assert affected[..0] == [];
      backups := backups[patch := map[]];
      var i := 0;
      while i < |affected|
        invariant 0 <= i <= |affected|
        invariant backups == old(backups)[patch := BackedUp(files, affected[..i])]
      {
        var f := affected[i];
        assert affected[..i + 1] == affected[..i] + [f];
        BackedUpNext(files, affected[..i], f);
        backups := backups[patch := backups[patch][f := BackupOf(files, f)]];
        i := i + 1;
      }
      assert affected[..i] == affected;
    }

    method RestoreFile(patch: string, f: string)
      requires patch in backups && f in backups[patch]
      modifies this`files
      ensures files == RestoredOne(old(files), f, backups[patch][f])
    {
      if backups[patch][f] == [] {
        files := files - {f};
      } else {
        files := files[f := backups[patch][f]];
      }
    }

    // Restores these files, in the order they are named in.
    method RestoreAll(patch: string, affected: seq<string>)
      requires patch in backups && backups[patch].Keys == Elements(affected)
      modifies this`files
      ensures files == Restored(old(files), backups[patch])
    {
      hide Restored, RestoredOne, Only;
      ghost var was, backup := files, backups[patch];
      RestoredNone(was, backup);
      var i := 0;
      assert affected[..0] == [] && Elements([]) == {};
      while i < |affected|
        invariant 0 <= i <= |affected|
        invariant files == Restored(was, Only(backup, Elements(affected[..i])))
      {
        assert affected[i] in Elements(affected);
        assert Elements(affected[..i + 1]) == Elements(affected[..i]) + {affected[i]};
        RestoredNext(was, backup, Elements(affected[..i]), affected[i]);
        RestoreFile(patch, affected[i]);
        i := i + 1;
      }
      assert affected[..i] == affected;
      OnlyAll(backup);
    }

    // Restores the visible files of the backup directory, in whatever order it lists them.
    method RestoreVisible(patch: string)
      requires patch in backups
      modifies this`files
      ensures files == Restored(old(files), Visible(backups[patch]))
    {
      hide Restored, RestoredOne, Only, Hidden;
      ghost var was, backup := files, Visible(backups[patch]);
      RestoredNone(was, backup);
      var left := set f | f in backups[patch] && !Hidden(f);
      assert backup.Keys - left == {};
      while left != {}
        invariant left <= backup.Keys
        invariant files == Restored(was, Only(backup, backup.Keys - left))
      {
        var f :| f in left;
        RestoredNext(was, backup, backup.Keys - left, f);
        assert backup.Keys - left + {f} == backup.Keys - (left - {f});
        RestoreFile(patch, f);
        left := left - {f};
      }
      assert backup.Keys - left == backup.Keys;
      OnlyAll(backup);
    }

    // ----- Pushing -----

    ghost function Now(): Stack
      reads this
    {
      Stack(applied, files, backups, needsRefresh)
    }

    function PushOptions(name: string, force: bool, fuzz: int): PatchOptions
      reads this`strip, this`reversed
    {
      PatchOptions(StripLevel(name), if fuzz >= 0 then fuzz else 2, name in reversed, false, force, true)
    }

    // Pushes the next patch of the series.
    method PushOne(name: string, force: bool, fuzz: int, leaveRejects: bool) returns (code: int)
      requires Good() && |applied| < |series| && name == series[|applied|]
      modifies this`applied, this`files, this`backups, this`needsRefresh
      ensures Good()
      ensures name !in patches ==> code == 1 && Now() == old(Now())
      ensures name in patches ==>
                (code, Now()) == PushResult(old(Now()), name, patches[name], PushOptions(name, force, fuzz), leaveRejects)
    {
      hide Good, Elements, Restored, BackedUp, TargetsOf, Rejects, PatchedBy;
      FirstUnapplied();
      GoodParts();
      ghost var before := Now();
      if name !in patches {
        return 1;
      }
      var content := patches[name];
      var opts := PushOptions(name, force, fuzz);
      var affected := ParsePatchFiles(content, StripLevel(name));
      BackUpAll(name, affected);
      var result, patched := ApplyPatch(content, opts, files);
      files := patched;
      code := if result == 0 then 0 else 1;
      if result != 0 && !force {
        KeysOf(before.files, affected);
        GiveUp(name, affected, leaveRejects);
        assert backups == before.backups;
        SameStack(before);
        return;
      }
      applied := applied + [name];
      if result != 0 {
        needsRefresh := needsRefresh + {name};
      }
      GoodPushed(before, name);
    }

    // Restores what was backed up for a patch that does not apply.
    method GiveUp(name: string, affected: seq<string>, leaveRejects: bool)
      requires name in backups && backups[name].Keys == Elements(affected)
      modifies this`files, this`backups
      ensures files == old(if leaveRejects then Restored(files, backups[name]) else Restored(files, backups[name]) - Rejects(affected))
      ensures backups == old(backups) - {name}
    {
      hide Elements, Restored, Rejects;
      RestoreAll(name, affected);
      if !leaveRejects {
        files := files - Rejects(affected);
      }
      backups := backups - {name};
    }

    lemma GoodPushed(before: Stack, name: string)
      requires NoRepeats(series) && |before.applied| < |series| && before.applied == series[..|before.applied|]
      requires name == series[|before.applied|] && applied == before.applied + [name]
      requires before.backups.Keys == Elements(before.applied) && before.needsRefresh <= Elements(before.applied)
      requires backups.Keys == before.backups.Keys + {name} && needsRefresh <= before.needsRefresh + {name}
      ensures Good()
    {
      assert Elements(applied) == Elements(before.applied) + {name};
    }

    // Nothing that counts has changed.
    lemma SameStack(before: Stack)
      requires NoRepeats(series) && |before.applied| <= |series| && before.applied == series[..|before.applied|]
      requires before.backups.Keys == Elements(before.applied) && before.needsRefresh <= Elements(before.applied)
      requires applied == before.applied && backups == before.backups && needsRefresh == before.needsRefresh
      ensures Good()
    {
    }

    lemma FirstUnapplied()
      requires Good() && |applied| < |series|
      ensures series[|applied|] !in applied && series[|applied|] !in backups && series[|applied|] !in needsRefresh
      ensures applied + [series[|applied|]] == series[..|applied| + 1]
      ensures Elements(applied + [series[|applied|]]) == Elements(applied) + {series[|applied|]}
    {
    }

    // Where a push that succeeds stops.
    ghost predicate EndsAt(amount: Amount, was: nat, now: nat)
      reads this`series
    {
      was < now <= |series| &&
      match amount
      case One => now == was + 1
      case Count(n) => now == if was + n <= |series| then was + n else |series|
      case All => now == |series|
      case Upto(target) => series[now - 1] == target
    }

    // Every patch can be taken off again, and names only files that can be looked after.
    ghost predicate ProperPatches()
      reads this`series, this`patches, this`strip, this`reversed
    {
      forall p :: p in series && p in patches ==> ProperPatch(patches[p], StripLevel(p), p in reversed)
    }

    // No file that one of the patches names is empty.
    ghost predicate NoTargetEmpty(files: Files)
      reads this`series, this`patches, this`strip
    {
      forall p :: p in series && p in patches ==> NoEmptyTarget(files, TargetsOf(patches[p], StripLevel(p)))
    }

    // The layers up to a depth are as they were.
    ghost predicate Kept(was: Stack, depth: nat)
      reads this
    {
      ProperPatches() ==>
        && NoneEmptied(was.files, files)
        && (NoTargetEmpty(was.files) ==> forall n: nat :: n <= depth ==> Plain(Bottom(Now(), n)) == Plain(Bottom(was, n)))
    }

    // What is empty later was empty before, so the files of the patches still are not.
    lemma StillNoneEmpty(was: Files, files: Files)
      requires ProperPatches() && NoTargetEmpty(was) && NoneEmptied(was, files)
      ensures NoTargetEmpty(files)
    {
      hide TargetsOf, Reversible, IsReject, Hidden;
      forall p | p in series && p in patches ensures NoEmptyTarget(files, TargetsOf(patches[p], StripLevel(p))) {
        assert ProperPatch(patches[p], StripLevel(p), p in reversed);
      }
    }

    lemma StillKept(was: Stack, depth: nat, before: Stack, name: string, opts: PatchOptions, leaveRejects: bool)
      requires ProperPatches() ==>
                 && NoneEmptied(was.files, before.files)
                 && (NoTargetEmpty(was.files) ==> forall n: nat :: n <= depth ==> Plain(Bottom(before, n)) == Plain(Bottom(was, n)))
      requires name in series && name !in before.applied && depth <= |before.applied|
      requires if name in patches then Now() == PushResult(before, name, patches[name], opts, leaveRejects).1
               else Now() == before
      requires opts.stripLevel == StripLevel(name) && opts.reverse == (name in reversed)
      requires opts.removeEmpty && !opts.dryRun && opts.fuzz >= 0
      ensures Kept(was, depth)
    {
      hide Restored, BackedUp, TargetsOf, Rejects, Plain, NoEmptyTarget, Bottom, PushResult, Proper, Reversible, IsReject;
      if ProperPatches() && name in patches {
        assert ProperPatch(patches[name], opts.stripLevel, opts.reverse);
        PushEmptiesNone(before, name, patches[name], opts, leaveRejects);
        if NoTargetEmpty(was.files) {
          StillNoneEmpty(was.files, before.files);
          forall n: nat | n <= depth ensures Plain(Bottom(Now(), n)) == Plain(Bottom(was, n)) {
            PushKeepsBottom(before, name, patches[name], opts, leaveRejects, n);
          }
        }
      }
    }

    // Pushing one patch after the other, until so many are applied or one fails.
    ghost function PushRun(st: Stack, end: nat, force: bool, fuzz: int, leaveRejects: bool): (int, Stack)
      reads this`series, this`patches, this`strip, this`reversed
      decreases end - |st.applied|
    {
      var i := |st.applied|;
      if i >= end || i >= |series| then (0, st)
      else if series[i] !in patches then (1, st)
      else
        var r := PushResult(st, series[i], patches[series[i]], PushOptions(series[i], force, fuzz), leaveRejects);
        if r.0 != 0 then (1, r.1) else PushRun(r.1, end, force, fuzz, leaveRejects)
    }

    /** Pushes patches, one after the other, until done or until one fails. */
    method Push(amount: Amount, force: bool, fuzz: int, leaveRejects: bool) returns (code: int)
      requires Good() && (amount.Count? ==> amount.n > 0)
      modifies this`applied, this`files, this`backups, this`needsRefresh
      ensures Good() && |old(applied)| <= |applied|
      ensures var target := old(PushTarget(amount, Now(), series));
              if target.0 != 0 then code == target.0 && Now() == old(Now())
              else (code, Now()) == old(PushRun(Now(), target.1, force, fuzz, leaveRejects))
      ensures code == 0 ==> EndsAt(amount, |old(applied)|, |applied|)
      ensures code == 2 ==> Now() == old(Now())
      ensures code == 0 || !force ==> needsRefresh == old(needsRefresh)
      ensures old(applied) != [] && old(applied)[|old(applied)| - 1] in old(needsRefresh) ==> code == 1 && Now() == old(Now())
      ensures Kept(old(Now()), |old(applied)|)
    {
      hide Good, Elements, Kept, PushResult, ProperPatches, PushTarget, PushRun, EndsAt;
      ghost var was := Now();
      KeptFirst(|applied|);
      var end;
      code, end := PushEnd(amount);
      if code != 0 {
        return;
      }
      GoodParts();
      while |applied| < end
        invariant |was.applied| <= |applied| <= end <= |series| && Good()
        invariant needsRefresh == was.needsRefresh && Kept(was, |was.applied|)
        invariant PushRun(was, end, force, fuzz, leaveRejects) == PushRun(Now(), end, force, fuzz, leaveRejects)
        decreases end - |applied|
      {
        var name := series[|applied|];
        ghost var before := Now();
        FirstUnapplied();
        KeptMeans(was, |was.applied|);
        RunOne(before, end, force, fuzz, leaveRejects);
        code := PushOne(name, force, fuzz, leaveRejects);
        StillKept(was, |was.applied|, before, name, PushOptions(name, force, fuzz), leaveRejects);
        PushedCode(before, name, PushOptions(name, force, fuzz), leaveRejects);
        if code != 0 {
          return;
        }
      }
      RunOne(Now(), end, force, fuzz, leaveRejects);
    }

    // One step of the run.
    lemma RunOne(st: Stack, end: nat, force: bool, fuzz: int, leaveRejects: bool)
      requires end <= |series|
      ensures var i := |st.applied|;
              if i >= end then PushRun(st, end, force, fuzz, leaveRejects) == (0, st)
              else if series[i] !in patches then PushRun(st, end, force, fuzz, leaveRejects) == (1, st)
              else
                var r := PushResult(st, series[i], patches[series[i]], PushOptions(series[i], force, fuzz), leaveRejects);
                PushRun(st, end, force, fuzz, leaveRejects) ==
                  if r.0 != 0 then (1, r.1) else PushRun(r.1, end, force, fuzz, leaveRejects)
    {
      hide PushResult;
    }

    // How many patches are to be applied.
    method PushEnd(amount: Amount) returns (code: int, end: nat)
      requires Good() && (amount.Count? ==> amount.n > 0)
      ensures (code, if code == 0 then end else 0) == PushTarget(amount, Now(), series)
      ensures code == 0 ==> |applied| < end <= |series| && EndsAt(amount, |applied|, end)
      ensures code == 0 || code == 1 || code == 2
      ensures applied != [] && applied[|applied| - 1] in needsRefresh ==> code == 1
    {
      hide Good, Elements;
      GoodParts();
      end := 0;
      if applied != [] && applied[|applied| - 1] in needsRefresh {
        return 1, end;
      }
      var top := TopIndex();
      var start := top + 1;
      if start >= |series| {
        return 2, end;
      }
      code, end := 0, start + 1;
      match amount {
        case One =>
        case Count(n) =>
          end := start + n;
          if end >= |series| {
            end := |series|;
          }
        case All =>
          end := |series|;
        case Upto(target) =>
          var idx := FindInSeries(target);
          AppliedInSeries();
          if idx == -1 {
            return 1, 0;
          }
          AppliedAt(idx);
          IndexIs(series, target, idx);
          if idx < start {
            return 2, 0;
          }
          end := idx + 1;
      }
    }

    lemma KeptFirst(depth: nat)
      ensures Kept(Now(), depth)
    {
    }

    lemma KeptMeans(was: Stack, depth: nat)
      requires Kept(was, depth)
      ensures ProperPatches() ==>
                && NoneEmptied(was.files, files)
                && (NoTargetEmpty(was.files) ==> forall n: nat :: n <= depth ==> Plain(Bottom(Now(), n)) == Plain(Bottom(was, n)))
    {
    }

    lemma PushedCode(before: Stack, name: string, opts: PatchOptions, leaveRejects: bool)
      ensures name in patches ==>
                var r := PushResult(before, name, patches[name], opts, leaveRejects);
                && (r.0 == 0 || r.0 == 1)
                && (r.0 == 0 ==> |r.1.applied| == |before.applied| + 1 && r.1.needsRefresh == before.needsRefresh)
                && |before.applied| <= |r.1.applied| <= |before.applied| + 1
                && (r.0 != 0 && !opts.force ==> r.1.needsRefresh == before.needsRefresh)
    {
    }

    // ----- Popping -----

    function VerifyOptions(name: string): PatchOptions
      reads this`strip
    {
      PatchOptions(StripLevel(name), 2, true, true, true, false)
    }

    // Whether the top patch may be taken off: it is not forced on, and, tried in reverse, it comes off.
    ghost predicate Removable(st: Stack, name: string)
      reads this`patches, this`strip
    {
      && name !in st.needsRefresh
      && (name in patches && patches[name] != [] ==> PatchedBy(patches[name], VerifyOptions(name), st.files).0 == 0)
    }

    lemma TopApplied()
      requires Good() && applied != []
      ensures applied[|applied| - 1] in backups
      ensures Elements(applied[..|applied| - 1]) == Elements(applied) - {applied[|applied| - 1]}
      ensures |applied| - 1 <= |series| && applied[..|applied| - 1] == series[..|applied| - 1]
      ensures Good()
    {
      assert applied == applied[..|applied| - 1] + [applied[|applied| - 1]];
      assert applied[|applied| - 1] in Elements(applied);
    }

    lemma AppliedFacts()
      requires Good()
      ensures forall p :: p in applied ==> p in backups
      ensures forall i :: 0 <= i < |applied| - 1 ==> applied[i] != applied[|applied| - 1]
    {
    }

    // Takes the top patch off.
    method PopOne(force: bool) returns (code: int)
      requires Good() && applied != []
      modifies this`applied, this`files, this`backups, this`needsRefresh
      ensures Good()
      ensures code == 0 <==> force || old(Removable(Now(), applied[|applied| - 1]))
      ensures if code == 0 then Now() == old(PopResult(Now())) else code == 1 && Now() == old(Now())
    {
      hide Good, Elements, Restored, Visible, TargetsOf, PatchedBy;
      TopApplied();
      GoodParts();
      var name := applied[|applied| - 1];
      if name in needsRefresh && !force {
        return 1;
      }
      if !force && name in patches && patches[name] != [] {
        var result, patched := ApplyPatch(patches[name], VerifyOptions(name), files);
        if result != 0 {
          return 1;
        }
      }
      ghost var before := Now();
      RestoreVisible(name);
      backups := backups - {name};
      needsRefresh := needsRefresh - {name};
      applied := applied[..|applied| - 1];
      code := 0;
      GoodPopped(before, name);
    }

    lemma GoodPopped(before: Stack, name: string)
      requires NoRepeats(series) && |applied| <= |series| && applied == series[..|applied|]
      requires Elements(applied) == Elements(before.applied) - {name}
      requires before.backups.Keys == Elements(before.applied) && before.needsRefresh <= Elements(before.applied)
      requires backups == before.backups - {name} && needsRefresh == before.needsRefresh - {name}
      ensures Good()
    {
    }

    // Where a pop that succeeds stops: below its target, if it has one.
    ghost predicate PopsTo(amount: Amount, was: seq<string>, now: nat) {
      match amount
      case One => now == |was| - 1
      case Count(n) => now == if |was| >= n then |was| - n else 0
      case All => now == 0
      case Upto(target) => 0 < now < |was| && was[now - 1] == target
    }

    // Taking patches off, until so many are left or one does not come off.
    ghost function PopRun(st: Stack, stop: nat, force: bool): (int, Stack)
      reads this`patches, this`strip
      decreases |st.applied|
    {
      if |st.applied| <= stop then (0, st)
      else
        var name := st.applied[|st.applied| - 1];
        if name in st.backups && (force || Removable(st, name)) then PopRun(PopResult(st), stop, force) else (1, st)
    }

    /** Takes patches off the top, one after the other, until done or until one does not come off. The
        files are what taking these patches off in this order makes of them. */
    method Pop(amount: Amount, force: bool) returns (code: int)
      requires Good() && (amount.Count? ==> amount.n > 0)
      modifies this`applied, this`files, this`backups, this`needsRefresh
      ensures Good() && |applied| <= |old(applied)|
      ensures var target := old(PopTarget(amount, applied));
              if target.0 != 0 then code == target.0 && Now() == old(Now())
              else (code, Now()) == old(PopRun(Now(), target.1, force))
      ensures code == 0 ==> PopsTo(amount, old(applied), |applied|)
      ensures files == Bottom(old(Now()), |applied|)
      ensures forall n: nat :: n <= |applied| ==> Bottom(Now(), n) == Bottom(old(Now()), n)
      ensures force && code == 1 ==> Now() == old(Now())
      ensures forall p :: p in applied ==> p in old(backups) && backups[p] == old(backups)[p]
    {
      hide Good, Elements, PopResult, Bottom, PoppedFrom, PopsTo, Removable, PopTarget, PopRun;
      ghost var was := Now();
      AppliedFacts();
      StartPopping(was);
      PoppedMeans(was, was);
      var stop;
      code, stop := PopStop(amount);
      if code != 0 {
        return;
      }
      while |applied| > stop
        invariant Good() && PoppedFrom(was, Now()) && stop <= |applied| <= |was.applied|
        invariant PopRun(was, stop, force) == PopRun(Now(), stop, force)
        decreases |applied|
      {
        ghost var before := Now();
        TopApplied();
        AppliedFacts();
        PopRunOne(before, stop, force);
        code := PopOne(force);
        if code != 0 {
          PoppedMeans(was, Now());
          return;
        }
        StillPopping(was, before);
      }
      PopRunOne(Now(), stop, force);
      PoppedMeans(was, Now());
    }

    lemma PopRunOne(st: Stack, stop: nat, force: bool)
      ensures |st.applied| <= stop ==> PopRun(st, stop, force) == (0, st)
      ensures |st.applied| > stop ==>
                var name := st.applied[|st.applied| - 1];
                name in st.backups ==>
                  PopRun(st, stop, force) == if force || Removable(st, name) then PopRun(PopResult(st), stop, force) else (1, st)
    {
    }

    // Where to stop; code 1 if the target is not applied, and 2 if it is the top patch.
    method PopStop(amount: Amount) returns (code: int, stop: nat)
      requires Good() && (amount.Count? ==> amount.n > 0)
      ensures (code, if code == 0 then stop else 0) == PopTarget(amount, applied)
      ensures code == 0 || code == 1 || code == 2
      ensures code == 0 ==> stop < |applied| && PopsTo(amount, applied, stop)
    {
      hide Good, Elements;
      AppliedNoRepeats();
      code, stop := 0, 0;
      if applied == [] {
        return 2, 0;
      }
      match amount {
        case One =>
          stop := |applied| - 1;
        case Count(n) =>
          stop := if |applied| - n < 0 then 0 else |applied| - n;
        case All =>
        case Upto(target) =>
          var found := FindApplied(target);
          if found < 0 {
            return 1, 0;
          }
          IndexIs(applied, target, found);
          if found + 1 >= |applied| {
            return 2, 0;
          }
          stop := found + 1;
      }
    }

    // What is left after some patches were taken off.
    ghost predicate PoppedFrom(was: Stack, st: Stack) {
      && |st.applied| <= |was.applied| && st.applied == was.applied[..|st.applied|]
      && st.files == Bottom(was, |st.applied|)
      && (forall n: nat :: n <= |st.applied| ==> Bottom(st, n) == Bottom(was, n))
      && (forall p :: p in st.applied ==> p in was.backups && p in st.backups && st.backups[p] == was.backups[p])
    }

    lemma PoppedMeans(was: Stack, st: Stack)
      requires PoppedFrom(was, st)
      ensures |st.applied| <= |was.applied| && st.files == Bottom(was, |st.applied|)
      ensures forall n: nat :: n <= |st.applied| ==> Bottom(st, n) == Bottom(was, n)
      ensures forall p :: p in st.applied ==> p in was.backups && p in st.backups && st.backups[p] == was.backups[p]
    {
    }

    lemma StartPopping(was: Stack)
      requires forall p :: p in was.applied ==> p in was.backups
      ensures PoppedFrom(was, was)
    {
      BottomHere(was);
    }

    lemma StillPopping(was: Stack, before: Stack)
      requires before.applied != [] && before.applied[|before.applied| - 1] in before.backups
      requires forall i :: 0 <= i < |before.applied| - 1 ==> before.applied[i] != before.applied[|before.applied| - 1]
      requires PoppedFrom(was, before)
      ensures PoppedFrom(was, PopResult(before)) && |PopResult(before).applied| == |before.applied| - 1
    {
      hide PopResult, Bottom;
      PopBottom(before);
    }

    lemma BottomHere(st: Stack)
      ensures forall n: nat :: n >= |st.applied| ==> Bottom(st, n) == st.files
    {
    }

    lemma PopBottom(st: Stack)
      requires st.applied != [] && st.applied[|st.applied| - 1] in st.backups
      requires forall i :: 0 <= i < |st.applied| - 1 ==> st.applied[i] != st.applied[|st.applied| - 1]
      ensures var st' := PopResult(st);
              && st'.applied == st.applied[..|st.applied| - 1] && st'.files == Bottom(st', |st'.applied|)
              && (forall n: nat :: n < |st.applied| ==> Bottom(st', n) == Bottom(st, n))
              && (forall p :: p in st'.applied ==> (p in st'.backups <==> p in st.backups) && (p in st.backups ==> st'.backups[p] == st.backups[p]))
    {
      var st' := PopResult(st);
      forall n: nat | n < |st.applied| ensures Bottom(st', n) == Bottom(st, n) {
        UnwoundSame(st'.files, st'.applied, st.backups, st'.backups, n);
      }
    }

    method FindApplied(patch: string) returns (idx: int)
      ensures idx == -1 <==> patch !in applied
      ensures idx != -1 ==> 0 <= idx < |applied| && applied[idx] == patch
    {
      idx := 0;
      while idx < |applied|
        invariant 0 <= idx <= |applied|
        invariant patch !in applied[..idx]
      {
        if applied[idx] == patch {
          return;
        }
        idx := idx + 1;
      }
      idx := -1;
    }

    // ----- Changing the series -----

    // The layers as seen from every depth are those of another state.
    ghost predicate SameLayers(was: Stack, depth: nat)
      reads this
    {
      forall n: nat :: n <= depth ==> Bottom(Now(), n) == Bottom(was, n)
    }

    // The series is as it was, with the texts of the patches and what is noted for them.
    ghost predicate SeriesKept(series: seq<string>, patches: map<string, string>, strip: map<string, int>, reversed: set<string>)
      reads this
    {
      this.series == series && this.patches == patches && this.strip == strip && this.reversed == reversed
    }

    /** Puts a new, empty patch on top of those applied. */
    method New(name: string, p: string) returns (code: int)
      requires Good()
      modifies this`series, this`applied, this`backups, this`strip
      ensures Good()
      ensures code == 0 <==> name !in old(series) && p in ["", "0", "1"]
      ensures if code == 0 then
                && series == Inserted(old(series), |old(applied)|, name) && applied == old(applied) + [name]
                && backups == old(backups)[name := map[]]
                && strip == if p == "0" then old(strip)[name := 0] else old(strip)
              else code == 1 && series == old(series) && applied == old(applied) && backups == old(backups) && strip == old(strip)
      ensures SameLayers(old(Now()), |old(applied)|)
    {
      hide Bottom, Good, Elements, NoRepeats;
      GoodParts();
      var idx := FindInSeries(name);
      if idx != -1 {
        return 1;
      }
      if p != "" && p != "0" && p != "1" {
        return 1;
      }
      var top := TopIndex();
      ghost var was := Now();
      NotApplied(name);
      ghost var wasSeries := series;
      series := Inserted(series, top + 1, name);
      if p == "0" {
        strip := strip[name := 0];
      }
      applied := applied + [name];
      backups := backups[name := map[]];
      OnTop(was, name);
      GoodOnTop(was, wasSeries, name);
      code := 0;
    }

    lemma NotApplied(name: string)
      requires Good() && name !in series
      ensures name !in applied && name !in backups && name !in needsRefresh
    {
    }

    lemma GoodParts()
      requires Good()
      ensures NoRepeats(series) && |applied| <= |series| && applied == series[..|applied|]
      ensures backups.Keys == Elements(applied) && needsRefresh <= Elements(applied)
    {
    }

    // A new patch on top of those applied leaves all in order.
    lemma GoodOnTop(was: Stack, wasSeries: seq<string>, name: string)
      requires NoRepeats(wasSeries) && |was.applied| <= |wasSeries| && was.applied == wasSeries[..|was.applied|]
      requires was.backups.Keys == Elements(was.applied) && was.needsRefresh <= Elements(was.applied)
      requires name !in wasSeries && series == Inserted(wasSeries, |was.applied|, name) && applied == was.applied + [name]
      requires backups.Keys == was.backups.Keys + {name} && needsRefresh == was.needsRefresh
      ensures Good()
    {
      InsertedFacts(wasSeries, |was.applied|, name);
      assert Elements(was.applied + [name]) == Elements(was.applied) + {name};
    }

    lemma OnTop(was: Stack, name: string)
      requires name !in was.applied && Now().applied == was.applied + [name] && files == was.files
      requires backups == was.backups[name := map[]]
      ensures SameLayers(was, |was.applied|)
    {
      forall n: nat | n <= |was.applied| ensures Bottom(Now(), n) == Bottom(was, n) {
        OneLayer(files, was.applied, name, backups, n);
        assert Restored(files, Visible(backups[name])) == files;
        UnwoundSame(files, was.applied, was.backups, backups, n);
      }
    }

    // The patch that delete is about, if there is one.
    function DeleteTarget(patch: string, next: bool): Option<string>
      reads this
    {
      if patch != "" then Some(patch)
      else if next then if |applied| < |series| then Some(series[|applied|]) else None
      else if applied == [] then None else Some(applied[|applied| - 1])
    }

    /** Takes a patch out of the series: one that is not applied, or the top one, which is taken off
        first, whether it comes off cleanly or not. */
    method Delete(arg: string, next: bool, remove: bool, backup: bool) returns (code: int)
      requires Good()
      modifies this
      ensures Good()
      ensures var p := old(DeleteTarget(arg, next));
              code == 0 <==> p.Some? && p.value in old(series)
                             && (p.value in old(applied) ==> p.value == old(applied)[|old(applied)| - 1])
      ensures var p := old(DeleteTarget(arg, next));
              if code == 0 then
                && (exists i :: 0 <= i < |old(series)| && old(series)[i] == p.value && series == Without(old(series), i))
                && Now() == if p.value in old(applied) then old(PopResult(Now())) else old(Now())
              else
                code == 1 && series == old(series) && Now() == old(Now()) && patches == old(patches)
      ensures var p := old(DeleteTarget(arg, next));
              code == 0 ==> patches == if !remove || p.value !in old(patches) then old(patches)
                                       else if backup then Moved(old(patches), p.value, p.value + "~")
                                       else old(patches) - {p.value}
      ensures strip == old(strip) && reversed == old(reversed)
    {
      hide PopResult, Elements, NoRepeats, Without, Removable;
      var target := FindDeleteTarget(arg, next);
      if target == None {
        return 1;
      }
      var patch := target.value;
      var idx := FindInSeries(patch);
      if idx == -1 {
        return 1;
      }
      var at := FindApplied(patch);
      if at != -1 {
        if patch != applied[|applied| - 1] {
          return 1;
        }
        AppliedFacts();
        PopShape(Now());
        var popped := PopOne(true);
      }
      DeletedFrom(idx);
      series := Without(series, idx);
      if remove && patch in patches {
        patches := if backup then (patches - {patch})[patch + "~" := patches[patch]] else patches - {patch};
      }
      code := 0;
    }

    method FindDeleteTarget(arg: string, next: bool) returns (target: Option<string>)
      requires Good()
      ensures target == DeleteTarget(arg, next)
    {
      hide Elements, NoRepeats;
      if arg != "" {
        return Some(arg);
      }
      if next {
        var top := TopIndex();
        return if top + 1 >= |series| then None else Some(series[top + 1]);
      }
      target := if applied == [] then None else Some(applied[|applied| - 1]);
    }

    lemma PopShape(st: Stack)
      requires st.applied != [] && st.applied[|st.applied| - 1] in st.backups
      ensures PopResult(st).applied == st.applied[..|st.applied| - 1]
    {
    }

    lemma DeletedFrom(idx: nat)
      requires Good() && idx < |series| && series[idx] !in applied
      ensures NoRepeats(Without(series, idx)) && |applied| <= |Without(series, idx)|
      ensures applied == Without(series, idx)[..|applied|]
    {
      WithoutFacts(series, idx);
      assert forall i :: 0 <= i < |applied| ==> applied[i] == series[i];
      assert |applied| <= idx;
    }

    // The patch at a position of the series goes under a new name, with all that is kept for it.
    method Migrate(idx: nat, name: string)
      requires Good() && idx < |series| && name !in series
      modifies this`series, this`applied, this`strip, this`reversed, this`backups, this`needsRefresh
      ensures Good() && series == old(series)[idx := name]
      ensures applied == if idx < |old(applied)| then old(applied)[idx := name] else old(applied)
      ensures backups == Moved(old(backups), old(series)[idx], name)
      ensures needsRefresh == MovedIn(old(needsRefresh), old(series)[idx], name)
      ensures strip == Moved(old(strip), old(series)[idx], name) && reversed == MovedIn(old(reversed), old(series)[idx], name)
      ensures |applied| == |old(applied)|
      ensures forall n: nat :: Bottom(Now(), n) == Bottom(old(Now()), n)
    {
      hide Bottom, Good, Elements, NoRepeats;
      GoodParts();
      var was := series[idx];
      ghost var before := Now();
      ghost var wasSeries := series;
      NotApplied(name);
      AppliedFacts();
      AppliedAt(idx);
      OnlyForApplied();
      var at := FindApplied(was);
      AppliedNoRepeats();
      if at != -1 {
        applied := applied[at := name];
        backups := (backups - {was})[name := backups[was]];
        needsRefresh := if was in needsRefresh then needsRefresh - {was} + {name} else needsRefresh;
      }
      MoveMetadata(was, name);
      series := series[idx := name];
      SameBottom(before, was, name, idx);
      GoodMigrated(before, wasSeries, idx, name);
    }

    lemma OnlyForApplied()
      requires Good()
      ensures forall p :: p in backups || p in needsRefresh ==> p in applied
    {
    }

    method MoveMetadata(was: string, name: string)
      modifies this`strip, this`reversed
      ensures strip == Moved(old(strip), was, name) && reversed == MovedIn(old(reversed), was, name)
    {
      if was in strip {
        strip := (strip - {was})[name := strip[was]];
      }
      if was in reversed {
        reversed := reversed - {was} + {name};
      }
    }

    // A patch is applied exactly if it is among the first of the series, and at the same place.
    lemma AppliedAt(idx: nat)
      requires Good() && idx < |series|
      ensures series[idx] in applied <==> idx < |applied|
      ensures forall i :: 0 <= i < |applied| && applied[i] == series[idx] ==> i == idx
    {
      assert forall i :: 0 <= i < |applied| ==> applied[i] == series[i];
    }

    lemma RenamedElements(s: seq<string>, idx: nat, name: string)
      requires idx < |s| && name !in s && NoRepeats(s)
      ensures Elements(s[idx := name]) == Elements(s) - {s[idx]} + {name}
    {
      var t := s[idx := name];
      forall x | x in Elements(s) - {s[idx]} + {name} ensures x in t {
        if x == name {
          assert t[idx] == name;
        } else {
          var i :| 0 <= i < |s| && s[i] == x;
          assert t[i] == x;
        }
      }
    }

    lemma AppliedNoRepeats()
      requires Good()
      ensures NoRepeats(applied)
    {
    }

    lemma GoodMigrated(before: Stack, wasSeries: seq<string>, idx: nat, name: string)
      requires NoRepeats(wasSeries) && |before.applied| <= |wasSeries| && before.applied == wasSeries[..|before.applied|]
      requires before.backups.Keys == Elements(before.applied) && before.needsRefresh <= Elements(before.applied)
      requires idx < |wasSeries| && name !in wasSeries && series == wasSeries[idx := name]
      requires if idx < |before.applied| then
                 && applied == before.applied[idx := name] && backups.Keys == before.backups.Keys - {wasSeries[idx]} + {name}
                 && needsRefresh == if wasSeries[idx] in before.needsRefresh then before.needsRefresh - {wasSeries[idx]} + {name}
                                    else before.needsRefresh
               else
                 applied == before.applied && backups == before.backups && needsRefresh == before.needsRefresh
      ensures Good()
    {
      ReplacedFacts(wasSeries, idx, name);
      if idx < |before.applied| {
        RenamedElements(before.applied, idx, name);
      }
    }

    lemma SameBottom(before: Stack, was: string, name: string, idx: nat)
      requires NoRepeats(before.applied) && name !in before.applied && files == before.files
      requires if idx < |before.applied| then
                 && was == before.applied[idx] && was in before.backups
                 && applied == before.applied[idx := name] && backups == (before.backups - {was})[name := before.backups[was]]
               else applied == before.applied && backups == before.backups
      ensures forall n: nat :: Bottom(Now(), n) == Bottom(before, n)
    {
      if idx < |before.applied| {
        forall n: nat ensures Bottom(Now(), n) == Bottom(before, n) {
          RenamedBottom(files, before.applied, before.backups, idx, name, n);
        }
      }
    }

    function RenameTarget(patch: string): Option<string>
      reads this
    {
      if patch != "" then Some(patch) else if applied == [] then None else Some(applied[|applied| - 1])
    }

    /** Renames a patch, applied or not. */
    method Rename(patch: string, name: string) returns (code: int)
      requires Good()
      modifies this
      ensures Good() && |applied| == |old(applied)|
      ensures var p := old(RenameTarget(patch));
              code == 0 <==> p.Some? && p.value in old(series) && name != "" && name !in old(series)
      ensures code == 0 ==> exists i :: 0 <= i < |old(series)| && series == old(series)[i := name]
                                        && old(series)[i] == old(RenameTarget(patch)).value
      ensures code == 0 ==> var was := old(RenameTarget(patch)).value;
                && patches == Moved(old(patches), was, name) && backups == Moved(old(backups), was, name)
                && strip == Moved(old(strip), was, name) && reversed == MovedIn(old(reversed), was, name)
                && needsRefresh == MovedIn(old(needsRefresh), was, name) && files == old(files)
      ensures code != 0 ==> code == 1 && Now() == old(Now()) && SeriesKept(old(series), old(patches), old(strip), old(reversed))
      ensures forall n: nat :: Bottom(Now(), n) == Bottom(old(Now()), n)
    {
      hide Bottom;
      var oldPatch := patch;
      if oldPatch == "" {
        if applied == [] {
          return 1;
        }
        oldPatch := applied[|applied| - 1];
      }
      if name == "" {
        return 1;
      }
      var idx := FindInSeries(oldPatch);
      if idx == -1 {
        return 1;
      }
      var taken := FindInSeries(name);
      if taken != -1 {
        return 1;
      }
      if oldPatch in patches {
        patches := (patches - {oldPatch})[name := patches[oldPatch]];
      }
      Migrate(idx, name);
      code := 0;
    }

    /** Continues the top patch under a new name; the old patch stays as a file outside the series. */
    method Fork(name: string) returns (code: int)
      requires Good()
      modifies this
      ensures Good() && |applied| == |old(applied)|
      ensures code == 0 <==> old(applied) != [] && name !in old(series)
      ensures if code == 0 then
                && series == old(series)[|applied| - 1 := name] && applied == old(applied)[|applied| - 1 := name]
                && patches == Copied(old(patches), old(applied)[|applied| - 1], name)
                && needsRefresh == MovedIn(old(needsRefresh), old(applied)[|applied| - 1], name)
                && backups == Moved(old(backups), old(applied)[|applied| - 1], name)
                && strip == Moved(old(strip), old(applied)[|applied| - 1], name)
                && reversed == MovedIn(old(reversed), old(applied)[|applied| - 1], name) && files == old(files)
              else code == 1 && Now() == old(Now()) && SeriesKept(old(series), old(patches), old(strip), old(reversed))
      ensures forall n: nat :: Bottom(Now(), n) == Bottom(old(Now()), n)
    {
      hide Bottom;
      if applied == [] {
        return 1;
      }
      var patch := applied[|applied| - 1];
      var taken := FindInSeries(name);
      if taken != -1 {
        return 1;
      }
      assert series[|applied| - 1] == patch;
      AppliedAt(|applied| - 1);
      var idx := FindInSeries(patch);
      assert idx == |applied| - 1;
      if patch in patches {
        patches := patches[name := patches[patch]];
      }
      Migrate(idx, name);
      code := 0;
    }

    /** Takes a patch file into the series, after the top patch or, with none applied, at the end; or,
        if forced, over one that is not applied. */
    method Import(name: string, content: string, stripLevel: Option<int>, reverse: bool, force: bool, mode: DupMode)
      returns (code: int)
      requires Good()
      modifies this`series, this`patches, this`strip, this`reversed
      ensures Good()
      ensures code == 0 <==> name !in old(series)
                             || (name !in applied && force && !(mode == Ask && HeadersDiffer(old(PatchText(name)), content)))
      ensures code == 0 ==> patches == old(patches)[name := if name in old(series) then Imported(old(PatchText(name)), content, mode)
                                                            else content]
      ensures code == 0 ==> reversed == if reverse then old(reversed) + {name} else old(reversed) - {name}
      ensures code == 0 ==> strip == if stripLevel.None? || stripLevel.value < 0 then old(strip) - {name}
                                     else if stripLevel.value == 1 then old(strip) else old(strip)[name := stripLevel.value]
      ensures code == 0 ==> series == if name in old(series) then old(series)
                                      else Inserted(old(series), if applied == [] then |old(series)| else |applied|, name)
      ensures code != 0 ==> code == 1 && SeriesKept(old(series), old(patches), old(strip), old(reversed))
    {
      hide NoRepeats, Elements, Inserted, HeadersDiffer, Imported;
      var existing := FindInSeries(name);
      var at := FindApplied(name);
      AppliedInSeries();
      if existing != -1 && at != -1 {
        return 1;
      }
      if existing != -1 && !force {
        return 1;
      }
      var text := content;
      if existing != -1 {
        code, text := MergeHeaders(PatchText(name), content, mode);
        if code != 0 {
          return;
        }
      }
      patches := patches[name := text];
      if stripLevel.Some? && stripLevel.value >= 0 {
        if stripLevel.value != 1 {
          strip := strip[name := stripLevel.value];
        }
      } else {
        strip := strip - {name};
      }
      reversed := if reverse then reversed + {name} else reversed - {name};
      if existing == -1 {
        AddToSeries(name);
      }
      code := 0;
    }

    // The text of a patch; a missing file reads as empty.
    function PatchText(name: string): string
      reads this`patches
    {
      if name in patches then patches[name] else ""
    }

    // What is written over a patch, with the header that is to be kept; code 1 if that is not clear.
    method MergeHeaders(oldContent: string, newContent: string, mode: DupMode) returns (code: int, text: string)
      ensures code == if mode == Ask && HeadersDiffer(oldContent, newContent) then 1 else 0
      ensures code == 0 ==> text == Imported(oldContent, newContent, mode)
    {
      hide HeaderOf, WithHeader;
      code, text := 0, newContent;
      if mode == KeepNew {
        return;
      }
      var oldHeader := ExtractHeader(oldContent);
      var newHeader := ExtractHeader(newContent);
      if mode == Ask {
        if oldHeader != "" && newHeader != "" && oldHeader != newHeader {
          code := 1;
        }
        return;
      }
      var merged := "";
      if mode == KeepOld {
        merged := oldHeader;
      } else if mode == KeepBoth {
        merged := oldHeader;
        if merged != "" && merged[|merged| - 1] != '\n' {
          merged := merged + "\n";
        }
        merged := merged + "---\n" + newHeader;
      }
      text := ReplaceHeader(newContent, merged);
    }

    // A new patch comes after the top one, or last if none is applied.
    method AddToSeries(name: string)
      requires Good() && name !in series
      modifies this`series
      ensures Good()
      ensures series == Inserted(old(series), if applied == [] then |old(series)| else |applied|, name)
    {
      hide NoRepeats, Elements, Inserted;
      InsertedAll(series, name);
      var top := TopIndex();
      if top >= 0 && top + 1 < |series| {
        InsertedFacts(series, top + 1, name);
        series := Inserted(series, top + 1, name);
      } else {
        InsertedFacts(series, |series|, name);
        assert (series + [name])[..|applied|] == series[..|applied|];
        series := series + [name];
      }
    }

    lemma AppliedInSeries()
      requires Good()
      ensures forall p :: p in applied ==> p in series
    {
    }

    // The files of a patch as they are between it and what comes above: the patch applied to its backups.
    ghost function Between(name: string): Files
      reads this
    {
      var backup := if name in backups then Visible(backups[name]) else map[];
      var start := map f | f in backup && backup[f] != [] :: backup[f];
      var made := if name in patches && patches[name] != [] then
                    PatchedBy(patches[name], PatchOptions(StripLevel(name), 2, name in reversed, false, false, false), start).1
                  else start;
      map f | f in backup :: BackupOf(made, f)
    }

    /** Splits what has changed since the top patch was refreshed off into a new patch on top of it.
        What lies below the old top patch stays as it was. */
    method RefreshFork(name: string) returns (code: int)
      requires Good()
      modifies this`series, this`applied, this`strip, this`reversed, this`backups
      ensures Good()
      ensures code == 0 <==> old(applied) != [] && name !in old(series)
      ensures if code == 0 then
                && series == Inserted(old(series), |old(applied)|, name) && applied == old(applied) + [name]
                && backups == old(backups)[name := old(Between(applied[|applied| - 1]))]
                && strip == Copied(old(strip), old(applied)[|old(applied)| - 1], name)
                && reversed == old(reversed) + (if old(applied)[|old(applied)| - 1] in old(reversed) then {name} else {})
              else code == 1 && Now() == old(Now()) && SeriesKept(old(series), old(patches), old(strip), old(reversed))
      ensures code == 0 ==> forall n: nat :: n < |old(applied)| ==> Bottom(Now(), n) == Bottom(old(Now()), n)
    {
      hide Bottom, Between, NoRepeats, Elements, Visible, Good, Inserted, Copied;
      GoodParts();
      if applied == [] {
        return 1;
      }
      var patch := applied[|applied| - 1];
      var taken := FindInSeries(name);
      if taken != -1 {
        return 1;
      }
      ghost var was := Now();
      AppliedFacts();
      NotApplied(name);
      AppliedAt(|applied| - 1);
      BetweenKeys(patch);
      var idx := FindInSeries(patch);
      assert idx == |applied| - 1;
      ghost var wasSeries := series;
      var between := MakeBetween(patch);
      CopyMetadata(patch, name);
      series := Inserted(series, idx + 1, name);
      applied := applied + [name];
      backups := backups[name := between];
      ForkedBottom(was, name, between);
      GoodOnTop(was, wasSeries, name);
      code := 0;
    }

    method CopyMetadata(patch: string, name: string)
      modifies this`strip, this`reversed
      ensures strip == Copied(old(strip), patch, name)
      ensures reversed == old(reversed) + if patch in old(reversed) then {name} else {}
    {
      if patch in strip {
        strip := strip[name := strip[patch]];
      }
      if patch in reversed {
        reversed := reversed + {name};
      }
    }

    method MakeBetween(name: string) returns (between: Files)
      ensures between == Between(name)
    {
      hide PatchedBy, BackupOf, Visible;
      var backup := if name in backups then Visible(backups[name]) else map[];
      var start := map f | f in backup && backup[f] != [] :: backup[f];
      var made := start;
      if name in patches && patches[name] != [] {
        var code;
        code, made := ApplyPatch(patches[name], PatchOptions(StripLevel(name), 2, name in reversed, false, false, false), start);
      }
      between := map f | f in backup :: BackupOf(made, f);
    }

    lemma BetweenKeys(name: string)
      requires name in backups
      ensures Between(name).Keys == Visible(backups[name]).Keys
    {
    }

    lemma ForkedBottom(was: Stack, name: string, between: Files)
      requires was.applied != [] && was.applied[|was.applied| - 1] in was.backups && name !in was.applied
      requires between.Keys == Visible(was.backups[was.applied[|was.applied| - 1]]).Keys
      requires Now().applied == was.applied + [name] && files == was.files && backups == was.backups[name := between]
      ensures forall n: nat :: n < |was.applied| ==> Bottom(Now(), n) == Bottom(was, n)
    {
      hide Unwound, Restored, Visible;
      var patch := was.applied[|was.applied| - 1];
      var below := was.applied[..|was.applied| - 1];
      var backup := Visible(was.backups[patch]);
      VisibleAgain(was.backups[patch], between);
      RestoredTwice(files, between, backup);
      forall n: nat | n < |was.applied| ensures Bottom(Now(), n) == Bottom(was, n) {
        OneLayer(files, was.applied, name, backups, n);
        UnwoundSame(Restored(files, between), was.applied, was.backups, backups, n);
        assert was.applied == below + [patch];
        OneLayer(Restored(files, between), below, patch, was.backups, n);
        OneLayer(files, below, patch, was.backups, n);
      }
    }
  }

  lemma VisibleAgain(backup: Files, between: Files)
    requires between.Keys == Visible(backup).Keys
    ensures Visible(between) == between
  {
    assert forall f :: f in Visible(backup) ==> !Hidden(f);
  }

  // A backup restored over another of the same files hides it.
  lemma RestoredTwice(files: Files, upper: Files, lower: Files)
    requires upper.Keys == lower.Keys
    ensures Restored(Restored(files, upper), lower) == Restored(files, lower)
  {
  }

  // A patch that goes under a new name has the same layers.
  lemma {:induction false} RenamedBottom(files: Files, applied: seq<string>, backups: map<string, Files>, idx: nat, name: string, n: nat)
    requires idx < |applied| && NoRepeats(applied) && name !in applied && applied[idx] in backups
    ensures Unwound(files, applied[idx := name], (backups - {applied[idx]})[name := backups[applied[idx]]], n)
         == Unwound(files, applied, backups, n)
    decreases |applied|
  {
    hide Restored, Visible;
    var was := applied[idx];
    var backups' := (backups - {was})[name := backups[was]];
    if |applied| > n {
      var top := applied[|applied| - 1];
      var below := if top in backups then Restored(files, Visible(backups[top])) else files;
      if idx == |applied| - 1 {
        assert applied[idx := name][..|applied| - 1] == applied[..|applied| - 1];
        UnwoundSame(below, applied[..|applied| - 1], backups', backups, n);
      } else {
        assert applied[idx := name][..|applied| - 1] == applied[..|applied| - 1][idx := name];
        RenamedBottom(below, applied[..|applied| - 1], backups, idx, name, n);
      }
    }
  }

  function Rejects(affected: seq<string>): set<string> {
    set f | f in affected :: f + ".rej"
  }

  function Only(backup: Files, names: set<string>): Files {
    map f | f in backup && f in names :: backup[f]
  }

  lemma RestoredNone(was: Files, backup: Files)
    ensures Restored(was, Only(backup, {})) == was
  {
  }

  lemma OnlyAll(backup: Files)
    ensures Only(backup, backup.Keys) == backup
  {
  }

  lemma RestoredNext(was: Files, backup: Files, names: set<string>, f: string)
    requires f in backup
    ensures RestoredOne(Restored(was, Only(backup, names)), f, backup[f]) == Restored(was, Only(backup, names + {f}))
  {
  }

  // ----- Runs of commands -----

  datatype Command =
    | DoPush(amount: Amount, force: bool, fuzz: int, leaveRejects: bool)
    | DoPop(amount: Amount, force: bool)
    | DoNew(name: string, p: string)
    | DoDelete(patch: string, next: bool, remove: bool, backup: bool)
    | DoRename(patch: string, name: string)
    | DoImport(name: string, content: string, strip: Option<int>, reverse: bool, force: bool, mode: DupMode)
    | DoFork(name: string)
    | DoRefreshFork(name: string)

  predicate ValidCommand(c: Command) {
    (c.DoPush? || c.DoPop?) && c.amount.Count? ==> c.amount.n > 0
  }

  /** Whatever commands are given, the series never has a patch twice, and the applied patches are
      always the first of it. */
  method RunCommands(q: QuiltState, commands: seq<Command>)
    requires q.Good() && forall c :: c in commands ==> ValidCommand(c)
    modifies q
    ensures q.Good()
  {
    hide *;
    for i := 0 to |commands|
      invariant q.Good()
    {
      var c := commands[i];
      var code;
      match c
      case DoPush(amount, force, fuzz, leaveRejects) =>
        CountIsPositive(c);
        code := q.Push(amount, force, fuzz, leaveRejects);
      case DoPop(amount, force) =>
        CountIsPositive(c);
        code := q.Pop(amount, force);
      case DoNew(name, p) => code := q.New(name, p);
      case DoDelete(patch, next, remove, backup) => code := q.Delete(patch, next, remove, backup);
      case DoRename(patch, name) => code := q.Rename(patch, name);
      case DoImport(name, content, strip, reverse, force, mode) =>
        code := q.Import(name, content, strip, reverse, force, mode);
      case DoFork(name) => code := q.Fork(name);
      case DoRefreshFork(name) => code := q.RefreshFork(name);
    }
  }

  lemma CountIsPositive(c: Command)
    requires ValidCommand(c) && (c.DoPush? || c.DoPop?)
    ensures c.amount.Count? ==> c.amount.n > 0
  {
  }

  /** Pushing and popping in any order, with patches that fail along the way, forced or not: if all
      patches are reversible and name no hidden file or reject, and none of the files they name was
      empty, then the layers that no pop has reached are as they were. In particular, back at the lowest
      depth of the run, all files are as they were at the start, rejects aside, if the run started there. */
  method RunStack(q: QuiltState, commands: seq<Command>) returns (lowest: nat)
    requires q.Good() && forall c :: c in commands ==> ValidCommand(c) && (c.DoPush? || c.DoPop?)
    requires q.ProperPatches() && q.NoTargetEmpty(q.files)
    modifies q`applied, q`files, q`backups, q`needsRefresh
    ensures q.Good() && lowest <= |q.applied| && lowest <= |old(q.applied)|
    ensures NoneEmptied(old(q.files), q.files)
    ensures forall n: nat :: n <= lowest ==> Plain(Bottom(q.Now(), n)) == Plain(Bottom(old(q.Now()), n))
    ensures lowest == |old(q.applied)| == |q.applied| ==> q.applied == old(q.applied) && Plain(q.files) == Plain(old(q.files))
  {
    hide QuiltState.Good, QuiltState.ProperPatches, QuiltState.Kept, QuiltState.NoTargetEmpty, NoneEmptied, Plain, Bottom;
    ghost var was := q.Now();
    AppliedIs(q);
    lowest := |q.applied|;
    NoneEmptiedYet(was.files);
    for i := 0 to |commands|
      invariant q.Good() && lowest <= |q.applied| && lowest <= |was.applied|
      invariant q.ProperPatches() && q.NoTargetEmpty(q.files) && NoneEmptied(was.files, q.files)
      invariant forall n: nat :: n <= lowest ==> Plain(Bottom(q.Now(), n)) == Plain(Bottom(was, n))
    {
      var c := commands[i];
      ghost var before := q.Now();
      var code;
      if c.DoPush? {
        code := q.Push(c.amount, c.force, c.fuzz, c.leaveRejects);
        q.KeptMeans(before, |before.applied|);
      } else {
        code := q.Pop(c.amount, c.force);
        UnwoundNoneEmptied(before.files, before.applied, before.backups, |q.applied|);
        BottomIs(before, |q.applied|);
        lowest := if |q.applied| < lowest then |q.applied| else lowest;
      }
      q.StillNoneEmpty(before.files, q.files);
      NoneEmptiedSince(was.files, before.files, q.files);
    }
    q.BottomHere(was);
    q.BottomHere(q.Now());
    AppliedIs(q);
    assert Plain(Bottom(q.Now(), lowest)) == Plain(Bottom(was, lowest));
  }

  lemma NoneEmptiedYet(files: Files)
    ensures NoneEmptied(files, files)
  {
  }

  lemma NoneEmptiedSince(was: Files, before: Files, files: Files)
    requires NoneEmptied(was, before) && NoneEmptied(before, files)
    ensures NoneEmptied(was, files)
  {
    hide IsReject;
  }

  lemma BottomIs(st: Stack, n: nat)
    ensures Bottom(st, n) == Unwound(st.files, st.applied, st.backups, n)
  {
  }

  lemma AppliedIs(q: QuiltState)
    requires q.Good()
    ensures |q.applied| <= |q.series| && q.applied == q.series[..|q.applied|]
  {
  }

  // Taking patches off empties no file: an empty backup removes the file.
  lemma {:induction false} UnwoundNoneEmptied(files: Files, applied: seq<string>, backups: map<string, Files>, n: nat)
    ensures NoneEmptied(files, Unwound(files, applied, backups, n))
    decreases |applied|
  {
    hide IsReject, Visible;
    if |applied| > n {
      var name := applied[|applied| - 1];
      var next := if name in backups then Restored(files, Visible(backups[name])) else files;
      UnwoundNoneEmptied(next, applied[..|applied| - 1], backups, n);
    }
  }
}
