/** Files, the backups of them that an applied patch keeps, and what restoring the backups brings back. */
module QuiltFiles {
  import opened Text
  import opened PatchOutcome

  // ----- The files a patch is about -----

  predicate Blank(c: char) {
    c == ' ' || c == '\t' || c == '\r' || c == '\n'
  }

  function TrimFront(s: string): (r: string)
    ensures |r| <= |s|
  {
    if s != [] && Blank(s[0]) then TrimFront(s[1..]) else s
  }

  function TrimBack(s: string): string {
    if s != [] && Blank(s[|s| - 1]) then TrimBack(s[..|s| - 1]) else s
  }

  // Drops so many leading components of a path, as far as it has them.
  function StripComponents(f: string, n: int): string
    decreases n
  {
    if n <= 0 || f == [] then f
    else
      var slash := FindChar(f, '/', 0);
      StripComponents(if slash >= 0 then f[slash + 1..] else f, n - 1)
  }

  // The file a line names as the new one, or nothing.
  function TargetOf(line: string, strip: int): string {
    if !StartsWith(line, "+++ ") || StartsWith(line[4..], DEV_NULL) then []
    else
      var rest := line[4..];
      var tab := FindChar(rest, '\t', 0);
      StripComponents(TrimBack(TrimFront(if tab >= 0 then rest[..tab] else rest)), strip)
  }

  function Targets(lines: seq<string>, strip: int): seq<string> {
    if lines == [] then []
    else
      var n := |lines| - 1;
      var f := TargetOf(lines[n], strip);
      Targets(lines[..n], strip) + if f == [] then [] else [f]
  }

  function TargetsOf(content: string, strip: int): seq<string> {
    Targets(DropCrAll(LinesOf(content)), strip)
  }

  method ParsePatchFiles(content: string, strip: int) returns (files: seq<string>)
    ensures files == TargetsOf(content, strip)
  {
    files := [];
    var lines := SplitLines(content);
    var i := 0;
    while i < |lines|
      invariant 0 <= i <= |lines|
      invariant files == Targets(lines[..i], strip)
    {
      assert lines[..i + 1][..i] == lines[..i];
      var f := TargetOf(lines[i], strip);
      if f != [] {
        files := files + [f];
      }
      i := i + 1;
    }
    assert lines[..i] == lines;
  }

  // ----- Backing up and restoring -----

  function BaseName(f: string): (base: string)
    decreases |f|
  {
    var slash := FindChar(f, '/', 0);
    if slash >= 0 then BaseName(f[slash + 1..]) else f
  }

  // Files of the backup directory that a patch keeps for itself.
  predicate Hidden(f: string) {
    BaseName(f) != [] && BaseName(f)[0] == '.'
  }

  // An empty backup stands for a file that did not exist.
  function BackupOf(files: Files, f: string): string {
    if f in files then files[f] else []
  }

  function BackedUp(files: Files, affected: seq<string>): Files {
    map f | f in affected :: BackupOf(files, f)
  }

  function RestoredOne(files: Files, f: string, content: string): Files {
    if content == [] then files - {f} else files[f := content]
  }

  // What restoring all of a backup makes of the files.
  function Restored(files: Files, backup: Files): Files {
    map f | f in files.Keys + backup.Keys && (f in backup ==> backup[f] != []) :: if f in backup then backup[f] else files[f]
  }

  function Visible(backup: Files): Files {
    map f | f in backup && !Hidden(f) :: backup[f]
  }

  predicate SameAt(files: Files, files': Files, f: string) {
    (f in files <==> f in files') && (f in files ==> files[f] == files'[f])
  }

  // A file that exists and is empty cannot be told from one that does not exist.
  predicate EmptyAt(files: Files, f: string) {
    f in files && files[f] == []
  }

  lemma SameFiles(files: Files, files': Files)
    requires forall f :: SameAt(files, files', f)
    ensures files == files'
  {
    assert forall f :: f in files ==> SameAt(files, files', f);
    assert forall f :: f in files' ==> SameAt(files, files', f);
  }

  /** Whatever has become of the files in between, restoring a backup brings a file that was backed
      up back to what it was exactly if it was not an empty file then; and it leaves any other file
      as it has become. */
  lemma RestoresExactly(files: Files, after: Files, affected: seq<string>, f: string)
    ensures var restored := Restored(after, BackedUp(files, affected));
            if f in affected then SameAt(files, restored, f) <==> !EmptyAt(files, f)
            else SameAt(after, restored, f)
  {
  }

  /** Taking a patch off again undoes it exactly if none of the files backed up for it was empty before,
      and every other file, which is one it did not name or one with a hidden name, is as it was. */
  lemma PopUndoesPush(files: Files, after: Files, affected: seq<string>)
    ensures Restored(after, Visible(BackedUp(files, affected))) == files <==>
            forall f :: if f in affected && !Hidden(f) then !EmptyAt(files, f) else SameAt(files, after, f)
  {
    hide Hidden;
    var restored := Restored(after, Visible(BackedUp(files, affected)));
    forall f
      ensures SameAt(files, restored, f) <==> if f in affected && !Hidden(f) then !EmptyAt(files, f) else SameAt(files, after, f)
    {
    }
    if forall f :: SameAt(files, restored, f) {
      SameFiles(files, restored);
    }
  }

  // ----- The layers -----

  // Rejected hunks are written beside the files and are not among those looked after.
  predicate IsReject(f: string) {
    EndsWith(f, ".rej")
  }

  function Plain(files: Files): Files {
    map f | f in files && !IsReject(f) :: files[f]
  }

  // The files with all patches but the first n taken off.
  function Unwound(files: Files, applied: seq<string>, backups: map<string, Files>, n: nat): Files
    decreases |applied|
  {
    if |applied| <= n then files
    else
      var name := applied[|applied| - 1];
      Unwound(if name in backups then Restored(files, Visible(backups[name])) else files, applied[..|applied| - 1], backups, n)
  }

  // Backups of patches that are not applied do not matter.
  lemma {:induction false} UnwoundSame(files: Files, applied: seq<string>, backups: map<string, Files>,
                                       backups': map<string, Files>, n: nat)
    requires forall p :: p in applied ==> (p in backups <==> p in backups') && (p in backups ==> backups[p] == backups'[p])
    ensures Unwound(files, applied, backups, n) == Unwound(files, applied, backups', n)
    decreases |applied|
  {
    if |applied| > n {
      var name := applied[|applied| - 1];
      UnwoundSame(if name in backups then Restored(files, Visible(backups[name])) else files,
                  applied[..|applied| - 1], backups, backups', n);
    }
  }
}
