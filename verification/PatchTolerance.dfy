/** What a patch may look like besides the way it is printed: all of these are read the same. */
module PatchTolerance {
  import opened Text
  import opened Unified
  import opened PatchParser
  import opened ParsePrinted

  // ----- Lines that are read alike -----

  /** The same line, an empty one of context that has lost its blank, or the marker in lower case. */
  predicate ReadAlike(line: string, other: string) {
    || other == line
    || (line == " " && other == "")
    || (line == "\\ No newline at end of file" && other == "\\ no newline at end of file")
  }

  predicate AllAlike(lines: seq<string>, others: seq<string>) {
    |lines| == |others| && forall i :: 0 <= i < |lines| ==> ReadAlike(lines[i], others[i])
  }

  lemma TakenAlike(b: Body, line: string, other: string, reverse: bool)
    requires ReadAlike(line, other)
    ensures TakeLine(b, line, reverse) == TakeLine(b, other, reverse)
  {
    if line == " " {
      assert |" "| < |MARKER| && |" "| < |MARKER_LOWER|;
    } else if other != line {
      MarkersStart();
    }
  }

  lemma MarkersStart()
    ensures StartsWith("\\ No newline at end of file", MARKER) && StartsWith("\\ no newline at end of file", MARKER_LOWER)
  {
    assert MARKER[..|MARKER|] == MARKER && MARKER_LOWER[..|MARKER_LOWER|] == MARKER_LOWER;
  }

  lemma StartsAlike(line: string, other: string, prefix: string)
    requires ReadAlike(line, other) && prefix != "" && prefix[0] != ' ' && prefix[0] != '\\'
    ensures StartsWith(line, prefix) <==> StartsWith(other, prefix)
  {
    assert |prefix| <= |line| ==> line[..|prefix|][0] == line[0];
    assert |prefix| <= |other| ==> other[..|prefix|][0] == other[0];
  }

  lemma StartsSame(line: string, other: string)
    requires ReadAlike(line, other)
    ensures StartsWith(line, "@@ ") ==> other == line
    ensures StartsWith(line, "--- ") ==> other == line
    ensures StartsWith(line, "+++ ") ==> other == line
    ensures StartsWith(other, "@@ ") ==> other == line
    ensures StartsWith(other, "--- ") ==> other == line
    ensures StartsWith(other, "+++ ") ==> other == line
  {
    StartsAlike(line, other, "@@ ");
    StartsAlike(line, other, "--- ");
    StartsAlike(line, other, "+++ ");
    hide StartsWith;
    if other != line {
      NoStart(line);
    }
  }

  lemma NoStart(line: string)
    requires line == " " || line == "\\ No newline at end of file"
    ensures !StartsWith(line, "@@ ") && !StartsWith(line, "--- ") && !StartsWith(line, "+++ ")
  {
    OtherStart(line, "@@ ");
    OtherStart(line, "--- ");
    OtherStart(line, "+++ ");
  }

  lemma OtherStart(s: string, prefix: string)
    requires s != "" && prefix != "" && s[0] != prefix[0]
    ensures !StartsWith(s, prefix)
  {
    assert |prefix| <= |s| ==> s[..|prefix|][0] == s[0];
  }

  lemma {:induction false} BodyAlike(lines: seq<string>, others: seq<string>, i: nat, b: Body, reverse: bool)
    requires AllAlike(lines, others) && i <= |lines|
    ensures BodyFrom(lines, i, b, reverse) == BodyFrom(others, i, b, reverse)
    decreases |lines| - i
  {
    hide TakeLine, ReadAlike;
    if i < |lines| {
      TakenAlike(b, lines[i], others[i], reverse);
      if TakeLine(b, lines[i], reverse).Some? {
        BodyAlike(lines, others, i + 1, TakeLine(b, lines[i], reverse).value, reverse);
      }
    }
  }

  lemma {:induction false} HunksAlike(lines: seq<string>, others: seq<string>, i: nat, done: seq<PatchHunk>, reverse: bool)
    requires AllAlike(lines, others) && i <= |lines|
    ensures HunksFrom(lines, i, done, reverse) == HunksFrom(others, i, done, reverse)
    decreases |lines| - i
  {
    hide BodyFrom, ParseHeader, ReadAlike, StartsWith;
    if i < |lines| {
      StartsSame(lines[i], others[i]);
      if StartsWith(lines[i], "@@ ") {
        HeaderIsLong(lines[i]);
        match ParseHeader(lines[i], reverse) {
          case None => HunksAlike(lines, others, i + 1, done, reverse);
          case Some(h) =>
            BodyAlike(lines, others, i + 1, Body(h, 0, 0), reverse);
            var r := BodyFrom(lines, i + 1, Body(h, 0, 0), reverse);
            HunksAlike(lines, others, r.1, done + [r.0], reverse);
        }
      }
    }
  }

  lemma HeaderIsLong(line: string)
    requires StartsWith(line, "@@ ")
    ensures |line| >= 3
  {
  }

  lemma HeaderAlike(lines: seq<string>, others: seq<string>, i: nat)
    requires AllAlike(lines, others) && i < |lines|
    ensures FileHeaderAt(lines, i) <==> FileHeaderAt(others, i)
    ensures FileHeaderAt(lines, i) ==> i + 1 < |lines| && others[i] == lines[i] && others[i + 1] == lines[i + 1]
  {
    hide ReadAlike, StartsWith;
    StartsSame(lines[i], others[i]);
    if i + 1 < |lines| {
      StartsSame(lines[i + 1], others[i + 1]);
    }
  }

  lemma {:induction false} FilesAlike(lines: seq<string>, others: seq<string>, i: nat, done: seq<PatchFile>, strip: int, reverse: bool)
    requires AllAlike(lines, others)
    ensures FilesFrom(lines, i, done, strip, reverse) == FilesFrom(others, i, done, strip, reverse)
    decreases |lines| - i
  {
    hide HunksFrom, FileOf, AllAlike;
    if i < |lines| {
      SameSize(lines, others);
      HeaderAlike(lines, others, i);
      if FileHeaderAt(lines, i) {
        HunksAlike(lines, others, i + 2, [], reverse);
        var r := HunksFrom(lines, i + 2, [], reverse);
        FilesAlike(lines, others, r.1, done + [FileOf(lines[i], lines[i + 1], strip, reverse).(hunks := r.0)], strip, reverse);
      } else {
        FilesAlike(lines, others, i + 1, done, strip, reverse);
      }
    } else {
      SameSize(lines, others);
    }
  }

  lemma SameSize(lines: seq<string>, others: seq<string>)
    requires AllAlike(lines, others)
    ensures |lines| == |others|
  {
  }

  /** Empty lines of context may have lost their blank, and markers may be in lower case. */
  lemma AlikeParsed(text: string, other: string, strip: int, reverse: bool)
    requires AllAlike(DropCrAll(LinesOf(text)), DropCrAll(LinesOf(other)))
    ensures Parsed(text, strip, reverse) == Parsed(other, strip, reverse)
  {
    FilesAlike(DropCrAll(LinesOf(text)), DropCrAll(LinesOf(other)), 0, [], strip, reverse);
  }

  // ----- Lines before the first file -----

  lemma {:induction false} BodyBehind(junk: seq<string>, lines: seq<string>, i: nat, b: Body, reverse: bool)
    requires i <= |lines|
    ensures var r := BodyFrom(lines, i, b, reverse);
            BodyFrom(junk + lines, |junk| + i, b, reverse) == (r.0, |junk| + r.1)
    decreases |lines| - i
  {
    hide TakeLine;
    if i < |lines| && TakeLine(b, lines[i], reverse).Some? {
      BodyBehind(junk, lines, i + 1, TakeLine(b, lines[i], reverse).value, reverse);
    }
  }

  lemma {:induction false} HunksBehind(junk: seq<string>, lines: seq<string>, i: nat, done: seq<PatchHunk>, reverse: bool)
    requires i <= |lines|
    ensures var r := HunksFrom(lines, i, done, reverse);
            HunksFrom(junk + lines, |junk| + i, done, reverse) == (r.0, |junk| + r.1)
    decreases |lines| - i
  {
    hide BodyFrom, ParseHeader, StartsWith;
    if i < |lines| && StartsWith(lines[i], "@@ ") {
      HeaderIsLong(lines[i]);
      match ParseHeader(lines[i], reverse) {
        case None => HunksBehind(junk, lines, i + 1, done, reverse);
        case Some(h) =>
          BodyBehind(junk, lines, i + 1, Body(h, 0, 0), reverse);
          var r := BodyFrom(lines, i + 1, Body(h, 0, 0), reverse);
          HunksBehind(junk, lines, r.1, done + [r.0], reverse);
      }
    }
  }

  lemma FileHeaderIsLong(lines: seq<string>, i: nat)
    requires FileHeaderAt(lines, i)
    ensures |lines[i]| >= 4 && |lines[i + 1]| >= 4
  {
  }

  lemma {:induction false} FilesBehind(junk: seq<string>, lines: seq<string>, i: nat, done: seq<PatchFile>, strip: int, reverse: bool)
    requires i <= |lines|
    ensures FilesFrom(junk + lines, |junk| + i, done, strip, reverse) == FilesFrom(lines, i, done, strip, reverse)
    decreases |lines| - i
  {
    hide HunksFrom, FileOf, StartsWith;
    if i < |lines| {
      assert FileHeaderAt(junk + lines, |junk| + i) <==> FileHeaderAt(lines, i);
      if FileHeaderAt(lines, i) {
        FileHeaderIsLong(lines, i);
        HunksBehind(junk, lines, i + 2, [], reverse);
        var r := HunksFrom(lines, i + 2, [], reverse);
        FilesBehind(junk, lines, r.1, done + [FileOf(lines[i], lines[i + 1], strip, reverse).(hunks := r.0)], strip, reverse);
      } else {
        FilesBehind(junk, lines, i + 1, done, strip, reverse);
      }
    }
  }

  lemma {:induction false} JunkSkipped(junk: seq<string>, lines: seq<string>, i: nat, strip: int, reverse: bool)
    requires i <= |junk| && forall l :: l in junk ==> !StartsWith(l, "--- ")
    ensures FilesFrom(junk + lines, i, [], strip, reverse) == FilesFrom(junk + lines, |junk|, [], strip, reverse)
    decreases |junk| - i
  {
    hide HunksFrom, FileOf, StartsWith;
    if i < |junk| {
      assert (junk + lines)[i] == junk[i] && junk[i] in junk;
      JunkSkipped(junk, lines, i + 1, strip, reverse);
    }
  }

  /** What stands before the first file, say a description, is passed over. */
  lemma DescriptionSkipped(junk: seq<string>, lines: seq<string>, strip: int, reverse: bool)
    requires forall l :: l in junk ==> !StartsWith(l, "--- ")
    ensures FilesFrom(junk + lines, 0, [], strip, reverse) == FilesFrom(lines, 0, [], strip, reverse)
  {
    hide FilesFrom, StartsWith;
    JunkSkipped(junk, lines, 0, strip, reverse);
    FilesBehind(junk, lines, 0, [], strip, reverse);
  }

  // ----- Headers -----

  /** What follows the ranges of a hunk, say the name of a function, does not matter. */
  lemma SectionIgnored(h: Hunks.Hunk, section: string, reverse: bool)
    ensures |HunkHeader(h)| >= 3
    ensures ParseHeader(HunkHeader(h) + section, reverse) == ParseHeader(HunkHeader(h), reverse)
    ensures StartsWith(HunkHeader(h) + section, "@@ ")
  {
    hide ParseHeader, RangeText, IsRange;
    RangeTextIsRange(h.oldStart, h.oldCount);
    RangeTextIsRange(h.newStart, h.newCount);
    RangesParsed(HunkHeader(h) + section, RangeText(h.oldStart, h.oldCount), RangeText(h.newStart, h.newCount),
                 h.oldStart, h.oldCount, h.newStart, h.newCount, section, reverse);
    HeaderParsed(h, reverse);
  }

  /** Neither does what follows a tab behind the name of a file. */
  lemma TimestampIgnored(path: string, stamp: string)
    requires '\t' !in path
    ensures ExtractPath(path + "\t" + stamp) == ExtractPath(path)
  {
    hide TrimRight;
    var rest := path + "\t" + stamp;
    assert rest[0..|path|] == path == rest[..|path|];
    FoundAt(rest, '\t', 0, |path|);
    assert path[0..] == path;
    NotFound(path, '\t', 0);
  }

  /** Stripping takes one directory after the other off, with all slashes behind it. */
  lemma OneDirectoryOff(dir: string, slashes: string, rest: string, strip: nat)
    requires '/' !in dir && (forall i :: 0 <= i < |slashes| ==> slashes[i] == '/') && (rest != "" ==> rest[0] != '/')
    ensures StripPath(dir + "/" + slashes + rest, strip + 1) == StripPath(rest, strip)
    ensures StripPath(dir, strip) == dir && StripPath(rest, 0) == rest
  {
    var path := dir + "/" + slashes + rest;
    assert path[0..|dir|] == dir;
    FoundAt(path, '/', 0, |dir|);
    assert path[|dir| + 1..] == slashes + rest;
    SlashesSkipped(slashes, rest);
    assert dir[0..] == dir;
    NotFound(dir, '/', 0);
  }

  lemma {:induction false} SlashesSkipped(slashes: string, rest: string)
    requires (forall i :: 0 <= i < |slashes| ==> slashes[i] == '/') && (rest != "" ==> rest[0] != '/')
    ensures SkipSlashes(slashes + rest) == rest
    decreases |slashes|
  {
    if slashes != "" {
      assert (slashes + rest)[1..] == slashes[1..] + rest;
      SlashesSkipped(slashes[1..], rest);
    } else {
      assert slashes + rest == rest;
    }
  }

  /** The file that is patched: the name that is not /dev/null, else the shorter one without its first
      directories, and of two equally long the new one; and the new one if the old one is a backup. */
  lemma TargetChosen(was: string, now: string, strip: int)
    ensures now != "/dev/null" && was == "/dev/null" ==> TargetPath(was, now, strip) == StripPath(now, strip)
    ensures was != "/dev/null" && now == "/dev/null" ==> TargetPath(was, now, strip) == StripPath(was, strip)
    ensures was != "/dev/null" && now != "/dev/null" ==>
              var target, o, n := TargetPath(was, now, strip), StripPath(was, strip), StripPath(now, strip);
              && (target == o || target == n)
              && (EndsWith(o, ".orig") ==> target == n)
              && (!EndsWith(o, ".orig") ==> |target| <= |o| && |target| <= |n|)
              && (|o| == |n| ==> target == n)
  {
  }
}
