/** Reading a unified diff: its files, hunks and hunk bodies. The functions follow the loops of the
    parser one round at a time; the methods are those loops. */
module PatchParser {
  import opened Common
  import opened Text
  import opened Unified

  datatype PatchHunk = PatchHunk(oldStart: int, oldCount: int, newStart: int, newCount: int,
                                 lines: seq<string>, oldNoNewline: bool, newNoNewline: bool)

  datatype PatchFile = PatchFile(oldPath: string, newPath: string, targetPath: string,
                                 isCreation: bool, isDeletion: bool, hunks: seq<PatchHunk>)

  // ----- Paths -----

  function SkipSlashes(p: string): string {
    if p != [] && p[0] == '/' then SkipSlashes(p[1..]) else p
  }

  // Drops leading path components; adjacent slashes count as one, and a last component stays.
  function StripPath(path: string, strip: int): string
    decreases strip
  {
    if strip <= 0 || path == [] then path
    else
      var slash := FindChar(path, '/', 0);
      if slash < 0 then path else StripPath(SkipSlashes(path[slash + 1..]), strip - 1)
  }

  function TrimRight(s: string): string {
    if s != [] && (s[|s| - 1] == ' ' || s[|s| - 1] == '\r') then TrimRight(s[..|s| - 1]) else s
  }

  // The file name of a header line: without a tab and what follows, and without trailing blanks.
  function ExtractPath(rest: string): string {
    var tab := FindChar(rest, '\t', 0);
    TrimRight(if tab >= 0 then rest[..tab] else rest)
  }

  // The new path, unless the patch deletes or the old one is shorter and not a backup.
  function TargetPath(rawOld: string, rawNew: string, strip: int): string {
    var old', new' := StripPath(rawOld, strip), StripPath(rawNew, strip);
    if rawOld == DEV_NULL then new'
    else if rawNew == DEV_NULL then old'
    else if EndsWith(old', ".orig") || |new'| <= |old'| then new'
    else old'
  }

  // What the two header lines say, with the sides exchanged for a reverse patch.
  function FileOf(oldLine: string, newLine: string, strip: int, reverse: bool): PatchFile
    requires |oldLine| >= 4 && |newLine| >= 4
  {
    var rawOld := ExtractPath(if reverse then newLine[4..] else oldLine[4..]);
    var rawNew := ExtractPath(if reverse then oldLine[4..] else newLine[4..]);
    PatchFile(rawOld, rawNew, TargetPath(rawOld, rawNew, strip), rawOld == DEV_NULL, rawNew == DEV_NULL, [])
  }

  // ----- Hunk headers -----

  datatype LineRange = LineRange(start: int, count: int)

  // The old range, and where the '+' of the new one stands.
  function ParseOldRange(hdr: string): (r: Option<(LineRange, nat)>)
    requires |hdr| >= 3
    ensures r.Some? ==> r.value.1 < |hdr|
  {
    var at1 := FindChar(hdr, '-', 3);
    if at1 < 0 then None
    else OldRangeAt(hdr, at1 + 1, FindChar(hdr, ',', at1 + 1), FindChar(hdr, ' ', at1 + 1), FindChar(hdr, '+', at1 + 1))
  }

  predicate FoundFrom(hdr: string, pos: nat, at: int) {
    at == -1 || pos <= at < |hdr|
  }

  // The old range from pos on, given where the next comma, space and plus sign stand.
  function OldRangeAt(hdr: string, pos: nat, comma: int, space: int, plus: int): (r: Option<(LineRange, nat)>)
    requires FoundFrom(hdr, pos, comma) && FoundFrom(hdr, pos, space) && FoundFrom(hdr, pos, plus)
    ensures r.Some? ==> r.value.1 < |hdr|
  {
    if plus < 0 then None
    else if comma >= 0 && comma < plus && plus - comma >= 2 then
      Some((LineRange(ParseInt(hdr[pos..comma]), ParseInt(hdr[comma + 1..plus - 1])), plus))
    else if space >= 0 && space < plus then
      Some((LineRange(ParseInt(hdr[pos..space]), 1), plus))
    else None
  }

  function ParseNewRange(hdr: string, plus: nat): Option<LineRange>
    requires plus < |hdr|
  {
    var pos := plus + 1;
    var comma := FindChar(hdr, ',', pos);
    var found := FindChar(hdr, ' ', pos);
    var endAt := if found < 0 then |hdr| else found;
    if endAt <= pos then None
    else if comma >= 0 && comma < endAt then
      Some(LineRange(ParseInt(hdr[pos..comma]), ParseInt(hdr[comma + 1..endAt])))
    else Some(LineRange(ParseInt(hdr[pos..endAt]), 1))
  }

  // A hunk with its ranges and no lines yet; nothing if the line is no hunk header.
  function ParseHeader(hdr: string, reverse: bool): Option<PatchHunk>
    requires |hdr| >= 3
  {
    match ParseOldRange(hdr)
    case None => None
    case Some((o, plus)) =>
      match ParseNewRange(hdr, plus)
      case None => None
      case Some(n) =>
        Some(if reverse then PatchHunk(n.start, n.count, o.start, o.count, [], false, false)
             else PatchHunk(o.start, o.count, n.start, n.count, [], false, false))
  }

  // ----- Hunk bodies -----

  datatype Body = Body(hunk: PatchHunk, oldSeen: int, newSeen: int)

  // A marker belongs to the side or sides of the line before it.
  function MarkHunk(h: PatchHunk): PatchHunk {
    if h.lines == [] || h.lines[|h.lines| - 1] == [] then h
    else
      var prefix := h.lines[|h.lines| - 1][0];
      if prefix == '-' then h.(oldNoNewline := true)
      else if prefix == '+' then h.(newNoNewline := true)
      else h.(oldNoNewline := true, newNoNewline := true)
  }

  // The side a line counts for, exchanged for a reverse patch.
  function ActualPrefix(prefix: char, reverse: bool): char {
    if reverse && prefix == '-' then '+' else if reverse && prefix == '+' then '-' else prefix
  }

  // Takes one more line into the hunk, or nothing if the hunk ends before it.
  function TakeLine(b: Body, ln: string, reverse: bool): Option<Body> {
    var h := b.hunk;
    if StartsWith(ln, MARKER) || StartsWith(ln, MARKER_LOWER) then
      Some(b.(hunk := MarkHunk(h)))
    else if ln == [] then
      if b.oldSeen >= h.oldCount && b.newSeen >= h.newCount then None
      else Some(Body(h.(lines := h.lines + [" "]), b.oldSeen + 1, b.newSeen + 1))
    else if ln[0] == ' ' then
      if b.oldSeen >= h.oldCount && b.newSeen >= h.newCount then None
      else Some(Body(h.(lines := h.lines + [ln]), b.oldSeen + 1, b.newSeen + 1))
    else if ActualPrefix(ln[0], reverse) == '-' then
      if b.oldSeen >= h.oldCount then None
      else Some(Body(h.(lines := h.lines + ["-" + ln[1..]]), b.oldSeen + 1, b.newSeen))
    else if ActualPrefix(ln[0], reverse) == '+' then
      if b.newSeen >= h.newCount then None
      else Some(Body(h.(lines := h.lines + ["+" + ln[1..]]), b.oldSeen, b.newSeen + 1))
    else None
  }

  // The finished hunk and the line after it.
  function BodyFrom(lines: seq<string>, i: nat, b: Body, reverse: bool): (r: (PatchHunk, nat))
    requires i <= |lines|
    ensures i <= r.1 <= |lines|
    decreases |lines| - i
  {
    if i >= |lines| then (b.hunk, i)
    else
      match TakeLine(b, lines[i], reverse)
      case None => (b.hunk, i)
      case Some(b') => BodyFrom(lines, i + 1, b', reverse)
  }

  // The hunks of a file; lines that look like headers but are none are passed over.
  function HunksFrom(lines: seq<string>, i: nat, hunks: seq<PatchHunk>, reverse: bool): (r: (seq<PatchHunk>, nat))
    requires i <= |lines|
    ensures i <= r.1 <= |lines|
    decreases |lines| - i
  {
    if i >= |lines| || !StartsWith(lines[i], "@@ ") then (hunks, i)
    else
      match ParseHeader(lines[i], reverse)
      case None => HunksFrom(lines, i + 1, hunks, reverse)
      case Some(h) =>
        var (h', next) := BodyFrom(lines, i + 1, Body(h, 0, 0), reverse);
        HunksFrom(lines, next, hunks + [h'], reverse)
  }

  predicate FileHeaderAt(lines: seq<string>, i: nat) {
    i + 1 < |lines| && StartsWith(lines[i], "--- ") && StartsWith(lines[i + 1], "+++ ")
  }

  function FilesFrom(lines: seq<string>, i: nat, files: seq<PatchFile>, strip: int, reverse: bool): seq<PatchFile>
    decreases |lines| - i
  {
    if i >= |lines| then files
    else if !FileHeaderAt(lines, i) then FilesFrom(lines, i + 1, files, strip, reverse)
    else
      var pf := FileOf(lines[i], lines[i + 1], strip, reverse);
      var (hunks, next) := HunksFrom(lines, i + 2, [], reverse);
      FilesFrom(lines, next, files + [pf.(hunks := hunks)], strip, reverse)
  }

  function Parsed(text: string, strip: int, reverse: bool): seq<PatchFile> {
    FilesFrom(DropCrAll(LinesOf(text)), 0, [], strip, reverse)
  }

  method ParseBody(lines: seq<string>, start: nat, h: PatchHunk, reverse: bool) returns (hunk: PatchHunk, i: nat)
    requires start <= |lines|
    ensures (hunk, i) == BodyFrom(lines, start, Body(h, 0, 0), reverse)
    ensures start <= i <= |lines|
  {
    i := start;
    var b := Body(h, 0, 0);
    while i < |lines|
      invariant start <= i <= |lines|
      invariant BodyFrom(lines, start, Body(h, 0, 0), reverse) == BodyFrom(lines, i, b, reverse)
    {
      match TakeLine(b, lines[i], reverse) {
        case None =>
          break;
        case Some(b') =>
          b := b';
          i := i + 1;
      }
    }
    hunk := b.hunk;
  }

  method ParseHunks(lines: seq<string>, start: nat, reverse: bool) returns (hunks: seq<PatchHunk>, i: nat)
    requires start <= |lines|
    ensures (hunks, i) == HunksFrom(lines, start, [], reverse)
    ensures start <= i <= |lines|
  {
    hide BodyFrom, ParseHeader;
    i := start;
    hunks := [];
    while i < |lines| && StartsWith(lines[i], "@@ ")
      invariant start <= i <= |lines|
      invariant HunksFrom(lines, start, [], reverse) == HunksFrom(lines, i, hunks, reverse)
      decreases |lines| - i
    {
      match ParseHeader(lines[i], reverse) {
        case None =>
          i := i + 1;
        case Some(h) =>
          var hunk;
          hunk, i := ParseBody(lines, i + 1, h, reverse);
          hunks := hunks + [hunk];
      }
    }
  }

  /** All files a patch describes. */
  method ParsePatch(text: string, strip: int, reverse: bool) returns (files: seq<PatchFile>)
    ensures files == Parsed(text, strip, reverse)
  {
    hide HunksFrom, FileOf;
    files := [];
    var lines := SplitLines(text);
    var i := 0;
    while i < |lines|
      invariant 0 <= i <= |lines|
      invariant FilesFrom(lines, 0, [], strip, reverse) == FilesFrom(lines, i, files, strip, reverse)
      decreases |lines| - i
    {
      if !FileHeaderAt(lines, i) {
        i := i + 1;
      } else {
        var pf := FileOf(lines[i], lines[i + 1], strip, reverse);
        var hunks;
        hunks, i := ParseHunks(lines, i + 2, reverse);
        files := files + [pf.(hunks := hunks)];
      }
    }
  }
}
