/** The text before the first diff of a patch, and putting another in its place. */
module QuiltHeaders {
  import opened Text

  // A line that starts a diff.
  predicate StartsDiff(line: string) {
    StartsWith(line, "Index:") || StartsWith(line, "--- ") || StartsWith(line, "diff ") || StartsWith(line, "===")
  }

  // Where the first diff starts.
  function DiffAt(lines: seq<string>): (i: nat)
    ensures i <= |lines|
  {
    if lines == [] || StartsDiff(lines[0]) then 0 else 1 + DiffAt(lines[1..])
  }

  function PatchLines(content: string): seq<string> {
    DropCrAll(LinesOf(content))
  }

  function HeaderOf(content: string): string {
    TextOf(PatchLines(content)[..DiffAt(PatchLines(content))], true)
  }

  function DiffOf(content: string): seq<string> {
    PatchLines(content)[DiffAt(PatchLines(content))..]
  }

  function Terminated(header: string): string {
    if header != "" && header[|header| - 1] != '\n' then header + "\n" else header
  }

  function WithHeader(content: string, header: string): string {
    Terminated(header) + TextOf(DiffOf(content), true)
  }

  lemma {:induction false} DiffAtIs(lines: seq<string>, i: nat)
    requires i <= |lines| && (forall k :: 0 <= k < i ==> !StartsDiff(lines[k])) && (i < |lines| ==> StartsDiff(lines[i]))
    ensures DiffAt(lines) == i
    decreases i
  {
    hide StartsDiff;
    if i > 0 {
      DiffAtIs(lines[1..], i - 1);
    }
  }

  lemma {:induction false} DiffAtMeans(lines: seq<string>)
    ensures forall k :: 0 <= k < DiffAt(lines) ==> !StartsDiff(lines[k])
    ensures DiffAt(lines) < |lines| ==> StartsDiff(lines[DiffAt(lines)])
  {
    hide StartsDiff;
    if lines != [] && !StartsDiff(lines[0]) {
      DiffAtMeans(lines[1..]);
    }
  }

  method ExtractHeader(content: string) returns (header: string)
    ensures header == HeaderOf(content)
  {
    hide StartsDiff, TextOf, LinesOf, DropCrAll, DiffAt;
    var lines := SplitLines(content);
    header := "";
    NoText();
    var i := 0;
    while i < |lines| && !StartsDiff(lines[i])
      invariant 0 <= i <= |lines| && header == TextOf(lines[..i], true)
      invariant forall k :: 0 <= k < i ==> !StartsDiff(lines[k])
    {
      assert lines[..i + 1] == lines[..i] + [lines[i]];
      TextOfAppend(lines[..i], lines[i]);
      header := header + lines[i] + "\n";
      i := i + 1;
    }
    DiffAtIs(lines, i);
  }

  lemma NoText()
    ensures TextOf([], true) == ""
  {
  }

  method ReplaceHeader(content: string, newHeader: string) returns (result: string)
    ensures result == WithHeader(content, newHeader)
  {
    hide StartsDiff, TextOf, LinesOf, DropCrAll, DiffAt;
    var lines := SplitLines(content);
    var start := 0;
    while start < |lines| && !StartsDiff(lines[start])
      invariant 0 <= start <= |lines|
      invariant forall k :: 0 <= k < start ==> !StartsDiff(lines[k])
    {
      start := start + 1;
    }
    DiffAtIs(lines, start);
    result := newHeader;
    if result != "" && result[|result| - 1] != '\n' {
      result := result + "\n";
    }
    ghost var head := result;
    NoText();
    assert lines[start..start] == [];
    for i := start to |lines|
      invariant result == head + TextOf(lines[start..i], true)
    {
      assert lines[start..i + 1] == lines[start..i] + [lines[i]];
      TextOfAppend(lines[start..i], lines[i]);
      result := result + lines[i] + "\n";
    }
    assert lines[start..|lines|] == lines[start..];
  }

  // ----- What is replaced and what is not -----

  // Lines of a header as it is read: none starts a diff.
  ghost predicate HeaderLines(lines: seq<string>) {
    NoChar(lines, '\n') && NoneEndsInCr(lines) && forall k :: 0 <= k < |lines| ==> !StartsDiff(lines[k])
  }

  // No line of the diff has a carriage return at its end.
  ghost predicate CleanDiff(content: string) {
    NoneEndsInCr(DiffOf(content))
  }

  lemma LinesAreWhole(content: string)
    ensures NoChar(PatchLines(content), '\n')
  {
    LinesHaveNo(content, '\n');
  }

  /** Replacing the header of a patch by these lines leaves the diff as it is, and the lines are the header
      that is read then. */
  lemma HeaderReplaced(content: string, lines: seq<string>)
    requires HeaderLines(lines) && CleanDiff(content)
    ensures DiffOf(WithHeader(content, TextOf(lines, true))) == DiffOf(content)
    ensures HeaderOf(WithHeader(content, TextOf(lines, true))) == TextOf(lines, true)
  {
    hide StartsDiff, TextOf, LinesOf, DropCrAll, DiffAt;
    var diff := DiffOf(content);
    var all := lines + diff;
    LinesAreWhole(content);
    DiffAtMeans(PatchLines(content));
    HeaderEnds(lines);
    TextOfJoined(lines, diff);
    assert NoChar(all, '\n') && NoneEndsInCr(all);
    LinesOfText(all, true);
    NothingToDrop(all);
    DiffAtIs(all, |lines|);
    assert all[..|lines|] == lines && all[|lines|..] == diff;
  }

  lemma {:induction false} HeaderEnds(lines: seq<string>)
    ensures Terminated(TextOf(lines, true)) == TextOf(lines, true)
  {
    if |lines| > 1 {
      HeaderEnds(lines[1..]);
    }
  }

  /** Both headers, one after the other, are a header: the line between them does not start a diff. */
  lemma BothHeaders(s: seq<string>, t: seq<string>)
    requires HeaderLines(s) && HeaderLines(t)
    ensures HeaderLines(s + ["---"] + t)
    ensures TextOf(s + ["---"] + t, true) == TextOf(s, true) + "---\n" + TextOf(t, true)
  {
    hide TextOf;
    TextOfJoined(s + ["---"], t);
    TextOfJoined(s, ["---"]);
    OneText("---");
    RuleStartsNoDiff();
  }

  lemma RuleStartsNoDiff()
    ensures !StartsDiff("---")
  {
    OtherStart("---", "Index:");
    OtherStart("---", "diff ");
    OtherStart("---", "===");
    assert |"---"| < |"--- "|;
  }

  lemma OtherStart(s: string, prefix: string)
    requires s != [] && prefix != [] && s[0] != prefix[0]
    ensures !StartsWith(s, prefix)
  {
    assert |prefix| <= |s| ==> s[..|prefix|][0] == s[0];
  }

  lemma OneText(line: string)
    ensures TextOf([line], true) == line + "\n"
  {
  }

  // ----- Importing over a patch -----

  // Which header to keep: none was asked for, or that of the new patch, of the old one, both or neither.
  datatype DupMode = Ask | KeepNew | KeepOld | KeepBoth | KeepNone

  // Two headers between which there is no choice without being asked for.
  predicate HeadersDiffer(oldContent: string, newContent: string) {
    HeaderOf(oldContent) != "" && HeaderOf(newContent) != "" && HeaderOf(oldContent) != HeaderOf(newContent)
  }

  function MergedHeader(oldContent: string, newContent: string, mode: DupMode): string {
    match mode
    case KeepOld => HeaderOf(oldContent)
    case KeepBoth => Terminated(HeaderOf(oldContent)) + "---\n" + HeaderOf(newContent)
    case _ => ""
  }

  function Imported(oldContent: string, newContent: string, mode: DupMode): string {
    if mode == Ask || mode == KeepNew then newContent
    else WithHeader(newContent, MergedHeader(oldContent, newContent, mode))
  }

  /** Whatever header is kept, the imported patch has the diff of the new one. */
  lemma ImportedDiff(oldContent: string, newContent: string, mode: DupMode)
    requires CleanDiff(newContent) && NoneEndsInCr(PatchLines(oldContent)) && NoneEndsInCr(PatchLines(newContent))
    ensures DiffOf(Imported(oldContent, newContent, mode)) == DiffOf(newContent)
    ensures mode != Ask && mode != KeepNew ==>
              HeaderOf(Imported(oldContent, newContent, mode)) == MergedHeader(oldContent, newContent, mode)
  {
    hide TextOf, LinesOf, DropCrAll, DiffAt, CleanDiff;
    var s, t := PatchLines(oldContent)[..DiffAt(PatchLines(oldContent))], PatchLines(newContent)[..DiffAt(PatchLines(newContent))];
    OwnHeader(oldContent);
    OwnHeader(newContent);
    NoText();
    HeaderEnds(s);
    BothHeaders(s, t);
    HeaderReplaced(newContent, s);
    HeaderReplaced(newContent, s + ["---"] + t);
    HeaderReplaced(newContent, []);
  }

  lemma OwnHeader(content: string)
    requires NoneEndsInCr(PatchLines(content))
    ensures HeaderLines(PatchLines(content)[..DiffAt(PatchLines(content))])
  {
    hide StartsDiff, LinesOf, DropCrAll, DiffAt;
    LinesAreWhole(content);
    DiffAtMeans(PatchLines(content));
  }
}
