/** What the search for a hunk prefers, and what fuzz lets it overlook. */
module PatchSearch {
  import opened Common
  import opened PatchParser
  import opened PatchApply
  import opened PatchOutput
  import opened PatchWindows

  /** The place found is no farther from the guess than any other; and of two equally far it is the one
      behind the guess, not the one before it. */
  lemma NearestFirst(s: Search, maxFuzz: int, pos: int, fuzz: nat, d: nat)
    requires Located(s, maxFuzz, pos, fuzz) && d > 0
    ensures Candidate(s, fuzz, s.guess) ==> pos == s.guess
    ensures Candidate(s, fuzz, s.guess + d) ==> s.guess - d < pos <= s.guess + d
    ensures Candidate(s, fuzz, s.guess - d) ==> s.guess - d <= pos <= s.guess + d
  {
    hide Candidate;
  }

  predicate Blanks(lines: seq<string>) {
    forall i :: 0 <= i < |lines| ==> lines[i] != "" && lines[i][0] == ' '
  }

  predicate Changes(line: string) {
    line == "" || line[0] != ' '
  }

  // A hunk's lines: context, what lies from its first change to its last, and context.
  predicate Framed(lines: seq<string>, before: seq<string>, middle: seq<string>, after: seq<string>) {
    && lines == before + middle + after && Blanks(before) && Blanks(after)
    && middle != [] && Changes(middle[0]) && Changes(middle[|middle| - 1])
  }

  lemma {:induction false} LeadingIs(before: seq<string>, rest: seq<string>)
    requires Blanks(before) && rest != [] && Changes(rest[0])
    ensures LeadingContext(before + rest) == |before|
    decreases |before|
  {
    if before != [] {
      assert (before + rest)[1..] == before[1..] + rest;
      LeadingIs(before[1..], rest);
    } else {
      assert before + rest == rest;
    }
  }

  lemma {:induction false} TrailingIs(rest: seq<string>, after: seq<string>)
    requires Blanks(after) && rest != [] && Changes(rest[|rest| - 1])
    ensures TrailingContext(rest + after) == |after|
    decreases |after|
  {
    if after != [] {
      assert (rest + after)[..|rest + after| - 1] == rest + after[..|after| - 1];
      TrailingIs(rest, after[..|after| - 1]);
    } else {
      assert rest + after == rest;
    }
  }

  lemma {:induction false} BlanksAreOld(lines: seq<string>)
    requires Blanks(lines)
    ensures |Side(lines, '-')| == |lines|
    decreases |lines|
  {
    if lines != [] {
      BlanksAreOld(lines[..|lines| - 1]);
    }
  }

  // The old line j of a pattern stands in the file, if the pattern is at a position.
  predicate StandsAt(file: seq<string>, pos: int, pattern: seq<string>, j: nat)
    requires j < |pattern|
  {
    0 <= pos + j < |file| && file[pos + j] == pattern[j]
  }

  /** With some fuzz so many lines of context may differ at both ends of a hunk, but never a line from its
      first change to its last: a place does for a hunk exactly if all other old lines of it stand there,
      within the file and behind what is used up. */
  lemma FuzzMeans(file: seq<string>, h: PatchHunk, st: PlaceState, before: seq<string>, middle: seq<string>, after: seq<string>,
                  fuzz: nat, pos: int)
    requires Framed(h.lines, before, middle, after)
    ensures |before| + |after| <= |Pattern(h)|
    ensures var pf, sf := Min(fuzz, |before|), Min(fuzz, |after|);
            Candidate(SearchFor(file, h, st), fuzz, pos) <==>
              && 0 <= pos && st.frozen <= pos <= |file| - (|Pattern(h)| - pf - sf)
              && forall j: nat :: pf <= j < |Pattern(h)| - sf ==> StandsAt(file, pos, Pattern(h), j)
  {
    hide Side, LeadingContext, TrailingContext;
    assert h.lines == before + (middle + after) && h.lines == (before + middle) + after;
    LeadingIs(before, middle + after);
    TrailingIs(before + middle, after);
    SideConcat(before + middle, after, '-');
    SideConcat(before, middle, '-');
    BlanksAreOld(before);
    BlanksAreOld(after);
    var s := SearchFor(file, h, st);
    assert s.ctx == HunkContext(|before|, |after|);
    MatchesMeans(file, pos, s.pattern, Min(fuzz, |before|), Min(fuzz, |after|));
  }

  lemma MatchesMeans(file: seq<string>, pos: int, pattern: seq<string>, pf: nat, sf: nat)
    ensures Matches(file, pos, pattern, pf, sf) <==> forall j: nat :: pf <= j < |pattern| - sf ==> StandsAt(file, pos, pattern, j)
  {
    if Matches(file, pos, pattern, pf, sf) {
      forall j: nat | pf <= j < |pattern| - sf ensures StandsAt(file, pos, pattern, j) {
        assert LineMatches(file, pos, pattern, j);
      }
    }
    if forall j: nat :: pf <= j < |pattern| - sf ==> StandsAt(file, pos, pattern, j) {
      forall j | pf <= j < |pattern| - sf ensures LineMatches(file, pos, pattern, j) {
        assert StandsAt(file, pos, pattern, j);
      }
    }
  }
}
