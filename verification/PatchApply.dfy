/** Finding where a hunk goes and putting its lines there. */
module PatchApply {
  import opened Common
  import opened PatchParser

  // ----- The two sides of a hunk -----

  predicate OnSide(line: string, sign: char) {
    line != [] && (line[0] == ' ' || line[0] == sign)
  }

  // The lines of a hunk that carry a sign or none, without their prefix.
  function Side(lines: seq<string>, sign: char): seq<string> {
    if lines == [] then []
    else
      var last := lines[|lines| - 1];
      Side(lines[..|lines| - 1], sign) + if OnSide(last, sign) then [last[1..]] else []
  }

  method GetSide(lines: seq<string>, sign: char) returns (side: seq<string>)
    ensures side == Side(lines, sign)
  {
    side := [];
    for i := 0 to |lines|
      invariant side == Side(lines[..i], sign)
    {
      assert lines[..i + 1][..i] == lines[..i];
      if OnSide(lines[i], sign) {
        side := side + [lines[i][1..]];
      }
    }
    assert lines[..|lines|] == lines;
  }

  predicate IsContext(line: string) {
    line != [] && line[0] == ' '
  }

  // How many context lines a hunk begins and ends with.
  function LeadingContext(lines: seq<string>): (n: nat)
    ensures n <= |lines|
  {
    if lines == [] || !IsContext(lines[0]) then 0 else 1 + LeadingContext(lines[1..])
  }

  function TrailingContext(lines: seq<string>): (n: nat)
    ensures n <= |lines|
  {
    if lines == [] || !IsContext(lines[|lines| - 1]) then 0 else 1 + TrailingContext(lines[..|lines| - 1])
  }

  datatype HunkContext = HunkContext(prefix: nat, suffix: nat)

  function ContextOf(lines: seq<string>): HunkContext {
    HunkContext(LeadingContext(lines), TrailingContext(lines))
  }

  method GetHunkContext(lines: seq<string>) returns (ctx: HunkContext)
    ensures ctx == ContextOf(lines)
  {
    var prefix, suffix := 0, 0;
    while prefix < |lines| && IsContext(lines[prefix])
      invariant prefix <= |lines| && LeadingContext(lines) == prefix + LeadingContext(lines[prefix..])
    {
      assert lines[prefix..][1..] == lines[prefix + 1..];
      prefix := prefix + 1;
    }
    assert lines[..|lines| - suffix] == lines;
    while suffix < |lines| && IsContext(lines[|lines| - 1 - suffix])
      invariant suffix <= |lines| && TrailingContext(lines) == suffix + TrailingContext(lines[..|lines| - suffix])
    {
      assert lines[..|lines| - suffix][..|lines| - suffix - 1] == lines[..|lines| - (suffix + 1)];
      suffix := suffix + 1;
    }
    ctx := HunkContext(prefix, suffix);
  }

  // ----- Matching -----

  /** The pattern without the first pf and the last sf lines stands in the file, its first line at
      pos if nothing were left out. */
  ghost predicate Matches(file: seq<string>, pos: int, pattern: seq<string>, pf: nat, sf: nat) {
    pattern == [] ||
    forall j :: pf <= j < |pattern| - sf ==> LineMatches(file, pos, pattern, j)
  }

  predicate LineMatches(file: seq<string>, pos: int, pattern: seq<string>, j: nat)
    requires j < |pattern|
  {
    0 <= pos + j < |file| && file[pos + j] == pattern[j]
  }

  method TryMatch(file: seq<string>, pos: int, pattern: seq<string>, fuzz: nat, ctx: HunkContext) returns (matches: bool)
    ensures matches <==> Matches(file, pos, pattern, Min(fuzz, ctx.prefix), Min(fuzz, ctx.suffix))
  {
    if |pattern| == 0 {
      return true;
    }
    var prefixFuzz := Min(fuzz, ctx.prefix);
    var suffixFuzz := Min(fuzz, ctx.suffix);
    var filePos := pos + prefixFuzz;
    var j := prefixFuzz;
    while j < |pattern| - suffixFuzz
      invariant prefixFuzz <= j && filePos == pos + j
      invariant forall i :: prefixFuzz <= i < j && i < |pattern| - suffixFuzz ==>
                              LineMatches(file, pos, pattern, i)
      decreases |pattern| - j
    {
      if filePos < 0 || filePos >= |file| || file[filePos] != pattern[j] {
        assert !LineMatches(file, pos, pattern, j);
        return false;
      }
      filePos := filePos + 1;
      j := j + 1;
    }
    matches := true;
  }

  // What the search for a hunk looks for, and where it may look.
  datatype Search = Search(file: seq<string>, pattern: seq<string>, ctx: HunkContext, guess: int, frozen: int)

  function MaxSearch(s: Search, fuzz: nat): int {
    |s.file| - (|s.pattern| - Min(fuzz, s.ctx.prefix) - Min(fuzz, s.ctx.suffix))
  }

  ghost predicate Candidate(s: Search, fuzz: nat, pos: int) {
    && 0 <= pos <= MaxSearch(s, fuzz) && pos >= s.frozen
    && Matches(s.file, pos, s.pattern, Min(fuzz, s.ctx.prefix), Min(fuzz, s.ctx.suffix))
  }

  function Distance(x: int, y: int): nat {
    if x < y then y - x else x - y
  }

  // p is nearer to the guess than q; of two at the same distance the one after it is.
  predicate NotFarther(guess: int, p: int, q: int) {
    Distance(guess, p) < Distance(guess, q) || (Distance(guess, p) == Distance(guess, q) && p >= q)
  }

  ghost predicate NoCandidate(s: Search, fuzz: nat) {
    forall p :: !Candidate(s, fuzz, p)
  }

  /** pos is where the hunk goes: a match at the least fuzz that has any, and there the nearest to
      the guess, forward before backward. */
  ghost predicate Located(s: Search, maxFuzz: int, pos: int, fuzz: nat) {
    && fuzz <= maxFuzz && Candidate(s, fuzz, pos)
    && (forall f: nat :: f < fuzz ==> NoCandidate(s, f))
    && (forall p :: Candidate(s, fuzz, p) ==> NotFarther(s.guess, pos, p))
  }

  ghost predicate Nowhere(s: Search, maxFuzz: int) {
    forall f: nat :: f <= maxFuzz ==> NoCandidate(s, f)
  }

  // There is one such place at most.
  lemma LocatedOnce(s: Search, maxFuzz: int, p: int, f: nat, q: int, g: nat)
    requires Located(s, maxFuzz, p, f) && Located(s, maxFuzz, q, g)
    ensures p == q && f == g
  {
    hide Candidate;
    assert f < g ==> NoCandidate(s, f);
    assert g < f ==> NoCandidate(s, g);
    assert NotFarther(s.guess, p, q) && NotFarther(s.guess, q, p);
  }

  // All candidates less than delta away from the guess have been tried.
  ghost predicate NoneWithin(s: Search, fuzz: nat, delta: int) {
    forall p :: Candidate(s, fuzz, p) ==> Distance(s.guess, p) >= delta
  }

  /** The spiral search: the guess, then one line further each round, for every amount of fuzz. */
  method LocateHunk(file: seq<string>, hunk: PatchHunk, pattern: seq<string>, lastFrozenLine: int,
                    cumulativeOffset: int, maxFuzz: int)
    returns (pos: int, ghost found: nat)
    ensures var s := Search(file, pattern, ContextOf(hunk.lines), hunk.oldStart - 1 + cumulativeOffset, lastFrozenLine);
            if pos >= 0 then Located(s, maxFuzz, pos, found) else pos == -1 && Nowhere(s, maxFuzz)
  {
    hide Matches, LeadingContext, TrailingContext;
    var ctx := GetHunkContext(hunk.lines);
    var firstGuess := hunk.oldStart - 1 + cumulativeOffset;
    ghost var s := Search(file, pattern, ctx, firstGuess, lastFrozenLine);
    found := 0;
    var fuzz := 0;
    while fuzz <= maxFuzz
      invariant 0 <= fuzz
      invariant forall f: nat :: f < fuzz ==> NoCandidate(s, f)
      decreases maxFuzz - fuzz
    {
      pos := SearchAround(s, file, pattern, ctx, firstGuess, lastFrozenLine, fuzz);
      if pos >= 0 {
        found := fuzz;
        return;
      }
      fuzz := fuzz + 1;
    }
    pos := -1;
  }

  // One amount of fuzz.
  method SearchAround(ghost s: Search, file: seq<string>, pattern: seq<string>, ctx: HunkContext, firstGuess: int,
                      lastFrozenLine: int, fuzz: nat)
    returns (pos: int)
    requires s == Search(file, pattern, ctx, firstGuess, lastFrozenLine)
    ensures pos >= 0 ==> Candidate(s, fuzz, pos) && forall p :: Candidate(s, fuzz, p) ==> NotFarther(firstGuess, pos, p)
    ensures pos < 0 ==> pos == -1 && NoCandidate(s, fuzz)
  {
    hide Matches;
    var prefixFuzz := Min(fuzz, ctx.prefix);
    var suffixFuzz := Min(fuzz, ctx.suffix);
    var effectivePatLen := |pattern| - prefixFuzz - suffixFuzz;
    var maxSearch := |file| - effectivePatLen;
    if effectivePatLen == 0 {
      maxSearch := |file|;
    }
    var ok := TryAt(s, file, pattern, ctx, lastFrozenLine, maxSearch, firstGuess, fuzz);
    if ok {
      return firstGuess;
    }
    var maxOffsetForward := maxSearch - firstGuess;
    var maxOffsetBackward := firstGuess - lastFrozenLine;
    var maxRange := if maxOffsetForward > maxOffsetBackward then maxOffsetForward else maxOffsetBackward;
    if maxRange < 0 {
      maxRange := 0;
    }
    var delta := 1;
    while delta <= maxRange
      invariant 1 <= delta <= maxRange + 1
      invariant NoneWithin(s, fuzz, delta)
    {
      ok := TryAt(s, file, pattern, ctx, lastFrozenLine, maxSearch, firstGuess + delta, fuzz);
      if ok {
        return firstGuess + delta;
      }
      ok := TryAt(s, file, pattern, ctx, lastFrozenLine, maxSearch, firstGuess - delta, fuzz);
      if ok {
        return firstGuess - delta;
      }
      delta := delta + 1;
    }
    pos := -1;
    forall p ensures !Candidate(s, fuzz, p) {
    }
  }

  method TryAt(ghost s: Search, file: seq<string>, pattern: seq<string>, ctx: HunkContext, lastFrozenLine: int,
               maxSearch: int, pos: int, fuzz: nat)
    returns (ok: bool)
    requires s.file == file && s.pattern == pattern && s.ctx == ctx && s.frozen == lastFrozenLine
    requires maxSearch == MaxSearch(s, fuzz)
    ensures ok <==> Candidate(s, fuzz, pos)
  {
    ok := false;
    if pos >= 0 && pos <= maxSearch && pos > lastFrozenLine - 1 {
      ok := TryMatch(file, pos, pattern, fuzz, ctx);
    }
  }
}
