/** Placing all hunks of a file one after the other, and the file that comes out. */
module PatchOutput {
  import opened Common
  import opened Text
  import opened PatchParser
  import opened PatchApply

  // ----- Placing hunks -----

  // Where a hunk went, and how much of its context was left out at both ends.
  datatype Placement = Placed(pos: nat, prefix: nat, suffix: nat) | Rejected

  // What the hunks before leave behind: how far off they were, and the first line not used up.
  datatype PlaceState = PlaceState(offset: int, frozen: int)

  function Pattern(h: PatchHunk): seq<string> {
    Side(h.lines, '-')
  }

  ghost function SearchFor(file: seq<string>, h: PatchHunk, st: PlaceState): Search {
    Search(file, Pattern(h), ContextOf(h.lines), h.oldStart - 1 + st.offset, st.frozen)
  }

  // The least amount of fuzz that matches at pos; without fuzz it is not looked for.
  ghost predicate FuzzUsed(s: Search, maxFuzz: int, pos: int, used: nat) {
    if maxFuzz <= 0 then used == 0
    else
      && used <= maxFuzz && Matches(s.file, pos, s.pattern, Min(used, s.ctx.prefix), Min(used, s.ctx.suffix))
      && forall f: nat :: f < used ==> !Matches(s.file, pos, s.pattern, Min(f, s.ctx.prefix), Min(f, s.ctx.suffix))
  }

  ghost predicate PlacedWith(s: Search, maxFuzz: int, p: Placement, found: nat, used: nat)
    requires p.Placed?
  {
    && Located(s, maxFuzz, p.pos, found) && FuzzUsed(s, maxFuzz, p.pos, used)
    && p.prefix == Min(used, s.ctx.prefix) && p.suffix == Min(used, s.ctx.suffix)
  }

  ghost function NextState(h: PatchHunk, p: Placement, st: PlaceState): PlaceState {
    if p.Rejected? then st
    else PlaceState(p.pos - ((if h.oldStart > 1 then h.oldStart else 1) - 1), p.pos + |Pattern(h)| - p.suffix)
  }

  // One hunk is placed where the search finds it, or rejected if it finds nothing.
  ghost predicate PlacedRight(file: seq<string>, h: PatchHunk, maxFuzz: int, p: Placement, st: PlaceState) {
    var s := SearchFor(file, h, st);
    if p.Rejected? then Nowhere(s, maxFuzz) else exists found, used :: PlacedWith(s, maxFuzz, p, found, used)
  }

  // The same for a list of hunks from a state on.
  ghost predicate AllPlaced(file: seq<string>, hunks: seq<PatchHunk>, maxFuzz: int, ps: seq<Placement>, states: seq<PlaceState>) {
    && |ps| == |hunks| && |states| == |hunks| + 1 && states[0] == PlaceState(0, 0)
    && forall k :: 0 <= k < |hunks| ==> Follows(file, hunks[k], maxFuzz, ps[k], states, k)
  }

  ghost predicate Follows(file: seq<string>, h: PatchHunk, maxFuzz: int, p: Placement, states: seq<PlaceState>, k: nat)
    requires k + 1 < |states|
  {
    PlacedRight(file, h, maxFuzz, p, states[k]) && states[k + 1] == NextState(h, p, states[k])
  }

  method FindFuzz(ghost s: Search, file: seq<string>, pos: int, pattern: seq<string>, ctx: HunkContext, maxFuzz: int, ghost found: nat)
    returns (fuzzUsed: nat)
    requires s.file == file && s.pattern == pattern && s.ctx == ctx && Located(s, maxFuzz, pos, found)
    ensures FuzzUsed(s, maxFuzz, pos, fuzzUsed)
  {
    hide Matches, MaxSearch;
    fuzzUsed := 0;
    if maxFuzz > 0 {
      var f := 0;
      while f <= maxFuzz
        invariant 0 <= f <= maxFuzz + 1
        invariant forall g: nat :: g < f ==> !Matches(file, pos, pattern, Min(g, ctx.prefix), Min(g, ctx.suffix))
        decreases maxFuzz - f
      {
        var ok := TryMatch(file, pos, pattern, f, ctx);
        if ok {
          return f;
        }
        f := f + 1;
      }
      assert false;
    }
  }

  /** Looks for all hunks in order, each after the ones before and as far off as the last one was. */
  method PlaceHunks(file: seq<string>, hunks: seq<PatchHunk>, maxFuzz: int)
    returns (ps: seq<Placement>, ghost states: seq<PlaceState>)
    ensures AllPlaced(file, hunks, maxFuzz, ps, states)
  {
    hide Located, Nowhere, FuzzUsed, Side, LeadingContext, TrailingContext;
    var cumulativeOffset, lastFrozenLine := 0, 0;
    ps := [];
    states := [PlaceState(0, 0)];
    for h := 0 to |hunks|
      invariant |ps| == h && |states| == h + 1 && states[0] == PlaceState(0, 0)
      invariant states[h] == PlaceState(cumulativeOffset, lastFrozenLine)
      invariant forall k :: 0 <= k < h ==> Follows(file, hunks[k], maxFuzz, ps[k], states, k)
    {
      var hunk := hunks[h];
      var pattern := GetSide(hunk.lines, '-');
      var pos, found := LocateHunk(file, hunk, pattern, lastFrozenLine, cumulativeOffset, maxFuzz);
      ghost var s := SearchFor(file, hunk, states[h]);
      var p := Rejected;
      if pos >= 0 {
        var ctx := GetHunkContext(hunk.lines);
        var fuzzUsed := FindFuzz(s, file, pos, pattern, ctx, maxFuzz, found);
        p := Placed(pos, Min(fuzzUsed, ctx.prefix), Min(fuzzUsed, ctx.suffix));
        assert PlacedWith(s, maxFuzz, p, found, fuzzUsed);
        cumulativeOffset := pos - ((if hunk.oldStart > 1 then hunk.oldStart else 1) - 1);
        lastFrozenLine := pos + |pattern| - p.suffix;
      }
      ghost var next := PlaceState(cumulativeOffset, lastFrozenLine);
      FollowsKept(file, hunks, maxFuzz, ps, states, p, next);
      ps := ps + [p];
      states := states + [next];
    }
  }

  lemma FollowsKept(file: seq<string>, hunks: seq<PatchHunk>, maxFuzz: int, ps: seq<Placement>, states: seq<PlaceState>,
                    p: Placement, next: PlaceState)
    requires |ps| < |hunks| && |states| == |ps| + 1
    requires forall k :: 0 <= k < |ps| ==> Follows(file, hunks[k], maxFuzz, ps[k], states, k)
    requires PlacedRight(file, hunks[|ps|], maxFuzz, p, states[|ps|])
    requires next == NextState(hunks[|ps|], p, states[|ps|])
    ensures var ps', states' := ps + [p], states + [next];
            forall k :: 0 <= k < |ps'| ==> Follows(file, hunks[k], maxFuzz, ps'[k], states', k)
  {
    hide PlacedRight, NextState;
    var ps', states' := ps + [p], states + [next];
    forall k | 0 <= k < |ps'| ensures Follows(file, hunks[k], maxFuzz, ps'[k], states', k) {
      assert k < |ps| ==> Follows(file, hunks[k], maxFuzz, ps[k], states, k);
    }
  }

  // ----- The patched file -----

  function NewLines(h: PatchHunk): seq<string> {
    Side(h.lines, '+')
  }

  // Where a placed hunk starts and stops replacing lines.
  function WindowStart(file: seq<string>, p: Placement): (r: nat)
    requires p.Placed?
    ensures r <= |file|
  {
    Min(p.pos + p.prefix, |file|)
  }

  function WindowEnd(file: seq<string>, h: PatchHunk, p: Placement): (r: nat)
    requires p.Placed?
    ensures WindowStart(file, p) <= r <= |file|
  {
    var patLen := |Pattern(h)| - (p.prefix + p.suffix);
    Min(WindowStart(file, p) + (if patLen < 0 then 0 else patLen), |file|)
  }

  // The lines it puts there.
  function Replacement(h: PatchHunk, p: Placement): seq<string>
    requires p.Placed?
  {
    var new' := NewLines(h);
    var end := |new'| - p.suffix;
    if p.prefix < end then new'[p.prefix..end] else []
  }

  function Copied(file: seq<string>, from: nat, to: nat): string {
    if from <= to <= |file| then TextOf(file[from..to], true) else ""
  }

  // The text of the patched file from line last of the input on.
  function RenderFrom(file: seq<string>, newline: bool, hunks: seq<PatchHunk>, ps: seq<Placement>, last: nat): string
    requires |hunks| == |ps| && last <= |file|
    decreases |hunks|
  {
    if hunks == [] then TextOf(file[last..], newline)
    else if ps[0].Rejected? then RenderFrom(file, newline, hunks[1..], ps[1..], last)
    else
      Copied(file, last, WindowStart(file, ps[0]))
      + TextOf(Replacement(hunks[0], ps[0]), !(ps[0].suffix == 0 && hunks[0].newNoNewline))
      + RenderFrom(file, newline, hunks[1..], ps[1..], WindowEnd(file, hunks[0], ps[0]))
  }

  method CopyLines(file: seq<string>, from: nat, to: nat) returns (output: string)
    requires from <= |file| && to <= |file|
    ensures output == Copied(file, from, to)
  {
    output := "";
    var j := from;
    while j < to
      invariant from <= j && (from <= to ==> j <= to)
      invariant from <= to ==> output == TextOf(file[from..j], true)
      invariant from > to ==> output == ""
    {
      assert file[from..j + 1] == file[from..j] + [file[j]];
      TextOfAppend(file[from..j], file[j]);
      output := output + file[j] + "\n";
      j := j + 1;
    }
  }

  // Lines of which the last may go without a newline.
  method EmitLines(lines: seq<string>, terminated: bool) returns (output: string)
    ensures output == TextOf(lines, terminated)
  {
    output := "";
    for j := 0 to |lines|
      invariant output == TextOf(lines[..j], j < |lines| || terminated)
    {
      assert lines[..j + 1] == lines[..j] + [lines[j]];
      TextOfConcat(lines[..j], [lines[j]], j < |lines| - 1 || terminated);
      output := output + lines[j];
      if j == |lines| - 1 && !terminated {
      } else {
        output := output + "\n";
      }
    }
    assert lines[..|lines|] == lines;
  }

  method BuildOutput(file: seq<string>, newline: bool, hunks: seq<PatchHunk>, ps: seq<Placement>) returns (output: string)
    requires |hunks| == |ps|
    ensures output == RenderFrom(file, newline, hunks, ps, 0)
  {
    hide TextOf, Copied, WindowStart, WindowEnd, Replacement;
    output := "";
    var lastCopied := 0;
    for h := 0 to |hunks|
      invariant 0 <= lastCopied <= |file|
      invariant RenderFrom(file, newline, hunks, ps, 0) == output + RenderFrom(file, newline, hunks[h..], ps[h..], lastCopied)
    {
      assert hunks[h..][1..] == hunks[h + 1..] && ps[h..][1..] == ps[h + 1..];
      match ps[h] {
        case Rejected =>
        case Placed(_, _, _) =>
          var more, end := ApplyOne(file, hunks[h], ps[h], lastCopied);
          output := output + more;
          lastCopied := end;
      }
    }
    var tail := EmitLines(file[lastCopied..], newline);
    output := output + tail;
  }

  // One placed hunk: the lines before its window and the lines that replace it.
  method ApplyOne(file: seq<string>, hunk: PatchHunk, placed: Placement, lastCopied: nat) returns (output: string, end: nat)
    requires lastCopied <= |file| && placed.Placed?
    ensures output == Copied(file, lastCopied, WindowStart(file, placed))
                      + TextOf(Replacement(hunk, placed), !(placed.suffix == 0 && hunk.newNoNewline))
    ensures end == WindowEnd(file, hunk, placed) <= |file|
  {
    hide TextOf, Copied, Side;
    var pattern := GetSide(hunk.lines, '-');
    var newLines := GetSide(hunk.lines, '+');
    var pos := placed.pos + placed.prefix;
    var patLen := |pattern| - (placed.prefix + placed.suffix);
    if patLen < 0 {
      patLen := 0;
    }
    var newStart := placed.prefix;
    var newEnd := |newLines| - placed.suffix;
    if newEnd < newStart {
      newEnd := newStart;
    }
    if pos > |file| {
      pos := |file|;
    }
    output := CopyLines(file, lastCopied, pos);
    var part := if newStart < newEnd then newLines[newStart..newEnd] else [];
    var more := EmitLines(part, !(placed.suffix == 0 && hunk.newNoNewline));
    output := output + more;
    end := pos + patLen;
    if end > |file| {
      end := |file|;
    }
  }
}
