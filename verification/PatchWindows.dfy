/** What placing the hunks guarantees: the fuzz found again is the fuzz that was used, the windows
    of the hunks do not overlap, and the output is the input with exactly these windows replaced. */
module PatchWindows {
  import opened Common
  import opened Text
  import opened PatchParser
  import opened PatchApply
  import opened PatchOutput

  // ----- A hunk that changes something -----

  ghost predicate IsChange(line: string) {
    line != [] && (line[0] == '-' || line[0] == '+')
  }

  ghost predicate HasChange(h: PatchHunk) {
    exists i :: 0 <= i < |h.lines| && IsChange(h.lines[i])
  }

  lemma {:induction false} LeadingIsContext(lines: seq<string>, i: nat)
    requires i < LeadingContext(lines)
    ensures IsContext(lines[i])
  {
    if i > 0 {
      LeadingIsContext(lines[1..], i - 1);
    }
  }

  lemma {:induction false} TrailingIsContext(lines: seq<string>, i: nat)
    requires |lines| - TrailingContext(lines) <= i < |lines|
    ensures IsContext(lines[i])
    decreases |lines|
  {
    if i < |lines| - 1 {
      TrailingIsContext(lines[..|lines| - 1], i);
    }
  }

  lemma {:induction false} SideConcat(s: seq<string>, t: seq<string>, sign: char)
    ensures Side(s + t, sign) == Side(s, sign) + Side(t, sign)
  {
    if t == [] {
      assert s + t == s;
    } else {
      assert (s + t)[..|s + t| - 1] == s + t[..|t| - 1];
      SideConcat(s, t[..|t| - 1], sign);
    }
  }

  lemma {:induction false} ContextIsOnSide(lines: seq<string>, sign: char)
    requires forall i :: 0 <= i < |lines| ==> IsContext(lines[i])
    ensures |Side(lines, sign)| == |lines|
  {
    if lines != [] {
      ContextIsOnSide(lines[..|lines| - 1], sign);
    }
  }

  // With a change between them, leading and trailing context are different lines of the pattern.
  lemma ContextFits(h: PatchHunk)
    requires HasChange(h)
    ensures ContextOf(h.lines).prefix + ContextOf(h.lines).suffix <= |Pattern(h)|
  {
    hide LeadingContext, TrailingContext, Side;
    var n, m := LeadingContext(h.lines), TrailingContext(h.lines);
    var c :| 0 <= c < |h.lines| && IsChange(h.lines[c]);
    if c < n {
      LeadingIsContext(h.lines, c);
    }
    if |h.lines| - m <= c {
      TrailingIsContext(h.lines, c);
    }
    ContextIsInPattern(h.lines, n, m);
  }

  // Context at both ends is part of the pattern.
  lemma ContextIsInPattern(lines: seq<string>, n: nat, m: nat)
    requires n + m <= |lines| && n == LeadingContext(lines) && m == TrailingContext(lines)
    ensures n + m <= |Side(lines, '-')|
  {
    hide LeadingContext, TrailingContext, Side;
    var head, mid, tail := lines[..n], lines[n..|lines| - m], lines[|lines| - m..];
    forall i | 0 <= i < n ensures IsContext(head[i]) {
      LeadingIsContext(lines, i);
    }
    forall i | 0 <= i < m ensures IsContext(tail[i]) {
      TrailingIsContext(lines, |lines| - m + i);
    }
    ContextIsOnSide(head, '-');
    ContextIsOnSide(tail, '-');
    SideConcat(head, mid, '-');
    SideConcat(head + mid, tail, '-');
    assert lines == head + mid + tail;
  }

  // ----- The fuzz -----

  /** The least fuzz that matches at the place found is the fuzz the search stopped at if and only if the
      search with that much fuzz gets as far as this place. */
  lemma FuzzFoundAgain(s: Search, maxFuzz: int, p: Placement, found: nat, used: nat)
    requires p.Placed? && PlacedWith(s, maxFuzz, p, found, used)
    ensures used <= found
    ensures used == found <==> p.pos <= MaxSearch(s, used)
  {
    hide Matches, MaxSearch, NotFarther;
    if used < found {
      assert NoCandidate(s, used);
      assert !Candidate(s, used, p.pos);
    }
  }

  // So it is for every hunk that changes something.
  lemma ChangeFuzzFoundAgain(file: seq<string>, h: PatchHunk, st: PlaceState, maxFuzz: int, p: Placement, found: nat, used: nat)
    requires HasChange(h) && p.Placed? && st.frozen >= 0
    requires PlacedWith(SearchFor(file, h, st), maxFuzz, p, found, used)
    ensures used == found
  {
    var s := SearchFor(file, h, st);
    ContextFits(h);
    FuzzFoundAgain(s, maxFuzz, p, found, used);
    hide Side, LeadingContext, TrailingContext, NotFarther;
    var pf, sf := Min(used, s.ctx.prefix), Min(used, s.ctx.suffix);
    if pf < |s.pattern| - sf && s.pattern != [] {
      assert maxFuzz > 0 ==> LineMatches(file, p.pos, s.pattern, |s.pattern| - sf - 1);
    }
  }

  // A hunk of two lines of context and no change.
  const CONTEXT_ONLY := PatchHunk(1, 2, 1, 2, [" x", " y"], false, false)

  lemma ContextOnlyParts()
    ensures Pattern(CONTEXT_ONLY) == ["x", "y"] && ContextOf(CONTEXT_ONLY.lines) == HunkContext(2, 2)
  {
    var lines := CONTEXT_ONLY.lines;
    assert lines[..1] == [" x"] && lines[..1][..0] == [] && lines[1..] == [" y"] && lines[1..][1..] == [];
    assert " x"[1..] == "x" && " y"[1..] == "y";
    assert Side(lines[..1], '-') == ["x"];
    assert LeadingContext(lines[1..]) == 1 && TrailingContext(lines[..1]) == 1;
  }

  // The first one goes to the start with fuzz 1.
  lemma EmptyFileFuzz(st: PlaceState, p: Placement)
    requires st == PlaceState(0, 0) && PlacedRight([], CONTEXT_ONLY, 2, p, st)
    ensures p == Placed(0, 1, 1)
  {
    var s := SearchFor([], CONTEXT_ONLY, st);
    ContextOnlyParts();
    hide Side, LeadingContext, TrailingContext;
    assert Candidate(s, 1, 0);
    assert !NoCandidate(s, 1);
    if p.Placed? {
      var found, used :| PlacedWith(s, 2, p, found, used);
      assert !LineMatches([], p.pos, s.pattern, 0);
      assert !Matches([], p.pos, s.pattern, 0, 0);
      assert Matches([], p.pos, s.pattern, 1, 1);
    }
  }

  /** Two such hunks for an empty file: the second is found with fuzz 2 behind the first, but its lines
      are trimmed as if for fuzz 1. */
  lemma FuzzFoundLess(ps: seq<Placement>, states: seq<PlaceState>) returns (found: nat, used: nat)
    requires AllPlaced([], [CONTEXT_ONLY, CONTEXT_ONLY], 2, ps, states)
    ensures ps[1].Placed? && PlacedWith(SearchFor([], CONTEXT_ONLY, states[1]), 2, ps[1], found, used)
    ensures found == 2 && used == 1 && ps[1].prefix == 1
  {
    var hunks := [CONTEXT_ONLY, CONTEXT_ONLY];
    ContextOnlyParts();
    hide Side, LeadingContext, TrailingContext;
    assert Follows([], hunks[0], 2, ps[0], states, 0);
    assert Follows([], hunks[1], 2, ps[1], states, 1);
    EmptyFileFuzz(states[0], ps[0]);
    found, used := SecondFuzz(states[1], ps[1]);
  }

  lemma SecondFuzz(st: PlaceState, p: Placement) returns (found: nat, used: nat)
    requires st == PlaceState(0, 1) && PlacedRight([], CONTEXT_ONLY, 2, p, st)
    ensures p.Placed? && PlacedWith(SearchFor([], CONTEXT_ONLY, st), 2, p, found, used)
    ensures found == 2 && used == 1 && p.prefix == 1
  {
    var s := SearchFor([], CONTEXT_ONLY, st);
    ContextOnlyParts();
    hide Side, LeadingContext, TrailingContext;
    assert Candidate(s, 2, 1);
    assert !NoCandidate(s, 2);
    if p.Placed? {
      found, used :| PlacedWith(s, 2, p, found, used);
      assert !LineMatches([], p.pos, s.pattern, 0);
      assert !Matches([], p.pos, s.pattern, 0, 0);
      assert Matches([], p.pos, s.pattern, 1, 1);
      assert !Candidate(s, 0, p.pos) && !Candidate(s, 1, p.pos);
    }
  }

  // ----- The windows -----

  // Where a window would start and end if the file were long enough.
  ghost function From(p: Placement): nat
    requires p.Placed?
  {
    p.pos + p.prefix
  }

  ghost function To(h: PatchHunk, p: Placement): int
    requires p.Placed?
  {
    p.pos + |Pattern(h)| - p.suffix
  }

  ghost predicate AllChange(hunks: seq<PatchHunk>) {
    forall k :: 0 <= k < |hunks| ==> HasChange(hunks[k])
  }

  lemma PlacedBounds(file: seq<string>, h: PatchHunk, maxFuzz: int, p: Placement, st: PlaceState)
    requires HasChange(h) && p.Placed? && PlacedRight(file, h, maxFuzz, p, st) && st.frozen >= 0
    ensures st.frozen <= From(p) <= To(h, p)
    ensures From(p) < To(h, p) ==> To(h, p) <= |file|
    ensures p.pos <= |file|
  {
    ContextFits(h);
    var s := SearchFor(file, h, st);
    var found, used :| PlacedWith(s, maxFuzz, p, found, used);
    ChangeFuzzFoundAgain(file, h, st, maxFuzz, p, found, used);
    hide Side, LeadingContext, TrailingContext, NotFarther;
    if From(p) < To(h, p) {
      assert LineMatches(s.file, p.pos, s.pattern, |s.pattern| - p.suffix - 1);
    }
  }

  lemma {:induction false} FrozenGrows(file: seq<string>, hunks: seq<PatchHunk>, maxFuzz: int, ps: seq<Placement>,
                                       states: seq<PlaceState>, j: nat, k: nat)
    requires AllPlaced(file, hunks, maxFuzz, ps, states) && AllChange(hunks) && j <= k <= |hunks|
    ensures 0 <= states[j].frozen <= states[k].frozen
    decreases k
  {
    hide PlacedRight;
    if k > 0 {
      FrozenGrows(file, hunks, maxFuzz, ps, states, if j < k then j else j - 1, k - 1);
      assert Follows(file, hunks[k - 1], maxFuzz, ps[k - 1], states, k - 1);
      assert HasChange(hunks[k - 1]);
      if ps[k - 1].Placed? {
        PlacedBounds(file, hunks[k - 1], maxFuzz, ps[k - 1], states[k - 1]);
      }
    }
  }

  /** The windows of two placed hunks are in order and do not overlap, and each lies in the file. */
  lemma WindowsApart(file: seq<string>, hunks: seq<PatchHunk>, maxFuzz: int, ps: seq<Placement>,
                     states: seq<PlaceState>, j: nat, k: nat)
    requires AllPlaced(file, hunks, maxFuzz, ps, states) && AllChange(hunks)
    requires j < k < |hunks| && ps[j].Placed? && ps[k].Placed?
    ensures From(ps[j]) <= To(hunks[j], ps[j]) <= From(ps[k]) <= To(hunks[k], ps[k])
    ensures From(ps[k]) < To(hunks[k], ps[k]) ==> To(hunks[k], ps[k]) <= |file|
    ensures WindowStart(file, ps[j]) <= WindowEnd(file, hunks[j], ps[j]) <= WindowStart(file, ps[k])
  {
    hide PlacedRight, Side;
    assert Follows(file, hunks[j], maxFuzz, ps[j], states, j);
    assert Follows(file, hunks[k], maxFuzz, ps[k], states, k);
    assert HasChange(hunks[j]) && HasChange(hunks[k]);
    FrozenGrows(file, hunks, maxFuzz, ps, states, j, k);
    FrozenGrows(file, hunks, maxFuzz, ps, states, j + 1, k);
    PlacedBounds(file, hunks[j], maxFuzz, ps[j], states[j]);
    PlacedBounds(file, hunks[k], maxFuzz, ps[k], states[k]);
  }

  // ----- The output, line by line -----

  // The lines of the input from last on, with the windows of the placed hunks replaced.
  ghost function SplicedFrom(file: seq<string>, hunks: seq<PatchHunk>, ps: seq<Placement>, last: nat): seq<string>
    requires |hunks| == |ps| && last <= |file|
    decreases |hunks|
  {
    if hunks == [] then file[last..]
    else if ps[0].Rejected? then SplicedFrom(file, hunks[1..], ps[1..], last)
    else
      (if last <= WindowStart(file, ps[0]) then file[last..WindowStart(file, ps[0])] else [])
      + Replacement(hunks[0], ps[0])
      + SplicedFrom(file, hunks[1..], ps[1..], WindowEnd(file, hunks[0], ps[0]))
  }

  // The hunk leaves out the newline of the last line it puts in.
  ghost predicate Unterminated(h: PatchHunk, p: Placement) {
    p.Placed? && p.suffix == 0 && h.newNoNewline && Replacement(h, p) != []
  }

  // What follows the first hunk in the output.
  ghost function After(file: seq<string>, hunks: seq<PatchHunk>, ps: seq<Placement>): seq<string>
    requires |hunks| == |ps| && hunks != [] && ps[0].Placed?
  {
    SplicedFrom(file, hunks[1..], ps[1..], WindowEnd(file, hunks[0], ps[0]))
  }

  // Whether the last line of the output has a newline: that of the hunk it comes from, if it comes from
  // one, and of the input otherwise.
  ghost predicate EndsTerminated(file: seq<string>, newline: bool, hunks: seq<PatchHunk>, ps: seq<Placement>, last: nat)
    requires |hunks| == |ps| && last <= |file|
    decreases |hunks|
  {
    if hunks == [] then newline || last == |file|
    else if ps[0].Rejected? then EndsTerminated(file, newline, hunks[1..], ps[1..], last)
    else if Replacement(hunks[0], ps[0]) != [] && After(file, hunks, ps) == [] then !Unterminated(hunks[0], ps[0])
    else EndsTerminated(file, newline, hunks[1..], ps[1..], WindowEnd(file, hunks[0], ps[0]))
  }

  // A hunk leaves out a newline although something follows it.
  ghost predicate Misplaced(file: seq<string>, hunks: seq<PatchHunk>, ps: seq<Placement>, k: nat)
    requires |hunks| == |ps| && k < |hunks|
  {
    Unterminated(hunks[k], ps[k]) && After(file, hunks[k..], ps[k..]) != []
  }

  // How many do.
  ghost function Glued(file: seq<string>, hunks: seq<PatchHunk>, ps: seq<Placement>): nat
    requires |hunks| == |ps|
  {
    if hunks == [] then 0
    else Glued(file, hunks[1..], ps[1..]) + if Misplaced(file, hunks, ps, 0) then 1 else 0
  }

  lemma {:induction false} GluedIfMisplaced(file: seq<string>, hunks: seq<PatchHunk>, ps: seq<Placement>)
    requires |hunks| == |ps|
    ensures Glued(file, hunks, ps) == 0 <==> forall k: nat :: k < |hunks| ==> !Misplaced(file, hunks, ps, k)
    decreases |hunks|
  {
    hide Unterminated, After;
    if hunks != [] {
      GluedIfMisplaced(file, hunks[1..], ps[1..]);
      forall k: nat | k < |hunks| - 1 ensures Misplaced(file, hunks[1..], ps[1..], k) <==> Misplaced(file, hunks, ps, k + 1) {
        assert hunks[1..][k..] == hunks[k + 1..] && ps[1..][k..] == ps[k + 1..];
      }
      assert forall k: nat :: k < |hunks| && k > 0 ==>
          (Misplaced(file, hunks[1..], ps[1..], k - 1) <==> Misplaced(file, hunks, ps, k));
    }
  }

  // No lines mean that the windows end the file.
  lemma {:induction false} NothingLeft(file: seq<string>, newline: bool, hunks: seq<PatchHunk>, ps: seq<Placement>, last: nat)
    requires |hunks| == |ps| && last <= |file|
    ensures SplicedFrom(file, hunks, ps, last) == [] ==> EndsTerminated(file, newline, hunks, ps, last)
    decreases |hunks|
  {
    hide WindowStart, WindowEnd, Replacement;
    if hunks == [] {
      assert file[last..] == [] ==> last == |file|;
    } else {
      NothingLeft(file, newline, hunks[1..], ps[1..], if ps[0].Rejected? then last else WindowEnd(file, hunks[0], ps[0]));
    }
  }

  // Every newline left out too early makes the text one character shorter.
  lemma {:induction false} OutputSize(file: seq<string>, newline: bool, hunks: seq<PatchHunk>, ps: seq<Placement>, last: nat)
    requires |hunks| == |ps| && last <= |file|
    ensures var text := TextOf(SplicedFrom(file, hunks, ps, last), EndsTerminated(file, newline, hunks, ps, last));
            && |RenderFrom(file, newline, hunks, ps, last)| + Glued(file, hunks, ps) == |text|
            && (Glued(file, hunks, ps) == 0 ==> RenderFrom(file, newline, hunks, ps, last) == text)
    decreases |hunks|
  {
    hide TextOf, WindowStart, WindowEnd, Replacement;
    EmptyText();
    if hunks == [] {
      assert last == |file| ==> file[last..] == [];
    } else if ps[0].Rejected? {
      OutputSize(file, newline, hunks[1..], ps[1..], last);
    } else {
      var end := WindowEnd(file, hunks[0], ps[0]);
      OutputSize(file, newline, hunks[1..], ps[1..], end);
      assert hunks[0..] == hunks && ps[0..] == ps;
      var copied := if last <= WindowStart(file, ps[0]) then file[last..WindowStart(file, ps[0])] else [];
      var put := Replacement(hunks[0], ps[0]);
      NothingLeft(file, newline, hunks[1..], ps[1..], end);
      ShorterText(put);
      if After(file, hunks, ps) == [] {
        assert copied + put + [] == copied + put;
        if put == [] {
          assert copied + put == copied;
        } else {
          TextOfConcat(copied, put, !Unterminated(hunks[0], ps[0]));
        }
      } else {
        TextOfAll(copied, put, After(file, hunks, ps), EndsTerminated(file, newline, hunks[1..], ps[1..], end));
      }
    }
  }

  lemma {:induction false} ShorterText(lines: seq<string>)
    ensures lines != [] ==> |TextOf(lines, false)| + 1 == |TextOf(lines, true)|
  {
    if |lines| > 1 {
      ShorterText(lines[1..]);
    }
  }

  /** The output is the text of the spliced lines, with the last newline where it belongs, if and only if
      no hunk that leaves out a newline is followed by anything. */
  lemma OutputIsSplice(file: seq<string>, newline: bool, hunks: seq<PatchHunk>, ps: seq<Placement>)
    requires |hunks| == |ps|
    ensures RenderFrom(file, newline, hunks, ps, 0) ==
            TextOf(SplicedFrom(file, hunks, ps, 0), EndsTerminated(file, newline, hunks, ps, 0))
            <==> forall k: nat :: k < |hunks| ==> !Misplaced(file, hunks, ps, k)
  {
    hide RenderFrom, SplicedFrom, EndsTerminated, Misplaced, TextOf, Glued;
    OutputSize(file, newline, hunks, ps, 0);
    GluedIfMisplaced(file, hunks, ps);
  }

  lemma EmptyText()
    ensures TextOf([], true) == "" && TextOf([], false) == ""
  {
  }

  lemma TextOfAll(s: seq<string>, t: seq<string>, rest: seq<string>, newline: bool)
    requires rest == [] ==> newline
    ensures TextOf(s + t + rest, newline) == TextOf(s, true) + TextOf(t, true) + TextOf(rest, newline)
  {
    hide TextOf;
    EmptyText();
    if rest == [] {
      assert s + t + rest == s + t;
      if t == [] {
        assert s + t == s;
      } else {
        TextOfConcat(s, t, true);
      }
    } else {
      TextOfConcat(s + t, rest, newline);
      if t == [] {
        assert s + t == s;
      } else {
        TextOfConcat(s, t, true);
      }
    }
  }
}
