/** Patching a file in which lines before the first hunk were added or removed: what the first hunk is
    off, all the others are off as well. */
module PatchShifted {
  import opened Text
  import opened PatchParser
  import opened PatchApply
  import opened PatchOutput
  import opened PatchFits

  // The file with its first c lines replaced by others.
  function WithHead(a: FileLines, head: seq<string>, c: nat): (file: seq<string>)
    requires c <= |a.lines|
    ensures |file| == |a.lines| - c + |head|
    ensures forall i :: c <= i < |a.lines| ==> file[i - c + |head|] == a.lines[i]
  {
    head + a.lines[c..]
  }

  // At its window, moved by what the head has become longer.
  function ShiftedPlace(w: Window, head: seq<string>, c: nat): Placement
    requires c <= w.lo
  {
    Placed(w.lo - c + |head|, 0, 0)
  }

  lemma ShiftedCandidate(a: FileLines, b: FileLines, h: PatchHunk, w: Window, head: seq<string>, c: nat, st: PlaceState)
    requires HunkFits(a, b, h, w) && c <= w.lo && st.frozen <= w.lo - c + |head|
    ensures Candidate(SearchFor(WithHead(a, head, c), h, st), 0, w.lo - c + |head|)
  {
    hide Side, LeadingContext, TrailingContext, WithHead;
    var s := SearchFor(WithHead(a, head, c), h, st);
    var at := w.lo - c + |head|;
    forall j | 0 <= j < |s.pattern| ensures LineMatches(s.file, at, s.pattern, j) {
      assert s.pattern[j] == a.lines[w.lo..w.hi][j] == a.lines[w.lo + j];
    }
  }

  lemma ShiftedIsNearest(a: FileLines, b: FileLines, h: PatchHunk, w: Window, head: seq<string>, c: nat, st: PlaceState, p: int)
    requires HunkFits(a, b, h, w) && c <= w.lo && st.offset == |head| - c && (w.lo == w.hi ==> st.frozen == w.lo - c + |head|)
    requires Candidate(SearchFor(WithHead(a, head, c), h, st), 0, p)
    ensures NotFarther(h.oldStart - 1 + st.offset, w.lo - c + |head|, p)
  {
    hide Side, LeadingContext, TrailingContext, Matches, WithHead;
  }

  // A hunk is placed as far off as the state before says, whatever else looks like its lines.
  lemma PlacedShifted(a: FileLines, b: FileLines, h: PatchHunk, w: Window, head: seq<string>, c: nat, st: PlaceState,
                      maxFuzz: int, p: Placement)
    requires HunkFits(a, b, h, w) && c <= w.lo && st.offset == |head| - c && st.frozen <= w.lo - c + |head| && maxFuzz >= 0
    requires w.lo == w.hi ==> st.frozen == w.lo - c + |head|
    requires PlacedRight(WithHead(a, head, c), h, maxFuzz, p, st)
    ensures p == ShiftedPlace(w, head, c)
  {
    hide Candidate, Matches, NotFarther, Side, LeadingContext, TrailingContext, WithHead;
    var s := SearchFor(WithHead(a, head, c), h, st);
    var at := w.lo - c + |head|;
    ShiftedCandidate(a, b, h, w, head, c, st);
    forall q | Candidate(s, 0, q) ensures NotFarther(s.guess, at, q) {
      ShiftedIsNearest(a, b, h, w, head, c, st, q);
    }
    assert Located(s, maxFuzz, at, 0);
    assert p.Rejected? ==> NoCandidate(s, 0);
    if p.Placed? {
      var found, used :| PlacedWith(s, maxFuzz, p, found, used);
      LocatedOnce(s, maxFuzz, p.pos, found, at, 0);
      ExactFuzz(s, maxFuzz, p.pos, used);
    }
  }

  // What a hunk so placed leaves behind.
  lemma StateBehind(a: FileLines, b: FileLines, h: PatchHunk, w: Window, head: seq<string>, c: nat, st: PlaceState)
    requires HunkFits(a, b, h, w) && c <= w.lo
    ensures NextState(h, ShiftedPlace(w, head, c), st) == PlaceState(|head| - c, w.hi - c + |head|)
  {
    hide Side;
  }

  lemma {:induction false} WindowsBehind(a: FileLines, b: FileLines, hs: seq<PatchHunk>, ws: seq<Window>, k: nat)
    requires Fits(a, b, hs, ws) && k < |hs|
    ensures ws[0].lo <= ws[k].lo <= ws[k].hi <= |a.lines| && (k > 0 ==> ws[0].lo <= OldAt(ws, k) <= ws[k].lo)
    ensures ws[0].lo == ws[0].newLo && a.lines[..ws[0].lo] == b.lines[..ws[0].newLo]
  {
    hide HunkFits;
    FitsAt(a, b, hs, ws, k);
    FitsAt(a, b, hs, ws, 0);
    assert a.lines[0..ws[0].lo] == a.lines[..ws[0].lo] && b.lines[0..ws[0].newLo] == b.lines[..ws[0].newLo];
    if k > 0 {
      WindowsBehind(a, b, hs, ws, k - 1);
    }
  }

  /** Hunks that fit a file are placed in the file with another head as far off as the first one: if that
      is found where its lines have gone, so are all the others, without fuzz. */
  lemma {:induction false} AllPlacedShifted(a: FileLines, b: FileLines, hs: seq<PatchHunk>, ws: seq<Window>, head: seq<string>,
                                            c: nat, maxFuzz: int, ps: seq<Placement>, states: seq<PlaceState>, k: nat)
    requires Fits(a, b, hs, ws) && hs != [] && c <= ws[0].lo <= |a.lines| && maxFuzz >= 0
    requires AllPlaced(WithHead(a, head, c), hs, maxFuzz, ps, states) && 0 < k <= |hs|
    requires ps[0] == ShiftedPlace(ws[0], head, c)
    ensures states[k] == PlaceState(|head| - c, OldAt(ws, k) - c + |head|)
    ensures forall j :: 0 <= j < k ==> c <= ws[j].lo && ps[j] == ShiftedPlace(ws[j], head, c)
  {
    hide HunkFits, PlacedRight, NextState, WithHead;
    var j := k - 1;
    FitsAt(a, b, hs, ws, j);
    WindowsBehind(a, b, hs, ws, j);
    assert Follows(WithHead(a, head, c), hs[j], maxFuzz, ps[j], states, j);
    if j > 0 {
      AllPlacedShifted(a, b, hs, ws, head, c, maxFuzz, ps, states, j);
      NothingToReplace(a, b, hs[j], ws, j);
      PlacedShifted(a, b, hs[j], ws[j], head, c, states[j], maxFuzz, ps[j]);
    }
    StateBehind(a, b, hs[j], ws[j], head, c, states[j]);
  }

  lemma NothingToReplace(a: FileLines, b: FileLines, h: PatchHunk, ws: seq<Window>, j: nat)
    requires j < |ws| && HunkFits(a, b, h, ws[j]) && OldAt(ws, j) <= ws[j].lo
    ensures ws[j].lo == ws[j].hi ==> OldAt(ws, j) == ws[j].lo
  {
  }

  // ----- The output -----

  // Where the old file stands before a hunk, its head left out.
  function From(ws: seq<Window>, c: nat, k: nat): nat
    requires k <= |ws|
  {
    if k == 0 then c else OldAt(ws, k)
  }

  function NewFrom(ws: seq<Window>, c: nat, k: nat): nat
    requires k <= |ws|
  {
    if k == 0 then c else NewAt(ws, k)
  }

  lemma ShiftedReplacement(a: FileLines, b: FileLines, h: PatchHunk, w: Window, head: seq<string>, c: nat)
    requires HunkFits(a, b, h, w) && c <= w.lo
    ensures var file, p := WithHead(a, head, c), ShiftedPlace(w, head, c);
            && WindowStart(file, p) == w.lo - c + |head| && WindowEnd(file, h, p) == w.hi - c + |head|
            && Replacement(h, p) == b.lines[w.newLo..w.newHi]
  {
    hide Side;
    assert NewLines(h)[0..|NewLines(h)|] == NewLines(h);
  }

  lemma ShiftedSlice(a: FileLines, head: seq<string>, c: nat, lo: nat, hi: nat)
    requires c <= lo <= hi <= |a.lines|
    ensures WithHead(a, head, c)[lo - c + |head|..hi - c + |head|] == a.lines[lo..hi]
    ensures WithHead(a, head, c)[lo - c + |head|..] == a.lines[lo..]
  {
  }

  lemma {:induction false} RenderShifted(a: FileLines, b: FileLines, hs: seq<PatchHunk>, ws: seq<Window>, head: seq<string>, c: nat,
                                         ps: seq<Placement>, k: nat)
    requires Fits(a, b, hs, ws) && hs != [] && c <= ws[0].lo <= |a.lines| && |ps| == |hs| && k <= |hs|
    requires forall j :: 0 <= j < |hs| ==> c <= ws[j].lo && ps[j] == ShiftedPlace(ws[j], head, c)
    ensures c <= From(ws, c, k) <= |a.lines| && NewFrom(ws, c, k) <= |b.lines|
    ensures RenderFrom(WithHead(a, head, c), a.hasTrailingNewline, hs[k..], ps[k..], From(ws, c, k) - c + |head|)
         == TextOf(b.lines[NewFrom(ws, c, k)..], b.hasTrailingNewline)
    decreases |hs| - k
  {
    hide HunkFits, TextOf, WithHead, ShiftedPlace, RenderFrom, Fits, From, NewFrom;
    SizesFit(a, b, hs, ws);
    if k == |hs| {
      RenderEnd(a, b, hs, ws, head, c, ps);
      FromBehind(ws, c, k - 1);
    } else {
      FromBehind(ws, c, k);
      RenderShifted(a, b, hs, ws, head, c, ps, k + 1);
      RenderOne(a, b, hs, ws, head, c, ps, k);
    }
  }

  lemma {:induction false} RenderEnd(a: FileLines, b: FileLines, hs: seq<PatchHunk>, ws: seq<Window>, head: seq<string>, c: nat,
                                     ps: seq<Placement>)
    requires Fits(a, b, hs, ws) && hs != [] && c <= ws[0].lo <= |a.lines| && |ps| == |hs|
    ensures var n := |hs|;
            && n == |ws| && c <= OldAt(ws, n) <= |a.lines| && NewAt(ws, n) <= |b.lines|
            && RenderFrom(WithHead(a, head, c), a.hasTrailingNewline, hs[n..], ps[n..], OldAt(ws, n) - c + |head|)
            == TextOf(b.lines[NewAt(ws, n)..], b.hasTrailingNewline)
  {
    hide HunkFits, TextOf, WithHead, RenderFrom;
    var n := |hs|;
    NothingAfter(a, b, hs, ws);
    WindowsBehind(a, b, hs, ws, n - 1);
    ShiftedSlice(a, head, c, OldAt(ws, n), |a.lines|);
    NothingToPlace(WithHead(a, head, c), a.hasTrailingNewline, hs, ps, OldAt(ws, n) - c + |head|);
  }

  lemma {:induction false} RenderOne(a: FileLines, b: FileLines, hs: seq<PatchHunk>, ws: seq<Window>, head: seq<string>, c: nat,
                                     ps: seq<Placement>, k: nat)
    requires Fits(a, b, hs, ws) && |ps| == |hs| == |ws| && k < |hs| && c <= ws[0].lo <= |a.lines|
    requires c <= ws[k].lo && c <= ws[k].hi <= |a.lines| && ws[k].newHi <= |b.lines| && ps[k] == ShiftedPlace(ws[k], head, c)
    requires RenderFrom(WithHead(a, head, c), a.hasTrailingNewline, hs[k + 1..], ps[k + 1..], ws[k].hi - c + |head|)
          == TextOf(b.lines[ws[k].newHi..], b.hasTrailingNewline)
    ensures c <= From(ws, c, k) <= |a.lines| && NewFrom(ws, c, k) <= |b.lines|
    ensures RenderFrom(WithHead(a, head, c), a.hasTrailingNewline, hs[k..], ps[k..], From(ws, c, k) - c + |head|)
         == TextOf(b.lines[NewFrom(ws, c, k)..], b.hasTrailingNewline)
  {
    hide HunkFits, TextOf, WindowStart, WindowEnd, Replacement, WithHead, ShiftedPlace, RenderFrom, From, NewFrom;
    GapBefore(a, b, hs, ws, c, k);
    hide Fits;
    ShiftedReplacement(a, b, hs[k], ws[k], head, c);
    IsPlaced(ws[k], head, c);
    ShiftedSlice(a, head, c, From(ws, c, k), ws[k].lo);
    RenderPieces(WithHead(a, head, c), a.hasTrailingNewline, b, hs, ps, k, ws[k], From(ws, c, k) - c + |head|,
                 ws[k].lo - c + |head|, ws[k].hi - c + |head|, NewFrom(ws, c, k));
  }

  lemma FromBehind(ws: seq<Window>, c: nat, k: nat)
    requires k < |ws|
    ensures From(ws, c, k + 1) == OldAt(ws, k + 1) == ws[k].hi && NewFrom(ws, c, k + 1) == NewAt(ws, k + 1) == ws[k].newHi
  {
  }

  lemma IsPlaced(w: Window, head: seq<string>, c: nat)
    requires c <= w.lo
    ensures ShiftedPlace(w, head, c).Placed? && ShiftedPlace(w, head, c).suffix == 0
  {
  }

  lemma NothingToPlace(file: seq<string>, newline: bool, hs: seq<PatchHunk>, ps: seq<Placement>, last: nat)
    requires |hs| == |ps| && last <= |file|
    ensures RenderFrom(file, newline, hs[|hs|..], ps[|hs|..], last) == TextOf(file[last..], newline)
  {
  }

  // The gap before a hunk, without the head.
  lemma GapBefore(a: FileLines, b: FileLines, hs: seq<PatchHunk>, ws: seq<Window>, c: nat, k: nat)
    requires Fits(a, b, hs, ws) && k < |hs| && c <= ws[0].lo <= |a.lines|
    ensures var w := ws[k];
            && HunkFits(a, b, hs[k], w)
            && c <= From(ws, c, k) <= w.lo <= w.hi <= |a.lines| && NewFrom(ws, c, k) <= w.newLo <= w.newHi <= |b.lines|
            && a.lines[From(ws, c, k)..w.lo] == b.lines[NewFrom(ws, c, k)..w.newLo]
            && (hs[k].newNoNewline <==> w.newLo < w.newHi == |b.lines| && !b.hasTrailingNewline)
            && (w.newLo == w.newHi ==> b.lines == [])
  {
    hide HunkFits;
    FitsAt(a, b, hs, ws, k);
    WindowsBehind(a, b, hs, ws, k);
    if k == 0 {
      assert a.lines[c..ws[0].lo] == a.lines[..ws[0].lo][c..];
      assert b.lines[c..ws[0].newLo] == b.lines[..ws[0].newLo][c..];
    }
  }

  lemma {:induction false} RenderStep(file: seq<string>, newline: bool, hs: seq<PatchHunk>, ps: seq<Placement>, k: nat, last: nat, start: nat, end: nat)
    requires k < |hs| == |ps| && ps[k].Placed? && last <= start <= |file|
    requires start == WindowStart(file, ps[k]) && end == WindowEnd(file, hs[k], ps[k])
    ensures end <= |file|
    ensures RenderFrom(file, newline, hs[k..], ps[k..], last) ==
            TextOf(file[last..start], true) + TextOf(Replacement(hs[k], ps[k]), !(ps[k].suffix == 0 && hs[k].newNoNewline))
            + RenderFrom(file, newline, hs[k + 1..], ps[k + 1..], end)
  {
    hide TextOf, WindowStart, WindowEnd, Replacement;
    assert hs[k..][1..] == hs[k + 1..] && ps[k..][1..] == ps[k + 1..];
  }

  // One gap, one window and the rest, wherever they stand.
  lemma {:induction false} RenderPieces(file: seq<string>, newline: bool, b: FileLines, hs: seq<PatchHunk>, ps: seq<Placement>, k: nat,
                                        w: Window, last: nat, start: nat, end: nat, newFrom: nat)
    requires k < |hs| == |ps| && ps[k].Placed? && last <= start <= |file| && newFrom <= w.newLo <= w.newHi <= |b.lines|
    requires start == WindowStart(file, ps[k]) && end == WindowEnd(file, hs[k], ps[k]) && ps[k].suffix == 0
    requires file[last..start] == b.lines[newFrom..w.newLo] && Replacement(hs[k], ps[k]) == b.lines[w.newLo..w.newHi]
    requires hs[k].newNoNewline <==> w.newLo < w.newHi == |b.lines| && !b.hasTrailingNewline
    requires w.newLo == w.newHi ==> b.lines == []
    requires RenderFrom(file, newline, hs[k + 1..], ps[k + 1..], end) == TextOf(b.lines[w.newHi..], b.hasTrailingNewline)
    ensures RenderFrom(file, newline, hs[k..], ps[k..], last) == TextOf(b.lines[newFrom..], b.hasTrailingNewline)
  {
    hide TextOf, WindowStart, WindowEnd, Replacement, RenderFrom;
    RenderStep(file, newline, hs, ps, k, last, start, end);
    PiecesMakeText(b, newFrom, w.newLo, w.newHi);
  }

  /** The output is the new head followed by the other file without its first lines. */
  lemma {:induction false} ShiftedHunksApply(a: FileLines, b: FileLines, hs: seq<PatchHunk>, ws: seq<Window>, head: seq<string>, c: nat, maxFuzz: int,
                          ps: seq<Placement>, states: seq<PlaceState>)
    requires Fits(a, b, hs, ws) && hs != [] && c <= ws[0].lo <= |a.lines| && maxFuzz >= 0
    requires AllPlaced(WithHead(a, head, c), hs, maxFuzz, ps, states) && ps[0] == ShiftedPlace(ws[0], head, c)
    ensures forall j :: 0 <= j < |ps| ==> c <= ws[j].lo && ps[j] == ShiftedPlace(ws[j], head, c)
    ensures c <= |b.lines| && a.lines[..c] == b.lines[..c]
    ensures RenderFrom(WithHead(a, head, c), a.hasTrailingNewline, hs, ps, 0) ==
            TextOf(head, true) + TextOf(b.lines[c..], b.hasTrailingNewline)
  {
    hide HunkFits, TextOf, AllPlaced, WithHead, Fits, RenderFrom, ShiftedPlace, GapFits, From, NewFrom, Replacement, OldAt;
    SizesFit(a, b, hs, ws);
    PlacesSize(WithHead(a, head, c), hs, maxFuzz, ps, states);
    HeadsAgree(a, b, hs, ws, c);
    AllPlacedShifted(a, b, hs, ws, head, c, maxFuzz, ps, states, |hs|);
    AllRendered(a, b, hs, ws, head, c, ps);
  }

  lemma {:induction false} AllRendered(a: FileLines, b: FileLines, hs: seq<PatchHunk>, ws: seq<Window>, head: seq<string>, c: nat,
                                       ps: seq<Placement>)
    requires Fits(a, b, hs, ws) && hs != [] && c <= ws[0].lo <= |a.lines| && |ps| == |hs| && c <= |b.lines|
    requires forall j :: 0 <= j < |hs| ==> c <= ws[j].lo && ps[j] == ShiftedPlace(ws[j], head, c)
    ensures RenderFrom(WithHead(a, head, c), a.hasTrailingNewline, hs, ps, 0) ==
            TextOf(head, true) + TextOf(b.lines[c..], b.hasTrailingNewline)
  {
    hide HunkFits, TextOf, WithHead, RenderFrom, ShiftedPlace, GapFits;
    FitsAt(a, b, hs, ws, 0);
    HeadRendered(a, b, hs, ws, head, c, ps);
    RenderShifted(a, b, hs, ws, head, c, ps, 0);
    assert hs[0..] == hs && ps[0..] == ps;
  }

  lemma PlacesSize(file: seq<string>, hs: seq<PatchHunk>, maxFuzz: int, ps: seq<Placement>, states: seq<PlaceState>)
    requires AllPlaced(file, hs, maxFuzz, ps, states)
    ensures |ps| == |hs|
  {
  }

  lemma HeadsAgree(a: FileLines, b: FileLines, hs: seq<PatchHunk>, ws: seq<Window>, c: nat)
    requires Fits(a, b, hs, ws) && hs != [] && c <= ws[0].lo <= |a.lines|
    ensures c <= |b.lines| && a.lines[..c] == b.lines[..c]
  {
    WindowsBehind(a, b, hs, ws, 0);
    assert a.lines[..c] == a.lines[..ws[0].lo][..c] && b.lines[..c] == b.lines[..ws[0].newLo][..c];
  }

  lemma SizesFit(a: FileLines, b: FileLines, hs: seq<PatchHunk>, ws: seq<Window>)
    requires Fits(a, b, hs, ws)
    ensures |hs| == |ws|
  {
  }

  lemma {:induction false} HeadRendered(a: FileLines, b: FileLines, hs: seq<PatchHunk>, ws: seq<Window>, head: seq<string>, c: nat, ps: seq<Placement>)
    requires hs != [] && |ps| == |hs| == |ws| && HunkFits(a, b, hs[0], ws[0]) && c <= ws[0].lo <= |a.lines|
    requires ps[0] == ShiftedPlace(ws[0], head, c)
    ensures var file := WithHead(a, head, c);
            RenderFrom(file, a.hasTrailingNewline, hs, ps, 0) ==
            TextOf(head, true) + RenderFrom(file, a.hasTrailingNewline, hs, ps, |head|)
  {
    hide HunkFits, TextOf, WithHead, RenderFrom, WindowStart, WindowEnd, Replacement;
    var file, start, end := WithHead(a, head, c), ws[0].lo - c + |head|, ws[0].hi - c + |head|;
    ShiftedReplacement(a, b, hs[0], ws[0], head, c);
    assert hs[0..] == hs && ps[0..] == ps;
    RenderStep(file, a.hasTrailingNewline, hs, ps, 0, 0, start, end);
    RenderStep(file, a.hasTrailingNewline, hs, ps, 0, |head|, start, end);
    HeadIsFirst(a, head, c, start);
    TextOfJoined(head, file[|head|..start]);
    var x, y := TextOf(file[|head|..start], true), TextOf(Replacement(hs[0], ps[0]), !(ps[0].suffix == 0 && hs[0].newNoNewline));
    var z := RenderFrom(file, a.hasTrailingNewline, hs[1..], ps[1..], end);
    assert TextOf(head, true) + x + y + z == TextOf(head, true) + (x + y + z);
  }

  lemma HeadIsFirst(a: FileLines, head: seq<string>, c: nat, start: nat)
    requires c <= |a.lines| && |head| <= start <= |WithHead(a, head, c)|
    ensures WithHead(a, head, c)[0..start] == head + WithHead(a, head, c)[|head|..start]
  {
  }
}
