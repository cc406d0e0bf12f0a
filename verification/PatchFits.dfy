/** Hunks that fit a file: they apply without fuzz and offset, and turn it into the file they were
    made for. */
module PatchFits {
  import opened Common
  import opened Text
  import opened PatchParser
  import opened PatchApply
  import opened PatchOutput

  // A hunk's lines in the file it applies to and in the file it makes.
  datatype Window = Window(lo: nat, hi: nat, newLo: nat, newHi: nat)

  // A hunk that replaces a[w.lo..w.hi] by b[w.newLo..w.newHi], and says so.
  ghost predicate HunkFits(a: FileLines, b: FileLines, h: PatchHunk, w: Window) {
    && w.lo <= w.hi <= |a.lines| && w.newLo <= w.newHi <= |b.lines|
    && Pattern(h) == a.lines[w.lo..w.hi] && NewLines(h) == b.lines[w.newLo..w.newHi]
    && h.oldStart == w.lo + (if w.lo < w.hi then 1 else 0)
    && (h.newNoNewline <==> w.newLo < w.newHi == |b.lines| && !b.hasTrailingNewline)
    // without a line on one side there is none at all on that side
    && (w.lo == w.hi ==> a.lines == [])
    && (w.newLo == w.newHi ==> b.lines == [])
  }

  // Where the files stand before the k-th window, and after the last.
  function OldAt(ws: seq<Window>, k: nat): nat
    requires k <= |ws|
  {
    if k == 0 then 0 else ws[k - 1].hi
  }

  function NewAt(ws: seq<Window>, k: nat): nat
    requires k <= |ws|
  {
    if k == 0 then 0 else ws[k - 1].newHi
  }

  // Before the window the files agree from where they stand on.
  ghost predicate GapFits(a: FileLines, b: FileLines, ws: seq<Window>, k: nat)
    requires k < |ws|
  {
    && OldAt(ws, k) <= ws[k].lo <= |a.lines| && NewAt(ws, k) <= ws[k].newLo <= |b.lines|
    && a.lines[OldAt(ws, k)..ws[k].lo] == b.lines[NewAt(ws, k)..ws[k].newLo]
  }

  // The windows and the gaps between them make up both files.
  ghost predicate Fits(a: FileLines, b: FileLines, hs: seq<PatchHunk>, ws: seq<Window>) {
    && |hs| == |ws|
    && (forall k :: 0 <= k < |hs| ==> HunkFits(a, b, hs[k], ws[k]))
    && (forall k :: 0 <= k < |hs| ==> GapFits(a, b, ws, k))
    && OldAt(ws, |ws|) <= |a.lines| && NewAt(ws, |ws|) <= |b.lines|
    && a.lines[OldAt(ws, |ws|)..] == b.lines[NewAt(ws, |ws|)..]
    && (OldAt(ws, |ws|) < |a.lines| ==> a.hasTrailingNewline == b.hasTrailingNewline)
  }

  // ----- Placing -----

  // Right at the start of its window, with all of its context.
  function ExactPlace(w: Window): Placement {
    Placed(w.lo, 0, 0)
  }

  lemma ExactCandidate(a: FileLines, b: FileLines, h: PatchHunk, w: Window, st: PlaceState)
    requires HunkFits(a, b, h, w) && st.frozen <= w.lo
    ensures Candidate(SearchFor(a.lines, h, st), 0, w.lo)
  {
    hide Side, LeadingContext, TrailingContext;
    var s := SearchFor(a.lines, h, st);
    forall j | 0 <= j < |s.pattern| ensures LineMatches(s.file, w.lo, s.pattern, j) {
      assert s.pattern[j] == a.lines[w.lo..w.hi][j];
    }
  }

  // The window is the nearest place, and the only one for a hunk without old lines.
  lemma ExactIsNearest(a: FileLines, b: FileLines, h: PatchHunk, w: Window, st: PlaceState, p: int)
    requires HunkFits(a, b, h, w) && st.offset == 0 && Candidate(SearchFor(a.lines, h, st), 0, p)
    ensures NotFarther(h.oldStart - 1, w.lo, p)
  {
    hide Side, LeadingContext, TrailingContext, Matches;
  }

  lemma ExactLocated(a: FileLines, b: FileLines, h: PatchHunk, w: Window, st: PlaceState, maxFuzz: int)
    requires HunkFits(a, b, h, w) && st.offset == 0 && st.frozen <= w.lo && maxFuzz >= 0
    ensures Located(SearchFor(a.lines, h, st), maxFuzz, w.lo, 0)
  {
    hide Candidate, NotFarther, HunkFits;
    ExactCandidate(a, b, h, w, st);
    var s := SearchFor(a.lines, h, st);
    forall p | Candidate(s, 0, p) ensures NotFarther(s.guess, w.lo, p) {
      ExactIsNearest(a, b, h, w, st, p);
    }
  }

  lemma ExactFuzz(s: Search, maxFuzz: int, pos: int, used: nat)
    requires Candidate(s, 0, pos) && FuzzUsed(s, maxFuzz, pos, used)
    ensures used == 0
  {
    hide Matches;
    assert Min(0, s.ctx.prefix) == 0 && Min(0, s.ctx.suffix) == 0;
  }

  lemma PlacedExactly(a: FileLines, b: FileLines, h: PatchHunk, w: Window, st: PlaceState, maxFuzz: int, p: Placement)
    requires HunkFits(a, b, h, w) && st.offset == 0 && st.frozen <= w.lo && maxFuzz >= 0
    requires PlacedRight(a.lines, h, maxFuzz, p, st)
    ensures p == ExactPlace(w)
    ensures NextState(h, p, st) == PlaceState(0, w.hi)
  {
    hide Candidate, Matches, NotFarther, Side, LeadingContext, TrailingContext;
    ExactLocated(a, b, h, w, st, maxFuzz);
    var s := SearchFor(a.lines, h, st);
    ExactCandidate(a, b, h, w, st);
    assert p.Rejected? ==> NoCandidate(s, 0);
    if p.Placed? {
      var found, used :| PlacedWith(s, maxFuzz, p, found, used);
      LocatedOnce(s, maxFuzz, p.pos, found, w.lo, 0);
      ExactFuzz(s, maxFuzz, p.pos, used);
    }
  }

  /** Hunks that fit are all placed exactly at their windows: no offset, no fuzz, no reject. */
  lemma {:induction false} AllPlacedExactly(a: FileLines, b: FileLines, hs: seq<PatchHunk>, ws: seq<Window>, maxFuzz: int,
                                            ps: seq<Placement>, states: seq<PlaceState>, k: nat)
    requires Fits(a, b, hs, ws) && maxFuzz >= 0 && AllPlaced(a.lines, hs, maxFuzz, ps, states) && k <= |hs|
    ensures states[k] == PlaceState(0, OldAt(ws, k))
    ensures forall j :: 0 <= j < k ==> ps[j] == ExactPlace(ws[j])
  {
    hide HunkFits, PlacedRight, NextState;
    if k > 0 {
      AllPlacedExactly(a, b, hs, ws, maxFuzz, ps, states, k - 1);
      assert Follows(a.lines, hs[k - 1], maxFuzz, ps[k - 1], states, k - 1);
      assert HunkFits(a, b, hs[k - 1], ws[k - 1]) && GapFits(a, b, ws, k - 1);
      PlacedExactly(a, b, hs[k - 1], ws[k - 1], states[k - 1], maxFuzz, ps[k - 1]);
    }
  }

  // ----- The output -----

  lemma ExactReplacement(a: FileLines, b: FileLines, h: PatchHunk, w: Window)
    requires HunkFits(a, b, h, w)
    ensures WindowStart(a.lines, ExactPlace(w)) == w.lo
    ensures WindowEnd(a.lines, h, ExactPlace(w)) == w.hi
    ensures Replacement(h, ExactPlace(w)) == b.lines[w.newLo..w.newHi]
  {
    hide Side;
    assert NewLines(h)[0..|NewLines(h)|] == NewLines(h);
  }

  // One gap, one window and the rest of the new file put together.
  lemma PiecesMakeText(b: FileLines, from: nat, lo: nat, hi: nat)
    requires from <= lo <= hi <= |b.lines| && (lo == hi ==> b.lines == [])
    ensures TextOf(b.lines[from..lo], true)
            + TextOf(b.lines[lo..hi], !(hi == |b.lines| && lo < hi && !b.hasTrailingNewline))
            + TextOf(b.lines[hi..], b.hasTrailingNewline)
         == TextOf(b.lines[from..], b.hasTrailingNewline)
  {
    var s, t, rest := b.lines[from..lo], b.lines[lo..hi], b.lines[hi..];
    if lo < hi {
      assert b.lines[from..] == s + (t + rest);
      TextOfConcat(s, t + rest, b.hasTrailingNewline);
      if hi == |b.lines| {
        assert t + rest == t;
        assert rest == [];
      } else {
        TextOfConcat(t, rest, b.hasTrailingNewline);
      }
    }
  }

  lemma {:induction false} RenderFits(a: FileLines, b: FileLines, hs: seq<PatchHunk>, ws: seq<Window>, ps: seq<Placement>, k: nat)
    requires Fits(a, b, hs, ws) && |ps| == |hs| && k <= |hs|
    requires forall j :: 0 <= j < |hs| ==> ps[j] == ExactPlace(ws[j])
    requires OldAt(ws, k) <= |a.lines| && NewAt(ws, k) <= |b.lines|
    ensures RenderFrom(a.lines, a.hasTrailingNewline, hs[k..], ps[k..], OldAt(ws, k))
         == TextOf(b.lines[NewAt(ws, k)..], b.hasTrailingNewline)
    decreases |hs| - k
  {
    hide HunkFits, TextOf, WindowStart, WindowEnd, Replacement;
    if k == |hs| {
      NothingAfter(a, b, hs, ws);
    } else {
      FitsAt(a, b, hs, ws, k);
      var w := ws[k];
      RenderFits(a, b, hs, ws, ps, k + 1);
      assert hs[k..][1..] == hs[k + 1..] && ps[k..][1..] == ps[k + 1..];
      ExactReplacement(a, b, hs[k], w);
      PiecesMakeText(b, NewAt(ws, k), w.newLo, w.newHi);
    }
  }

  lemma FitsAt(a: FileLines, b: FileLines, hs: seq<PatchHunk>, ws: seq<Window>, k: nat)
    requires Fits(a, b, hs, ws) && k < |hs|
    ensures var w := ws[k];
            && HunkFits(a, b, hs[k], w)
            && OldAt(ws, k) <= w.lo <= w.hi <= |a.lines| && NewAt(ws, k) <= w.newLo <= w.newHi <= |b.lines|
            && a.lines[OldAt(ws, k)..w.lo] == b.lines[NewAt(ws, k)..w.newLo]
            && (hs[k].newNoNewline <==> w.newLo < w.newHi == |b.lines| && !b.hasTrailingNewline)
            && (w.newLo == w.newHi ==> b.lines == [])
  {
    assert HunkFits(a, b, hs[k], ws[k]) && GapFits(a, b, ws, k);
  }

  lemma NothingAfter(a: FileLines, b: FileLines, hs: seq<PatchHunk>, ws: seq<Window>)
    requires Fits(a, b, hs, ws)
    ensures TextOf(a.lines[OldAt(ws, |ws|)..], a.hasTrailingNewline) == TextOf(b.lines[NewAt(ws, |ws|)..], b.hasTrailingNewline)
  {
    hide HunkFits;
  }

  /** Placing hunks that fit and putting their lines in gives exactly the new file, newline or not. */
  lemma FittingHunksApply(a: FileLines, b: FileLines, hs: seq<PatchHunk>, ws: seq<Window>, maxFuzz: int,
                          ps: seq<Placement>, states: seq<PlaceState>)
    requires Fits(a, b, hs, ws) && maxFuzz >= 0 && AllPlaced(a.lines, hs, maxFuzz, ps, states)
    ensures forall k :: 0 <= k < |ps| ==> ps[k].Placed?
    ensures RenderFrom(a.lines, a.hasTrailingNewline, hs, ps, 0) == TextOf(b.lines, b.hasTrailingNewline)
  {
    hide HunkFits, TextOf, PlacedRight, NextState, GapFits;
    AllPlacedExactly(a, b, hs, ws, maxFuzz, ps, states, |hs|);
    RenderFits(a, b, hs, ws, ps, 0);
    assert hs[0..] == hs && ps[0..] == ps && b.lines[0..] == b.lines;
  }
}
