/** Hunks without context: a hunk that only inserts names the line before it, but the search starts
    one line earlier; and a change of the end of file that no hunk shows is lost. */
module PatchContextZero {
  import opened Text
  import opened PatchParser
  import opened PatchApply
  import opened PatchOutput
  import opened PatchWindows
  import opened PatchFits

  predicate OnlyInserts(w: Window) {
    w.lo == w.hi && w.lo > 0
  }

  // A hunk without context that replaces a[w.lo..w.hi] by b[w.newLo..w.newHi], and says so.
  ghost predicate HunkFitsBare(a: FileLines, b: FileLines, h: PatchHunk, w: Window) {
    && w.lo <= w.hi <= |a.lines| && w.newLo <= w.newHi <= |b.lines| && (w.lo < w.hi || w.newLo < w.newHi)
    && Pattern(h) == a.lines[w.lo..w.hi] && NewLines(h) == b.lines[w.newLo..w.newHi]
    && h.oldStart == w.lo + (if w.lo < w.hi then 1 else 0)
    && ContextOf(h.lines) == HunkContext(0, 0)
    && (h.newNoNewline <==> w.newLo < w.newHi == |b.lines| && !b.hasTrailingNewline)
  }

  // Between the windows the files agree, and there is a line between any two of them.
  ghost predicate GapFitsBare(a: FileLines, b: FileLines, ws: seq<Window>, k: nat)
    requires k < |ws|
  {
    && OldAt(ws, k) <= ws[k].lo <= |a.lines| && NewAt(ws, k) <= ws[k].newLo <= |b.lines|
    && a.lines[OldAt(ws, k)..ws[k].lo] == b.lines[NewAt(ws, k)..ws[k].newLo]
    && (k > 0 ==> OldAt(ws, k) < ws[k].lo)
  }

  ghost predicate FitsBare(a: FileLines, b: FileLines, hs: seq<PatchHunk>, ws: seq<Window>) {
    && |hs| == |ws|
    && (forall k :: 0 <= k < |hs| ==> HunkFitsBare(a, b, hs[k], ws[k]) && GapFitsBare(a, b, ws, k))
    && OldAt(ws, |ws|) <= |a.lines| && NewAt(ws, |ws|) <= |b.lines|
    && a.lines[OldAt(ws, |ws|)..] == b.lines[NewAt(ws, |ws|)..]
    && (OldAt(ws, |ws|) < |a.lines| ==> a.hasTrailingNewline == b.hasTrailingNewline)
  }

  lemma FitsAtBare(a: FileLines, b: FileLines, hs: seq<PatchHunk>, ws: seq<Window>, k: nat)
    requires FitsBare(a, b, hs, ws) && k < |hs|
    ensures |hs| == |ws| && HunkFitsBare(a, b, hs[k], ws[k]) && GapFitsBare(a, b, ws, k)
  {
    hide HunkFitsBare, GapFitsBare;
  }

  // Where such a hunk ends up: one line early if it only inserts.
  function BarePlace(w: Window): nat {
    if OnlyInserts(w) then w.lo - 1 else w.lo
  }

  // The bounds of a window and of the gap before it.
  lemma WindowBounds(a: FileLines, b: FileLines, h: PatchHunk, ws: seq<Window>, k: nat)
    requires k < |ws| && HunkFitsBare(a, b, h, ws[k]) && GapFitsBare(a, b, ws, k)
    ensures var w := ws[k];
            && w.lo <= w.hi <= |a.lines| && w.newLo <= w.newHi <= |b.lines| && NewAt(ws, k) <= w.newLo
            && OldAt(ws, k) <= BarePlace(w) && BarePlace(w) + (w.hi - w.lo) <= w.hi
            && a.lines[OldAt(ws, k)..w.lo] == b.lines[NewAt(ws, k)..w.newLo]
            && |Pattern(h)| == w.hi - w.lo && NewLines(h) == b.lines[w.newLo..w.newHi]
            && (w.lo < w.hi || w.newLo < w.newHi)
    ensures OldAt(ws, k + 1) == ws[k].hi && NewAt(ws, k + 1) == ws[k].newHi
    ensures k > 0 ==> OldAt(ws, k) < ws[k].lo
  {
    hide Side;
  }

  // ----- Placing -----

  lemma BareLocated(a: FileLines, b: FileLines, h: PatchHunk, w: Window, st: PlaceState, maxFuzz: int)
    requires HunkFitsBare(a, b, h, w) && st.offset == 0 && st.frozen <= BarePlace(w) && maxFuzz >= 0
    ensures Located(SearchFor(a.lines, h, st), maxFuzz, BarePlace(w), 0)
  {
    hide Side, LeadingContext, TrailingContext;
    var s := SearchFor(a.lines, h, st);
    forall j | 0 <= j < |s.pattern| ensures LineMatches(s.file, w.lo, s.pattern, j) {
      assert s.pattern[j] == a.lines[w.lo..w.hi][j];
    }
    assert Candidate(s, 0, BarePlace(w));
  }

  lemma BarePlaced(a: FileLines, b: FileLines, h: PatchHunk, w: Window, st: PlaceState, maxFuzz: int, p: Placement)
    requires HunkFitsBare(a, b, h, w) && st.offset == 0 && st.frozen <= BarePlace(w) && maxFuzz >= 0
    requires PlacedRight(a.lines, h, maxFuzz, p, st)
    ensures p == Placed(BarePlace(w), 0, 0)
    ensures NextState(h, p, st) == PlaceState(0, BarePlace(w) + (w.hi - w.lo))
  {
    hide Candidate, Matches, NotFarther, Side, LeadingContext, TrailingContext;
    BareLocated(a, b, h, w, st, maxFuzz);
    var s := SearchFor(a.lines, h, st);
    assert Candidate(s, 0, BarePlace(w));
    assert p.Rejected? ==> NoCandidate(s, 0);
    if p.Placed? {
      var found, used :| PlacedWith(s, maxFuzz, p, found, used);
      LocatedOnce(s, maxFuzz, p.pos, found, BarePlace(w), 0);
    }
  }

  lemma {:induction false} AllPlacedBare(a: FileLines, b: FileLines, hs: seq<PatchHunk>, ws: seq<Window>, maxFuzz: int,
                                         ps: seq<Placement>, states: seq<PlaceState>, k: nat)
    requires FitsBare(a, b, hs, ws) && maxFuzz >= 0 && AllPlaced(a.lines, hs, maxFuzz, ps, states) && k <= |hs|
    ensures states[k].offset == 0 && states[k].frozen <= OldAt(ws, k)
    ensures forall j :: 0 <= j < k ==> ps[j] == Placed(BarePlace(ws[j]), 0, 0)
    decreases k
  {
    hide FitsBare, HunkFitsBare, GapFitsBare, PlacedRight, NextState, OldAt, NewAt;
    NothingBefore(ws);
    if k > 0 {
      AllPlacedBare(a, b, hs, ws, maxFuzz, ps, states, k - 1);
      FitsAtBare(a, b, hs, ws, k - 1);
      WindowBounds(a, b, hs[k - 1], ws, k - 1);
      assert Follows(a.lines, hs[k - 1], maxFuzz, ps[k - 1], states, k - 1);
      BarePlaced(a, b, hs[k - 1], ws[k - 1], states[k - 1], maxFuzz, ps[k - 1]);
    }
  }

  lemma NothingBefore(ws: seq<Window>)
    ensures OldAt(ws, 0) == 0 && NewAt(ws, 0) == 0
  {
  }

  ghost predicate BarePlaces(ps: seq<Placement>, ws: seq<Window>) {
    |ps| == |ws| && forall j :: 0 <= j < |ps| ==> ps[j] == Placed(BarePlace(ws[j]), 0, 0)
  }

  // ----- Lines and their text -----

  // What splitting a file gives: lines without newlines, the last not empty if it has no newline.
  ghost predicate IsFile(f: FileLines) {
    && NoChar(f.lines, '\n')
    && (!f.hasTrailingNewline ==> f.lines != [] && f.lines[|f.lines| - 1] != "")
  }

  lemma {:induction false} JumpedOver(x: string, ins: seq<string>)
    ensures ins + [x] == [x] + ins <==> forall i :: 0 <= i < |ins| ==> ins[i] == x
    decreases |ins|
  {
    if ins + [x] == [x] + ins {
      forall i | 0 <= i < |ins| ensures ins[i] == x {
        AllLike(x, ins, i);
      }
    }
  }

  lemma {:induction false} AllLike(x: string, ins: seq<string>, i: nat)
    requires ins + [x] == [x] + ins && i < |ins|
    ensures ins[i] == x
    decreases i
  {
    assert (ins + [x])[i] == ([x] + ins)[i];
    if i > 0 {
      AllLike(x, ins, i - 1);
    }
  }

  // Terminated lines are determined by their text.
  lemma SameText(s: seq<string>, t: seq<string>)
    requires NoChar(s, '\n') && NoChar(t, '\n')
    ensures TextOf(s, true) == TextOf(t, true) <==> s == t
  {
    hide TextOf, LinesOf;
    LinesOfText(s, true);
    LinesOfText(t, true);
  }

  lemma PiecesEqual(s: string, x: string, t: string, y: string, u: string)
    requires |x| == |y|
    ensures s + x + t == s + y + u <==> x == y && t == u
  {
    var l, r := s + x + t, s + y + u;
    assert x == l[|s|..|s| + |x|] && y == r[|s|..|s| + |y|];
    assert t == l[|s| + |x|..] && u == r[|s| + |y|..];
  }

  // Inserted lines and the line they jump over change places: the text is the same exactly if all are alike.
  lemma TextJumps(s: string, x: string, ins: seq<string>, t: string, u: string)
    requires NoChar(ins + [x], '\n')
    ensures s + TextOf(ins, true) + (TextOf([x], true) + t) == s + TextOf([x], true) + TextOf(ins, true) + u
       <==> (forall i :: 0 <= i < |ins| ==> ins[i] == x) && t == u
  {
    hide TextOf, NoChar;
    var l, r := TextOf(ins, true) + TextOf([x], true), TextOf([x], true) + TextOf(ins, true);
    Regrouped(s, TextOf(ins, true), TextOf([x], true), t);
    Regrouped(s, TextOf([x], true), TextOf(ins, true), u);
    PiecesEqual(s, l, t, r, u);
    TextOfConcat(ins, [x], true);
    TextOfJoined([x], ins);
    NoCharTurned(ins, x);
    SameText(ins + [x], [x] + ins);
    JumpedOver(x, ins);
  }

  lemma Regrouped(s: string, p: string, q: string, t: string)
    ensures s + p + (q + t) == s + (p + q) + t == s + p + q + t
  {
  }

  lemma NoCharTurned(ins: seq<string>, x: string)
    requires NoChar(ins + [x], '\n')
    ensures NoChar([x] + ins, '\n')
  {
    assert forall i :: 0 <= i < |ins| ==> (ins + [x])[i] == ins[i];
    assert (ins + [x])[|ins|] == x;
  }

  // ----- What is harmless -----

  /** A hunk without context does no harm to the new file exactly if this holds. One that only inserts
      must insert copies of the line before it, and behind the last line both files must end with a
      newline; one that deletes the last lines must not leave an unterminated line. */
  ghost predicate Harmless(a: FileLines, b: FileLines, w: Window) {
    && (OnlyInserts(w) && w.lo <= |a.lines| && w.newLo <= w.newHi <= |b.lines| ==>
          && (forall i :: w.newLo <= i < w.newHi ==> b.lines[i] == a.lines[w.lo - 1])
          && (w.lo == |a.lines| ==> a.hasTrailingNewline && b.hasTrailingNewline))
    && (w.newLo == w.newHi && w.hi == |a.lines| && b.lines != [] ==> b.hasTrailingNewline)
  }

  // The patched file from the k-th window on, starting at a line of the input, and what it should be.
  ghost function Rest(a: FileLines, hs: seq<PatchHunk>, ps: seq<Placement>, k: nat, last: nat): string
    requires |hs| == |ps| && k <= |hs| && last <= |a.lines|
  {
    RenderFrom(a.lines, a.hasTrailingNewline, hs[k..], ps[k..], last)
  }

  ghost function Wanted(b: FileLines, from: nat): string
    requires from <= |b.lines|
  {
    TextOf(b.lines[from..], b.hasTrailingNewline)
  }

  lemma WholeReplacement(h: PatchHunk, p: Placement)
    requires p.Placed? && p.prefix == 0 && p.suffix == 0
    ensures Replacement(h, p) == NewLines(h)
  {
    hide Side;
    var new' := NewLines(h);
    assert new'[0..|new'|] == new';
  }

  lemma RestStep(a: FileLines, b: FileLines, hs: seq<PatchHunk>, ws: seq<Window>, ps: seq<Placement>, k: nat, last: nat)
    requires FitsBare(a, b, hs, ws) && BarePlaces(ps, ws) && k < |hs| && last <= BarePlace(ws[k])
    ensures var w := ws[k];
            && BarePlace(w) <= |a.lines| && BarePlace(w) + (w.hi - w.lo) <= |a.lines|
            && w.newLo <= w.newHi <= |b.lines|
            && Rest(a, hs, ps, k, last) ==
               TextOf(a.lines[last..BarePlace(w)], true)
               + TextOf(b.lines[w.newLo..w.newHi], !(w.newLo < w.newHi == |b.lines| && !b.hasTrailingNewline))
               + Rest(a, hs, ps, k + 1, BarePlace(w) + (w.hi - w.lo))
  {
    hide FitsBare, GapFitsBare, Replacement, NewLines, Side, OldAt, NewAt, TextOf;
    FitsAtBare(a, b, hs, ws, k);
    WindowBounds(a, b, hs[k], ws, k);
    assert hs[k..][0] == hs[k] && ps[k..][0] == ps[k];
    assert hs[k..][1..] == hs[k + 1..] && ps[k..][1..] == ps[k + 1..];
    WholeReplacement(hs[k], ps[k]);
  }

  lemma RestAtEnd(a: FileLines, hs: seq<PatchHunk>, ps: seq<Placement>, last: nat)
    requires |hs| == |ps| && last <= |a.lines|
    ensures Rest(a, hs, ps, |hs|, last) == TextOf(a.lines[last..], a.hasTrailingNewline)
  {
  }

  // A line before the next window is copied, if anything follows it.
  lemma RestCopies(a: FileLines, b: FileLines, hs: seq<PatchHunk>, ws: seq<Window>, ps: seq<Placement>, k: nat, last: nat)
    requires FitsBare(a, b, hs, ws) && BarePlaces(ps, ws) && k <= |hs| && last < |a.lines|
    requires if k < |hs| then last < BarePlace(ws[k]) else last + 1 < |a.lines|
    ensures Rest(a, hs, ps, k, last) == TextOf([a.lines[last]], true) + Rest(a, hs, ps, k, last + 1)
  {
    hide FitsBare, Rest, BarePlaces, BarePlace, TextOf;
    PlacesSize(a, b, hs, ws, ps);
    if k < |hs| {
      RestStep(a, b, hs, ws, ps, k, last);
      RestStep(a, b, hs, ws, ps, k, last + 1);
      assert a.lines[last..BarePlace(ws[k])] == [a.lines[last]] + a.lines[last + 1..BarePlace(ws[k])];
      TextOfJoined([a.lines[last]], a.lines[last + 1..BarePlace(ws[k])]);
    } else {
      RestAtEnd(a, hs, ps, last);
      RestAtEnd(a, hs, ps, last + 1);
      assert a.lines[last..] == [a.lines[last]] + a.lines[last + 1..];
      TextOfConcat([a.lines[last]], a.lines[last + 1..], a.hasTrailingNewline);
    }
  }

  lemma PlacesSize(a: FileLines, b: FileLines, hs: seq<PatchHunk>, ws: seq<Window>, ps: seq<Placement>)
    requires FitsBare(a, b, hs, ws) && BarePlaces(ps, ws)
    ensures |hs| == |ws| == |ps| && OldAt(ws, |ws|) <= |a.lines| && NewAt(ws, |ws|) <= |b.lines|
    ensures a.lines[OldAt(ws, |ws|)..] == b.lines[NewAt(ws, |ws|)..]
    ensures OldAt(ws, |ws|) < |a.lines| ==> a.hasTrailingNewline == b.hasTrailingNewline
  {
  }

  // Whether anything follows a window is the same in both files, and then a line does.
  lemma Following(a: FileLines, b: FileLines, hs: seq<PatchHunk>, ws: seq<Window>, k: nat)
    requires FitsBare(a, b, hs, ws) && k < |hs|
    ensures ws[k].hi <= |a.lines| && ws[k].newHi <= |b.lines|
    ensures ws[k].hi == |a.lines| <==> ws[k].newHi == |b.lines|
    ensures ws[k].hi == |a.lines| ==> k + 1 == |ws|
    ensures k + 1 < |ws| ==> ws[k].hi < ws[k + 1].lo && ws[k].hi <= BarePlace(ws[k + 1])
  {
    hide HunkFitsBare;
    FitsAtBare(a, b, hs, ws, k);
    if k + 1 < |ws| {
      FitsAtBare(a, b, hs, ws, k + 1);
      assert GapFitsBare(a, b, ws, k + 1);
    } else {
      assert a.lines[ws[k].hi..] == b.lines[ws[k].newHi..];
    }
    WindowInside(a, b, hs[k], ws[k]);
  }

  lemma WindowInside(a: FileLines, b: FileLines, h: PatchHunk, w: Window)
    requires HunkFitsBare(a, b, h, w)
    ensures w.lo <= w.hi <= |a.lines| && w.newLo <= w.newHi <= |b.lines|
  {
  }

  lemma {:induction false} RestIsNew(a: FileLines, b: FileLines, hs: seq<PatchHunk>, ws: seq<Window>, ps: seq<Placement>, k: nat)
    requires FitsBare(a, b, hs, ws) && BarePlaces(ps, ws) && k <= |hs| && NoChar(a.lines, '\n') && IsFile(b)
    ensures OldAt(ws, k) <= |a.lines| && NewAt(ws, k) <= |b.lines|
    ensures Rest(a, hs, ps, k, OldAt(ws, k)) == Wanted(b, NewAt(ws, k)) <==>
            forall j :: k <= j < |ws| ==> Harmless(a, b, ws[j])
    decreases |hs| - k
  {
    hide Rest, FitsBare, BarePlaces, OldAt, NewAt, Harmless, TextOf;
    PlacesSize(a, b, hs, ws, ps);
    if k < |hs| {
      RestIsNew(a, b, hs, ws, ps, k + 1);
      StepIsNew(a, b, hs, ws, ps, k);
    } else {
      RestAtEnd(a, hs, ps, OldAt(ws, k));
      NothingToRender(a.hasTrailingNewline, b.hasTrailingNewline);
    }
  }

  lemma NothingToRender(x: bool, y: bool)
    ensures TextOf([], x) == TextOf([], y)
  {
  }

  lemma StepIsNew(a: FileLines, b: FileLines, hs: seq<PatchHunk>, ws: seq<Window>, ps: seq<Placement>, k: nat)
    requires FitsBare(a, b, hs, ws) && BarePlaces(ps, ws) && k < |hs| && NoChar(a.lines, '\n') && IsFile(b)
    ensures OldAt(ws, k) <= |a.lines| && NewAt(ws, k) <= |b.lines| && OldAt(ws, k + 1) <= |a.lines| && NewAt(ws, k + 1) <= |b.lines|
    ensures Rest(a, hs, ps, k, OldAt(ws, k)) == Wanted(b, NewAt(ws, k)) <==>
            Harmless(a, b, ws[k]) && Rest(a, hs, ps, k + 1, OldAt(ws, k + 1)) == Wanted(b, NewAt(ws, k + 1))
  {
    hide Rest, FitsBare, HunkFitsBare, GapFitsBare, BarePlaces, OldAt, NewAt, Harmless, Pattern, NewLines, TextOf, IsFile;
    PlacesSize(a, b, hs, ws, ps);
    FitsAtBare(a, b, hs, ws, k);
    WindowBounds(a, b, hs[k], ws, k);
    Following(a, b, hs, ws, k);
    if ws[k].hi < |a.lines| {
      StepInside(a, b, hs, ws, ps, k);
    } else {
      StepAtEnd(a, b, hs, ws, ps, k);
    }
  }

  // A window with something behind it.
  lemma StepInside(a: FileLines, b: FileLines, hs: seq<PatchHunk>, ws: seq<Window>, ps: seq<Placement>, k: nat)
    requires FitsBare(a, b, hs, ws) && BarePlaces(ps, ws) && k < |hs| && NoChar(a.lines, '\n') && IsFile(b)
    requires OldAt(ws, k) <= |a.lines| && NewAt(ws, k) <= |b.lines| && ws[k].hi < |a.lines| && ws[k].newHi < |b.lines|
    ensures Rest(a, hs, ps, k, OldAt(ws, k)) == Wanted(b, NewAt(ws, k)) <==>
            Harmless(a, b, ws[k]) && Rest(a, hs, ps, k + 1, ws[k].hi) == Wanted(b, ws[k].newHi)
  {
    hide Rest, FitsBare, HunkFitsBare, GapFitsBare, BarePlaces, OldAt, NewAt, Harmless, Pattern, NewLines, TextOf, IsFile;
    FitsAtBare(a, b, hs, ws, k);
    WindowBounds(a, b, hs[k], ws, k);
    Following(a, b, hs, ws, k);
    PlacesSize(a, b, hs, ws, ps);
    var w, from := ws[k], OldAt(ws, k);
    RestStep(a, b, hs, ws, ps, k, from);
    WantedSplit(a, b, from, NewAt(ws, k), w);
    var ins := b.lines[w.newLo..w.newHi];
    if OnlyInserts(w) {
      RestCopies(a, b, hs, ws, ps, k + 1, w.lo - 1);
      assert a.lines[from..w.lo] == a.lines[from..w.lo - 1] + [a.lines[w.lo - 1]];
      TextOfJoined(a.lines[from..w.lo - 1], [a.lines[w.lo - 1]]);
      LinesAreClean(a, b, w);
      TextJumps(TextOf(a.lines[from..w.lo - 1], true), a.lines[w.lo - 1], ins, Rest(a, hs, ps, k + 1, w.lo), Wanted(b, w.newHi));
      HarmlessMeans(a, b, w);
    } else {
      HarmlessElse(a, b, w);
      PiecesEqual(TextOf(a.lines[from..w.lo], true), TextOf(ins, true), Rest(a, hs, ps, k + 1, w.hi), TextOf(ins, true),
                  Wanted(b, w.newHi));
    }
  }

  lemma WantedSplit(a: FileLines, b: FileLines, from: nat, newFrom: nat, w: Window)
    requires from <= w.lo <= |a.lines| && newFrom <= w.newLo <= w.newHi < |b.lines|
    requires a.lines[from..w.lo] == b.lines[newFrom..w.newLo]
    ensures Wanted(b, newFrom) == TextOf(a.lines[from..w.lo], true) + TextOf(b.lines[w.newLo..w.newHi], true) + Wanted(b, w.newHi)
  {
    hide TextOf;
    var gap, ins, rest := b.lines[newFrom..w.newLo], b.lines[w.newLo..w.newHi], b.lines[w.newHi..];
    assert b.lines[newFrom..] == gap + ins + rest;
    TextOfConcat(gap + ins, rest, b.hasTrailingNewline);
    TextOfJoined(gap, ins);
  }

  lemma LinesAreClean(a: FileLines, b: FileLines, w: Window)
    requires NoChar(a.lines, '\n') && IsFile(b) && 0 < w.lo <= |a.lines| && w.newLo <= w.newHi <= |b.lines|
    ensures NoChar(b.lines[w.newLo..w.newHi] + [a.lines[w.lo - 1]], '\n')
  {
  }

  lemma HarmlessElse(a: FileLines, b: FileLines, w: Window)
    requires !OnlyInserts(w) && (w.newLo < w.newHi || w.hi < |a.lines|)
    ensures Harmless(a, b, w)
  {
  }

  lemma HarmlessMeans(a: FileLines, b: FileLines, w: Window)
    requires OnlyInserts(w) && w.lo <= |a.lines| && w.newLo < w.newHi <= |b.lines|
    ensures Harmless(a, b, w) <==>
            && (forall i :: 0 <= i < |b.lines[w.newLo..w.newHi]| ==> b.lines[w.newLo..w.newHi][i] == a.lines[w.lo - 1])
            && (w.lo == |a.lines| ==> a.hasTrailingNewline && b.hasTrailingNewline)
  {
    var ins := b.lines[w.newLo..w.newHi];
    if forall i :: 0 <= i < |ins| ==> ins[i] == a.lines[w.lo - 1] {
      forall i | w.newLo <= i < w.newHi ensures b.lines[i] == a.lines[w.lo - 1] {
        assert b.lines[i] == ins[i - w.newLo];
      }
    }
  }

  // A window that ends both files.
  lemma StepAtEnd(a: FileLines, b: FileLines, hs: seq<PatchHunk>, ws: seq<Window>, ps: seq<Placement>, k: nat)
    requires FitsBare(a, b, hs, ws) && BarePlaces(ps, ws) && k + 1 == |hs| && NoChar(a.lines, '\n') && IsFile(b)
    requires OldAt(ws, k) <= |a.lines| && NewAt(ws, k) <= |b.lines| && ws[k].hi == |a.lines| && ws[k].newHi == |b.lines|
    ensures Rest(a, hs, ps, k, OldAt(ws, k)) == Wanted(b, NewAt(ws, k)) <==>
            Harmless(a, b, ws[k]) && Rest(a, hs, ps, k + 1, ws[k].hi) == Wanted(b, ws[k].newHi)
  {
    hide Rest, FitsBare, HunkFitsBare, GapFitsBare, BarePlaces, OldAt, NewAt, Harmless, Pattern, NewLines, TextOf, IsFile;
    FitsAtBare(a, b, hs, ws, k);
    WindowBounds(a, b, hs[k], ws, k);
    PlacesSize(a, b, hs, ws, ps);
    NothingBefore(ws);
    var w, from := ws[k], OldAt(ws, k);
    RestStep(a, b, hs, ws, ps, k, from);
    RestAtEnd(a, hs, ps, BarePlace(w) + (w.hi - w.lo));
    RestAtEnd(a, hs, ps, w.hi);
    NothingToRender(a.hasTrailingNewline, b.hasTrailingNewline);
    assert a.lines[w.hi..] == [] && b.lines[w.newHi..] == [];
    var gap, ins := b.lines[NewAt(ws, k)..w.newLo], b.lines[w.newLo..w.newHi];
    assert b.lines[NewAt(ws, k)..] == gap + ins;
    if OnlyInserts(w) {
      assert a.lines[w.lo - 1..] == [a.lines[w.lo - 1]];
      assert gap == a.lines[from..w.lo - 1] + [a.lines[w.lo - 1]];
      TextOfJoined(a.lines[from..w.lo - 1], [a.lines[w.lo - 1]]);
      TextOfConcat(gap, ins, b.hasTrailingNewline);
      LinesAreClean(a, b, w);
      LastOfFile(b, w);
      TextJumpsAtEnd(TextOf(a.lines[from..w.lo - 1], true), a.lines[w.lo - 1], ins, a.hasTrailingNewline, b.hasTrailingNewline);
      HarmlessMeans(a, b, w);
    } else if w.newLo < w.newHi {
      TextOfConcat(gap, ins, b.hasTrailingNewline);
      HarmlessElse(a, b, w);
      EmptyText();
      var text := TextOf(gap, true) + TextOf(ins, b.hasTrailingNewline);
      assert text + "" == text;
    } else {
      assert gap + ins == gap;
      assert TextOf(gap, true) + TextOf([], true) + TextOf([], true) == TextOf(gap, true) by {
        EmptyText();
      }
      ShorterText(gap);
      EmptyFileEnds(b);
      EmptyText();
      HarmlessDeletion(a, b, w);
      assert k > 0 ==> gap != [];
      assert k == 0 ==> (gap == [] <==> b.lines == []);
    }
  }

  lemma EmptyFileEnds(b: FileLines)
    requires IsFile(b)
    ensures b.lines == [] ==> b.hasTrailingNewline
  {
  }

  lemma HarmlessDeletion(a: FileLines, b: FileLines, w: Window)
    requires !OnlyInserts(w) && w.newLo == w.newHi && w.hi == |a.lines|
    ensures Harmless(a, b, w) <==> (b.lines != [] ==> b.hasTrailingNewline)
  {
  }

  lemma LastOfFile(b: FileLines, w: Window)
    requires IsFile(b) && w.newLo < w.newHi == |b.lines|
    ensures var ins := b.lines[w.newLo..w.newHi];
            !b.hasTrailingNewline ==> ins[|ins| - 1] != "" && '\n' !in ins[|ins| - 1]
  {
  }

  // At the end of the files the last line can only be jumped over if both end with a newline.
  lemma TextJumpsAtEnd(s: string, x: string, ins: seq<string>, oldEnd: bool, newEnd: bool)
    requires ins != [] && NoChar(ins + [x], '\n')
    requires !newEnd ==> ins[|ins| - 1] != "" && '\n' !in ins[|ins| - 1]
    ensures s + TextOf(ins, newEnd) + TextOf([x], oldEnd) == s + TextOf([x], true) + TextOf(ins, newEnd)
       <==> (forall i :: 0 <= i < |ins| ==> ins[i] == x) && oldEnd && newEnd
  {
    hide TextOf;
    ShorterText([x]);
    if oldEnd && newEnd {
      TextJumps(s, x, ins, "", "");
      assert TextOf([x], true) + "" == TextOf([x], true);
      assert s + TextOf([x], true) + TextOf(ins, true) + "" == s + TextOf([x], true) + TextOf(ins, true);
    } else if oldEnd {
      LastCharacter([x], true);
      LastCharacter(ins, false);
      var l, r := s + TextOf(ins, false) + TextOf([x], true), s + TextOf([x], true) + TextOf(ins, false);
      assert l[|l| - 1] == '\n' && r[|r| - 1] != '\n';
    }
  }

  lemma {:induction false} LastCharacter(lines: seq<string>, newline: bool)
    requires lines != [] && (newline || lines[|lines| - 1] != "")
    ensures var t := TextOf(lines, newline);
            t != "" && t[|t| - 1] == if newline then '\n' else lines[|lines| - 1][|lines[|lines| - 1]| - 1]
  {
    if |lines| > 1 {
      LastCharacter(lines[1..], newline);
    }
  }

  /** Without context the patched file is the new one, byte for byte, exactly if every hunk is harmless. */
  lemma ContextZeroExactly(a: FileLines, b: FileLines, hs: seq<PatchHunk>, ws: seq<Window>, maxFuzz: int,
                           ps: seq<Placement>, states: seq<PlaceState>)
    requires FitsBare(a, b, hs, ws) && NoChar(a.lines, '\n') && IsFile(b) && maxFuzz >= 0 && AllPlaced(a.lines, hs, maxFuzz, ps, states)
    ensures forall k :: 0 <= k < |ps| ==> ps[k].Placed?
    ensures RenderFrom(a.lines, a.hasTrailingNewline, hs, ps, 0) == TextOf(b.lines, b.hasTrailingNewline)
       <==> forall k :: 0 <= k < |ws| ==> Harmless(a, b, ws[k])
  {
    hide RenderFrom, Harmless, FitsBare, Follows, OldAt, NewAt, TextOf, IsFile;
    NothingBefore(ws);
    SizesBare(a, b, hs, ws);
    AllPlacedBare(a, b, hs, ws, maxFuzz, ps, states, |hs|);
    RestIsNew(a, b, hs, ws, ps, 0);
    assert hs[0..] == hs && ps[0..] == ps && b.lines[0..] == b.lines;
  }

  lemma SizesBare(a: FileLines, b: FileLines, hs: seq<PatchHunk>, ws: seq<Window>)
    requires FitsBare(a, b, hs, ws)
    ensures |hs| == |ws|
  {
  }
}
